/** The firmware's device base class (`AbstractDevice`): an id taken once
    from the settings, a payload buffer filled from the serial input, and an
    update scheduler on the 32-bit millisecond clock. The serial input is
    the sequence of bytes that arrives; None: it ran out before the
    payload was complete. */
module FirmwareDevice {
  import opened Base

  const TWO_32: int := 0x1_0000_0000

  /** A value of `uint32_t`, such as a `millis()` reading. */
  type uint32 = n: int | 0 <= n < 0x1_0000_0000

  /** The conversion of an `int` to `uint8_t`: its value modulo 256. */
  function ToUint8(x: int): (b: byte)
    ensures 0 <= x < 256 ==> b == x
    ensures x >= 256 ==> b < x
    ensures (x - b) % 256 == 0
  {
    x % 256
  }

  /** `a - b` on `uint32_t`: the difference modulo 2^32. */
  function Minus32(a: uint32, b: uint32): (d: uint32)
    ensures (b + d) % TWO_32 == a
  {
    (a - b) % TWO_32
  }

  /** `shouldPerformNextTick_(now)`: at least `delay` milliseconds went by
      since the last update, counted on the wrapping clock. */
  predicate TickDue(now: uint32, last: uint32, delay: uint32) {
    Minus32(now, last) >= delay
  }

  /** However often the clock wrapped, a tick is due exactly when the time
      that went by since the last update reaches the delay, provided less
      than 2^32 ms went by. */
  lemma TickDueAcrossWraparound(last: uint32, elapsed: uint32, delay: uint32)
    ensures TickDue((last + elapsed) % TWO_32, last, delay) <==> elapsed >= delay
  {
    var now := (last + elapsed) % TWO_32;
    if last + elapsed < TWO_32 {
      assert now == last + elapsed;
    } else {
      assert now == last + elapsed - TWO_32;
    }
    assert Minus32(now, last) == elapsed;
  }

  /** How the payload size is known: the size byte read first when the size
      varies, else the expected size as a `uint8_t`; with how many bytes
      that size took from the input. None: the size byte never came. */
  function Header(expected: int, input: seq<byte>): Option<(byte, nat)>
  {
    if expected < 0 then
      if input == [] then None else Some((input[0], 1))
    else
      Some((ToUint8(expected), 0))
  }

  /** The buffer once the size byte, if any, was read into its first cell. */
  function Stamped(buffer: seq<byte>, expected: int, input: seq<byte>): seq<byte>
  {
    if expected < 0 && input != [] && buffer != [] then buffer[0 := input[0]] else buffer
  }

  /** `read_bytes(buffer, n)` storing what arrived: the bytes go in the first
      cells, in order, and the other cells keep their contents. */
  method Fill(buffer: array<byte>, bytes: seq<byte>)
    requires |bytes| <= buffer.Length
    modifies buffer
    ensures buffer[..] == bytes + old(buffer[..])[|bytes|..]
  {
    for i := 0 to |bytes|
      invariant buffer[..] == bytes[..i] + old(buffer[..])[i..]
    {
      buffer[i] := bytes[i];
      assert bytes[..i + 1] == bytes[..i] + [bytes[i]];
    }
  }

  class AbstractDevice {
    /** `id_`, 0 until the settings give one. */
    var id: byte
    const expectedPayloadSize: int
    var effectivePayloadSize: byte
    const payload: array<byte>
    /** `time_of_last_update_`. */
    var lastUpdate: uint32
    /** `delay_between_updates_`. */
    var delayBetweenUpdates: uint32
    /** The times `doUpdate` ran at, in order. */
    var updates: seq<uint32>

    /** The buffer holds the expected number of bytes when that is
        positive, else the 255 bytes a size byte can announce. */
    ghost predicate Valid()
      reads this
    {
      payload.Length == (if expectedPayloadSize > 0 then expectedPayloadSize else 255)
    }

    /** `AbstractDevice(expected_payload_size)`. The last update time is
        never set by the source; the model starts it at 0. */
    constructor (expectedPayloadSize: int)
      ensures Valid() && fresh(payload)
      ensures this.expectedPayloadSize == expectedPayloadSize && effectivePayloadSize == ToUint8(expectedPayloadSize)
      ensures id == 0 && lastUpdate == 0 && delayBetweenUpdates == 0 && updates == []
    {
      this.expectedPayloadSize := expectedPayloadSize;
      effectivePayloadSize := ToUint8(if expectedPayloadSize != 0 then expectedPayloadSize else 0);
      if expectedPayloadSize > 0 {
        payload := new byte[expectedPayloadSize];
      } else {
        payload := new byte[255];
      }
      id := 0;
      lastUpdate := 0;
      delayBetweenUpdates := 0;
      updates := [];
    }

    /** `updateSettings(payload)`: the first byte becomes the id while the
        id is still 0; a device with an id keeps it. */
    method UpdateSettings(settings: seq<byte>)
      requires |settings| >= 1
      modifies this`id
      ensures old(id) == 0 ==> id == settings[0]
      ensures old(id) != 0 ==> id == old(id)
    {
      if id == 0 {
        id := settings[0];
      }
    }

    /** `shouldPerformNextTick_(now)`. */
    predicate ShouldPerformNextTick(now: uint32)
      reads this
    {
      TickDue(now, lastUpdate, delayBetweenUpdates)
    }

    /** `update()` at the clock reading `now`: when a tick is due, it runs
        `doUpdate(now)` and records `now` as the last update; otherwise
        nothing changes. */
    method Update(now: uint32)
      modifies this`lastUpdate, this`updates
      ensures TickDue(now, old(lastUpdate), delayBetweenUpdates) ==> updates == old(updates) + [now] && lastUpdate == now
      ensures !TickDue(now, old(lastUpdate), delayBetweenUpdates) ==> updates == old(updates) && lastUpdate == old(lastUpdate)
    {
      if ShouldPerformNextTick(now) {
        updates := updates + [now];
        lastUpdate := now;
      }
    }

    /** `receivePayload_()` over the bytes `input`: the size (read from the
        input when it varies, else the expected size as a `uint8_t`), then
        that many bytes into the start of the buffer. The size always fits
        the buffer. Returns what is left of the input. */
    method ReceivePayload(input: seq<byte>) returns (rest: Option<seq<byte>>)
      requires Valid()
      modifies this`effectivePayloadSize, payload
      ensures Valid() && effectivePayloadSize <= payload.Length
      ensures Header(expectedPayloadSize, input).None? ==>
        rest.None? && effectivePayloadSize == old(effectivePayloadSize) && payload[..] == old(payload[..])
      ensures Header(expectedPayloadSize, input).Some? ==>
        var (n, h) := Header(expectedPayloadSize, input).value;
        && effectivePayloadSize == n
        && (h + n <= |input| ==>
              rest == Some(input[h + n..])
              && payload[..] == input[h..h + n] + Stamped(old(payload[..]), expectedPayloadSize, input)[n..])
        && (h + n > |input| ==>
              rest.None? && payload[..] == Stamped(old(payload[..]), expectedPayloadSize, input))
    {
      var h := 0;
      if expectedPayloadSize < 0 {
        if input == [] {
          return None;
        }
        payload[0] := input[0];
        effectivePayloadSize := payload[0];
        h := 1;
      } else {
        effectivePayloadSize := ToUint8(expectedPayloadSize);
      }
      var n := effectivePayloadSize;
      if h + n > |input| {
        return None;
      }
      if n > 0 {
        Fill(payload, input[h..h + n]);
      }
      rest := Some(input[h + n..]);
    }
  }

  /** A device of variable payload size receiving the frame `3 7 8 9`
      followed by one more byte: it takes 3 as the size, reads the three
      data bytes and leaves the last byte unread. */
  method ReceiveSizedFrame() returns (size: byte, data: seq<byte>, rest: Option<seq<byte>>)
    ensures size == 3 && data == [7, 8, 9] && rest == Some([42])
  {
    var device := new AbstractDevice(-1);
    rest := device.ReceivePayload([3, 7, 8, 9, 42]);
    size := device.effectivePayloadSize;
    data := device.payload[..3];
  }

  /** With the default delay of 0 every `update()` runs, whatever the clock
      reads, backwards jumps and wraparound included. */
  method EveryUpdateRuns(t1: uint32, t2: uint32, t3: uint32) returns (ran: seq<uint32>)
    ensures ran == [t1, t2, t3]
  {
    var device := new AbstractDevice(0);
    device.Update(t1);
    device.Update(t2);
    device.Update(t3);
    ran := device.updates;
  }

  /** The id is taken from the first settings only: later settings leave it
      as it is. */
  method IdSetOnce(first: byte, second: byte) returns (afterFirst: byte, afterSecond: byte)
    requires first != 0
    ensures afterFirst == first && afterSecond == first
  {
    var device := new AbstractDevice(0);
    device.UpdateSettings([first]);
    afterFirst := device.id;
    device.UpdateSettings([second]);
    afterSecond := device.id;
  }
}
