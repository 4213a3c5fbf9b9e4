/** The firmware's command base class (`AbstractCommand`): a payload of a
    fixed expected size, or, for a negative expected size, the bytes of one
    line ended by END_OF_LINE. The serial input is the sequence of bytes that
    arrives; None: it ran out before the payload was complete. */
module FirmwareCommand {
  import opened Base
  import FirmwareCommandCode
  import opened FirmwareDevice

  /** `unsigned int` on the AVR boards: 16 bits. */
  const UINT_RANGE: int := 0x1_0000

  /** The byte that ends a line payload. */
  const END_OF_LINE: byte := FirmwareCommandCode.CommandCode.END_OF_LINE.Value()

  /** What `read_until_endl()` takes from `input`: the bytes before the first
      END_OF_LINE, which it consumes and drops, and what follows it. None:
      no END_OF_LINE arrives. */
  function UntilEndOfLine(input: seq<byte>): (r: Option<(seq<byte>, seq<byte>)>)
    ensures r.None? <==> END_OF_LINE !in input
    ensures r.Some? ==> END_OF_LINE !in r.value.0 && input == r.value.0 + [END_OF_LINE] + r.value.1
  {
    if input == [] then None
    else if input[0] == END_OF_LINE then Some(([], input[1..]))
    else match UntilEndOfLine(input[1..])
      case None => None
      case Some((line, after)) => Some(([input[0]] + line, after))
  }

  /** A line without END_OF_LINE, sent with END_OF_LINE after it, is read
      back whole, and nothing after it is taken. */
  lemma {:induction false} LineRoundTrip(line: seq<byte>, after: seq<byte>)
    requires END_OF_LINE !in line
    ensures UntilEndOfLine(line + [END_OF_LINE] + after) == Some((line, after))
  {
    if line != [] {
      assert (line + [END_OF_LINE] + after)[1..] == line[1..] + [END_OF_LINE] + after;
      LineRoundTrip(line[1..], after);
      assert [line[0]] + line[1..] == line;
    }
  }

  class AbstractCommand {
    /** `getName()`. */
    const name: string
    const expectedPayloadSize: int
    var effectivePayloadSize: int
    /** `payload_`; a command allocated without a buffer has an empty one. */
    var payload: array<byte>

    /** `AbstractCommand(expected_payload_size)`: a buffer only for a
        positive expected size; the effective size starts as the expected
        size converted to `unsigned int`. */
    constructor (name: string, expectedPayloadSize: int)
      ensures this.name == name && this.expectedPayloadSize == expectedPayloadSize
      ensures fresh(payload) && payload.Length == (if expectedPayloadSize > 0 then expectedPayloadSize else 0)
      ensures effectivePayloadSize == expectedPayloadSize % UINT_RANGE
    {
      this.name := name;
      this.expectedPayloadSize := expectedPayloadSize;
      effectivePayloadSize := (if expectedPayloadSize != 0 then expectedPayloadSize else 0) % UINT_RANGE;
      if expectedPayloadSize > 0 {
        payload := new byte[expectedPayloadSize];
      } else {
        payload := new byte[0];
      }
    }

    /** `receive()` over the bytes `input`. A positive expected size reads
        that many bytes (as a `uint8_t` count) into the buffer; a negative
        one reads a line and makes a new buffer holding exactly its bytes;
        0 reads nothing. Returns what is left of the input. */
    method Receive(input: seq<byte>) returns (rest: Option<seq<byte>>)
      requires expectedPayloadSize > 0 ==> payload.Length == expectedPayloadSize
      modifies this`effectivePayloadSize, this`payload, payload
      ensures expectedPayloadSize == 0 ==>
        rest == Some(input) && payload == old(payload) && payload[..] == old(payload[..])
        && effectivePayloadSize == old(effectivePayloadSize)
      ensures expectedPayloadSize > 0 ==>
        var n := ToUint8(expectedPayloadSize);
        && payload == old(payload) && effectivePayloadSize == old(effectivePayloadSize)
        && (n <= |input| ==> rest == Some(input[n..]) && payload[..] == input[..n] + old(payload[..])[n..])
        && (n > |input| ==> rest.None? && payload[..] == old(payload[..]))
      ensures expectedPayloadSize < 0 ==>
        && (UntilEndOfLine(input).None? ==>
              rest.None? && payload == old(payload) && effectivePayloadSize == old(effectivePayloadSize))
        && (UntilEndOfLine(input).Some? ==>
              var (line, after) := UntilEndOfLine(input).value;
              rest == Some(after) && fresh(payload) && payload[..] == line && effectivePayloadSize == |line|)
    {
      if expectedPayloadSize > 0 {
        var n := ToUint8(expectedPayloadSize);
        if n > |input| {
          return None;
        }
        Fill(payload, input[..n]);
        rest := Some(input[n..]);
      } else if expectedPayloadSize < 0 {
        var data := UntilEndOfLine(input);
        if data.None? {
          return None;
        }
        var (line, after) := data.value;
        var size := |line|;
        var buffer := new byte[size];
        for i := 0 to size
          invariant buffer[..i] == line[..i]
        {
          buffer[i] := line[i];
        }
        effectivePayloadSize, payload := size, buffer;
        rest := Some(after);
      } else {
        rest := Some(input);
      }
    }
  }

  /** A SETTINGS-like command (expected size -1) receiving `5 6`, END_OF_LINE
      and one more byte: its payload is `5 6` and the byte after the line is
      left unread. */
  method ReceiveLinePayload() returns (payload: seq<byte>, size: int, rest: Option<seq<byte>>)
    ensures payload == [5, 6] && size == 2 && rest == Some([99])
  {
    var command := new AbstractCommand("SETTINGS", -1);
    LineRoundTrip([5, 6], [99]);
    assert [5, 6] + [END_OF_LINE] + [99] == [5, 6, 10, 99];
    rest := command.Receive([5, 6, 10, 99]);
    payload := command.payload[..];
    size := command.effectivePayloadSize;
  }
}
