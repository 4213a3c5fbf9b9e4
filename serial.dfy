/** The current host's serial transport (`SerialProtocol`). The port is
    described by what it will do: whether it can be opened, what each
    one-byte `read(1)` will answer, and whether writes fail. */
module SerialTransport {
  import opened Base
  import opened Protocols

  class SerialProtocol {
    const portAvailable: bool
    const writeFails: bool
    var isOpen: bool
    /** The answers the coming `read(1)` calls give: a byte or nothing. */
    var incoming: seq<Read>
    /** Every byte string written to the port, in order. */
    var written: seq<seq<byte>>

    ghost predicate Valid()
      reads this`incoming
    {
      Reliable(incoming)
    }

    constructor (portAvailable: bool, incoming: seq<Read>, writeFails: bool)
      requires Reliable(incoming)
      ensures Valid() && !isOpen && written == []
      ensures this.incoming == incoming && this.portAvailable == portAvailable && this.writeFails == writeFails
    {
      this.portAvailable := portAvailable;
      this.writeFails := writeFails;
      isOpen := false;
      this.incoming := incoming;
      written := [];
    }

    /** `open()`: opens the port; when it cannot be opened the error is
        re-raised to the caller. The re-raise builds `ProtocolError` with two
        arguments while its constructor takes one, so what reaches the caller
        is a TypeError. */
    method Open() returns (r: Result<()>)
      modifies this`isOpen
      ensures portAvailable ==> r == Ok(()) && isOpen
      ensures !portAvailable ==> r == Err(TypeError) && isOpen == old(isOpen)
    {
      if !portAvailable {
        return Err(TypeError);
      }
      isOpen := true;
      r := Ok(());
    }

    method Close()
      modifies this`isOpen
      ensures !isOpen
    {
      isOpen := false;
    }

    /** `read_byte()`: skips the reads that answer nothing and returns the
        first byte read. None: the reads ran out while it was still waiting. */
    method ReadByte() returns (r: Option<byte>)
      requires Valid()
      modifies this`incoming
      ensures Valid()
      ensures r.None? <==> Received(old(incoming)) == []
      ensures r.Some? ==> r.value == Received(old(incoming))[0] && Received(incoming) == Received(old(incoming))[1..]
      ensures |incoming| <= |old(incoming)| && incoming == old(incoming)[|old(incoming)| - |incoming|..]
    {
      var i := 0;
      while i < |incoming| && !incoming[i].Byte?
        invariant 0 <= i <= |incoming| && incoming == old(incoming)
        invariant Received(incoming[i..]) == Received(incoming)
      {
        ReceivedHead(incoming, i);
        i := i + 1;
      }
      if i == |incoming| {
        incoming := [];
        return None;
      }
      ReceivedHead(incoming, i);
      r := Some(incoming[i].b);
      ReliableSuffix(incoming, i + 1);
      incoming := incoming[i + 1..];
    }

    /** `send(data)`: writes the bytes unchanged. On a failing write the
        handler builds `ProtocolError` with two arguments while its
        constructor takes one, so building it raises a TypeError, which
        escapes; nothing is written. */
    method Send(data: seq<byte>) returns (r: Result<()>)
      modifies this`written
      ensures r.Ok? <==> !writeFails
      ensures r.Ok? ==> written == old(written) + [data]
      ensures r.Err? ==> r.error == TypeError && written == old(written)
    {
      if writeFails {
        return Err(TypeError);
      }
      written := written + [data];
      r := Ok(());
    }

    /** `read_line()`: accumulates the characters read until the text holds
        CR LF, then returns it right-stripped. Reads stop right after the LF.
        None: the reads ran out before a CR LF arrived. */
    method ReadLine() returns (r: Option<string>)
      requires Valid()
      modifies this`incoming
      ensures Valid()
      ensures r.Some? <==> Protocols.ReadLine(Received(old(incoming))).Some?
      ensures r.Some? ==> r.value == Protocols.ReadLine(Received(old(incoming))).value.0
      ensures r.Some? ==> Received(incoming) == Received(old(incoming))[Protocols.ReadLine(Received(old(incoming))).value.1..]
      ensures |incoming| <= |old(incoming)| && incoming == old(incoming)[|old(incoming)| - |incoming|..]
    {
      var rs := incoming;
      var i, response := ScanLine(rs);
      if HasCrLf(response) {
        r := Some(RStrip(response));
        ReliableSuffix(rs, i);
        incoming := rs[i..];
      } else {
        incoming := [];
        r := None;
      }
    }
  }

  /** `send([DEBUG])` puts the single byte '#' on the wire. */
  method SendDebug() returns (wire: seq<seq<byte>>)
    ensures wire == [['#' as int]]
  {
    var port := new SerialProtocol(true, [], false);
    var r := port.Send([35]);
    wire := port.written;
  }

  /** `read_line()` over the reads T, E, S, T, CR, LF, S answers "TEST" and
      leaves the S unread. */
  method ReadTestLine() returns (line: Option<string>, left: seq<byte>)
    ensures line == Some("TEST") && left == [83]
  {
    var bs: seq<byte> := [84, 69, 83, 84, 13, 10, 83];
    ReceivedBytes(bs);
    ReadLineExample();
    var port := new SerialProtocol(true, Bytes(bs), false);
    line := port.ReadLine();
    left := Received(port.incoming);
  }
}
