/** The current host's ethernet transport (`EthernetProtocol`): a UDP socket
    with an open/closed flag. The socket is described by what it will do:
    whether the address can be reached, what each `recv(1)` will answer (a
    byte, nothing, or a `socket.error` such as a timeout), and whether sends
    fail. */
module EthernetTransport {
  import opened Base
  import opened Protocols

  /** How many reads come before the first failing one. */
  function FirstFailure(rs: seq<Read>): (k: nat)
    ensures k <= |rs| && (k < |rs| ==> rs[k].Failure?)
    ensures forall j :: 0 <= j < k ==> !rs[j].Failure?
  {
    if rs == [] || rs[0].Failure? then 0 else 1 + FirstFailure(rs[1..])
  }

  /** What `read_line()` gives over the reads `rs`. Its `recv(1)` is not
      guarded, so the first failing read escapes as a socket error unless
      the line completed before it; None: the reads ran out first. */
  function LineOutcome(rs: seq<Read>): (r: Option<Result<string>>)
  {
    var k := FirstFailure(rs);
    var line := Protocols.ReadLine(Received(rs[..k]));
    if line.Some? then Some(Ok(line.value.0))
    else if k < |rs| then Some(Err(SocketError))
    else None
  }

  /** The bytes `read_line` leaves unread when its line completes: those
      after the line up to the first failing read, then all the later
      ones. */
  function LineLeft(rs: seq<Read>): (left: seq<byte>)
    requires LineOutcome(rs).Some? && LineOutcome(rs).value.Ok?
  {
    var k := FirstFailure(rs);
    var before := Received(rs[..k]);
    before[Protocols.ReadLine(before).value.1..] + Received(rs[k..])
  }

  /** Over reads that never fail, the ethernet `read_line` answers what the
      serial one does. */
  lemma LineOutcomeReliable(rs: seq<Read>)
    requires Reliable(rs)
    ensures Protocols.ReadLine(Received(rs)).Some? ==> LineOutcome(rs) == Some(Ok(Protocols.ReadLine(Received(rs)).value.0))
    ensures Protocols.ReadLine(Received(rs)).None? ==> LineOutcome(rs).None?
  {
    var k := FirstFailure(rs);
    assert k == |rs|;
    assert rs[..k] == rs;
    var line := Protocols.ReadLine(Received(rs));
    if line.Some? {
      assert LineOutcome(rs) == Some(Ok(line.value.0));
    }
  }

  /** A line that completes before any read fails is returned whatever
      follows it; a failure before the line completes is raised. */
  lemma LineBeforeFailure(bs: seq<byte>, tail: seq<Read>)
    ensures Protocols.ReadLine(bs).Some? ==> LineOutcome(Bytes(bs) + [Failure] + tail) == Some(Ok(Protocols.ReadLine(bs).value.0))
    ensures Protocols.ReadLine(bs).None? ==> LineOutcome(Bytes(bs) + [Failure] + tail) == Some(Err(SocketError))
  {
    var rs := Bytes(bs) + [Failure] + tail;
    assert rs[|bs|].Failure?;
    assert forall j :: 0 <= j < |bs| ==> rs[j] == Byte(bs[j]);
    assert FirstFailure(rs) == |bs|;
    assert rs[..|bs|] == Bytes(bs);
    ReceivedBytes(bs);
  }

  class EthernetProtocol {
    const reachable: bool
    const sendFails: bool
    var isOpen: bool
    /** The answers the coming `recv(1)` calls give. */
    var incoming: seq<Read>
    /** Every byte string sent, in order. */
    var written: seq<seq<byte>>

    /** A new protocol is closed. */
    constructor (reachable: bool, incoming: seq<Read>, sendFails: bool)
      ensures !isOpen && written == []
      ensures this.incoming == incoming && this.reachable == reachable && this.sendFails == sendFails
    {
      this.reachable := reachable;
      this.sendFails := sendFails;
      isOpen := false;
      this.incoming := incoming;
      written := [];
    }

    /** `open()`: connects the socket; an unreachable address raises
        HermesError and leaves the flag as it was. */
    method Open() returns (r: Result<()>)
      modifies this`isOpen
      ensures reachable ==> r == Ok(()) && isOpen
      ensures !reachable ==> r == Err(HermesError) && isOpen == old(isOpen)
    {
      if !reachable {
        return Err(HermesError);
      }
      isOpen := true;
      r := Ok(());
    }

    /** `close()` always leaves the protocol closed. */
    method Close()
      modifies this`isOpen
      ensures !isOpen
    {
      isOpen := false;
    }

    /** `read_byte()`: failing and empty reads are both retried; the first
        byte received is returned. None: the reads ran out. */
    method ReadByte() returns (r: Option<byte>)
      modifies this`incoming
      ensures r.None? <==> Received(old(incoming)) == []
      ensures r.Some? ==> r.value == Received(old(incoming))[0] && Received(incoming) == Received(old(incoming))[1..]
    {
      var i := 0;
      while i < |incoming| && !incoming[i].Byte?
        invariant 0 <= i <= |incoming| && incoming == old(incoming)
        invariant Received(incoming[i..]) == Received(incoming)
      {
        ReceivedHead(incoming, i);
        i := i + 1;
      }
      if i == |incoming| {
        incoming := [];
        return None;
      }
      ReceivedHead(incoming, i);
      r := Some(incoming[i].b);
      incoming := incoming[i + 1..];
    }

    /** `send(data)`: a failing send is swallowed (the error is built, never
        raised). */
    method Send(data: seq<byte>)
      modifies this`written
      ensures !sendFails ==> written == old(written) + [data]
      ensures sendFails ==> written == old(written)
    {
      if !sendFails {
        written := written + [data];
      }
    }

    /** `read_line()`: accumulates characters until the text holds CR LF and
        returns it right-stripped; a failing read ends it with the error. */
    method ReadLine() returns (r: Option<Result<string>>)
      modifies this`incoming
      ensures r == LineOutcome(old(incoming))
      ensures r.Some? && r.value.Ok? ==> Received(incoming) == LineLeft(old(incoming))
      ensures r.Some? && r.value.Err? ==> incoming == old(incoming)[FirstFailure(old(incoming)) + 1..]
    {
      var rs := incoming;
      var i, failed, response := ScanUntilFailure(rs);
      if failed {
        incoming := rs[i + 1..];
        r := Some(Err(SocketError));
      } else if HasCrLf(response) {
        r := Some(Ok(RStrip(response)));
        incoming := rs[i..];
      } else {
        incoming := [];
        r := None;
      }
    }
  }

  /** The scan of `read_line()` over the reads `rs`: it stops after `i`
      reads at the first CR LF of the text `response`, or at a failing read,
      or when the reads run out. */
  method ScanUntilFailure(rs: seq<Read>) returns (i: nat, failed: bool, response: string)
    ensures i <= |rs|
    ensures failed ==> i == FirstFailure(rs) < |rs| && LineOutcome(rs) == Some(Err(SocketError))
    ensures !failed && HasCrLf(response) ==> LineOutcome(rs) == Some(Ok(RStrip(response))) && Received(rs[i..]) == LineLeft(rs)
    ensures !failed && !HasCrLf(response) ==> LineOutcome(rs).None?
  {
    response := [];
    ghost var pre: seq<byte> := [];
    ghost var shorter: seq<byte> := [];
    i := 0;
    failed := false;
    while i < |rs| && !HasCrLf(response)
      invariant 0 <= i <= |rs| && i <= FirstFailure(rs)
      invariant pre == Received(rs[..i]) && response == Chars(pre)
      invariant HasCrLf(response) ==> 1 <= i && shorter == Received(rs[..i - 1]) && !HasCrLf(Chars(shorter))
    {
      var got := rs[i];
      if got.Failure? {
        failed := true;
        break;
      }
      ReceivedStep(rs, i);
      CharsStep(pre, got);
      shorter := pre;
      pre := pre + Delivered(got);
      if got.Byte? {
        response := response + [got.b as char];
      }
      i := i + 1;
    }
    if failed {
      assert rs[..FirstFailure(rs)] == rs[..i];
      LineCutFails(rs, pre);
    } else if HasCrLf(response) {
      LineCutFound(rs, i, pre, shorter);
    } else {
      assert rs[..i] == rs;
      LineCutRunsOut(rs, pre);
    }
  }

  /** A CR LF found within the first `i` reads, none of them failing, ends
      the line `read_line` returns, and what follows it is left unread. */
  lemma LineCutFound(rs: seq<Read>, i: nat, pre: seq<byte>, shorter: seq<byte>)
    requires 1 <= i <= FirstFailure(rs) && pre == Received(rs[..i]) && shorter == Received(rs[..i - 1])
    requires HasCrLf(Chars(pre)) && !HasCrLf(Chars(shorter))
    ensures LineOutcome(rs) == Some(Ok(RStrip(Chars(pre))))
    ensures Received(rs[i..]) == LineLeft(rs)
  {
    var k := FirstFailure(rs);
    var cut, after := rs[..k], rs[k..];
    assert cut[..i] == rs[..i] && cut[..i - 1] == rs[..i - 1];
    LineScanned(cut, i, pre, shorter);
    ReceivedFrom(rs, i, k);
  }

  /** What the reads from `i` on deliver: those before `k`, then the rest. */
  lemma ReceivedFrom(rs: seq<Read>, i: nat, k: nat)
    requires i <= k <= |rs|
    ensures Received(rs[i..]) == Received(rs[..k][i..]) + Received(rs[k..])
  {
    assert rs[..k][i..] + rs[k..] == rs[i..];
    ReceivedConcat(rs[..k][i..], rs[k..]);
  }

  /** A read that fails before any CR LF arrived ends `read_line` with the
      error. */
  lemma LineCutFails(rs: seq<Read>, pre: seq<byte>)
    requires FirstFailure(rs) < |rs| && pre == Received(rs[..FirstFailure(rs)])
    requires !HasCrLf(Chars(pre))
    ensures LineOutcome(rs) == Some(Err(SocketError))
  {
    NoLineEnd(pre);
  }

  /** Reads that run out before any CR LF arrived leave `read_line`
      waiting. */
  lemma LineCutRunsOut(rs: seq<Read>, pre: seq<byte>)
    requires FirstFailure(rs) == |rs| && pre == Received(rs)
    requires !HasCrLf(Chars(pre))
    ensures LineOutcome(rs).None?
  {
    assert rs[..|rs|] == rs;
    NoLineEnd(pre);
  }

  /** A new protocol is closed; opening a reachable address opens it, and
      an unreachable one raises HermesError and leaves it closed. */
  method OpenCloseCycle(reachable: bool) returns (before: bool, answer: Result<()>, after: bool, closed: bool)
    ensures !before && !closed
    ensures reachable ==> answer == Ok(()) && after
    ensures !reachable ==> answer == Err(HermesError) && !after
  {
    var p := new EthernetProtocol(reachable, [], false);
    before := p.isOpen;
    answer := p.Open();
    after := p.isOpen;
    p.Close();
    closed := p.isOpen;
  }
}
