/** The current host's boards (`hermes/boards`): a board owns a protocol, its
    devices, a bounded command queue, an exit flag and a semaphore of send
    permits. Its two worker threads are modelled as atomic steps: one loop
    iteration each, taken in any interleaving the caller chooses. */
module Boards {
  import opened Base
  import opened Dictionary
  import OrderedTable
  import opened Protocols
  import opened SerialTransport
  import Struct
  import Devices
  import Commands

  /** The devices of a table, in iteration order. */
  function Values(t: OrderedTable.Table<int, Devices.Device>): (ds: seq<Devices.Device>)
    ensures |ds| == |t| && forall i :: 0 <= i < |t| ==> ds[i] == t[i].1
  {
    seq(|t|, i requires 0 <= i < |t| => t[i].1)
  }

  /** What the handshake sends for one device: PATCH, then the device's
      `as_playload()` as written, which frames `_encode_data()` and so
      carries no settings for the boolean devices. */
  function PatchFrame(d: Devices.Device): Result<seq<byte>>
  {
    var frame :- Devices.AsPlayload(d);
    Ok([PATCH.Value()] + frame)
  }

  /** The frames a loop writes when it stops at the first frame that cannot
      be built: those written, and the exception that ends it, if one does. */
  function UntilError(rs: seq<Result<seq<byte>>>): (w: (seq<seq<byte>>, Option<Exception>))
    ensures |w.0| <= |rs|
  {
    if rs == [] then ([], None)
    else
      match rs[0]
      case Err(e) => ([], Some(e))
      case Ok(f) =>
        var (p, e) := UntilError(rs[1..]);
        ([f] + p, e)
  }

  /** The frames written are exactly the frames built before the first
      failure, in order; the loop ends early exactly when a frame fails, and
      then with that frame's exception. */
  lemma {:induction false} UntilErrorIsPrefix(rs: seq<Result<seq<byte>>>)
    ensures forall i :: 0 <= i < |UntilError(rs).0| ==> rs[i] == Ok(UntilError(rs).0[i])
    ensures UntilError(rs).1.None? <==> |UntilError(rs).0| == |rs|
    ensures UntilError(rs).1.Some? ==> rs[|UntilError(rs).0|] == Err(UntilError(rs).1.value)
  {
    if rs != [] && rs[0].Ok? {
      UntilErrorIsPrefix(rs[1..]);
      var p := UntilError(rs[1..]).0;
      assert UntilError(rs).0 == [rs[0].value] + p;
      forall i | 1 <= i < |UntilError(rs).0|
        ensures rs[i] == Ok(UntilError(rs).0[i])
      {
        assert rs[1..][i - 1] == rs[i];
      }
    }
  }

  /** The patch frame of each device, in device order. */
  function PatchFrames(ds: seq<Devices.Device>): (rs: seq<Result<seq<byte>>>)
    ensures |rs| == |ds|
  {
    if ds == [] then [] else [PatchFrame(ds[0])] + PatchFrames(ds[1..])
  }

  /** The i-th patch frame is PATCH followed by the i-th device's
      `as_playload()`, and fails exactly when that does, with its exception. */
  lemma {:induction false} PatchFramesInOrder(ds: seq<Devices.Device>, i: int)
    requires 0 <= i < |ds|
    ensures PatchFrames(ds)[i].Ok? <==> Devices.AsPlayload(ds[i]).Ok?
    ensures PatchFrames(ds)[i].Ok? ==> PatchFrames(ds)[i].value == [PATCH.Value()] + Devices.AsPlayload(ds[i]).value
    ensures PatchFrames(ds)[i].Err? ==> PatchFrames(ds)[i].error == Devices.AsPlayload(ds[i]).error
    decreases i
  {
    if i > 0 {
      PatchFramesInOrder(ds[1..], i - 1);
    }
  }

  /** A new boolean output is patched as `[PATCH, 2, 41, id]`: neither its
      pin nor its default reaches the board, and the handshake goes on,
      where the settings frame would have failed on the default None. */
  lemma NewOutputPatchFrame(id: int, name: string)
    requires 0 <= id < 256
    ensures PatchFrame(Devices.NewBooleanOutput(id, name)) == Ok([20, 2, 41, id])
    ensures Devices.SettingsFrame(Devices.NewBooleanOutput(id, name)) == Err(TypeError)
  {
    var d := Devices.NewBooleanOutput(id, name);
    Devices.OutputFrameAsWritten(d);
    var frame: seq<byte> := [2, 41, id];
    assert [PATCH.Value()] + frame == [20, 2, 41, id];
  }

  /** What each write of a loop over `frames` comes to: a frame that cannot
      be built fails with its own exception; a frame that is built is
      written, unless writes to the port fail, where the serial `send`
      raises TypeError instead. */
  function Attempts(frames: seq<Result<seq<byte>>>, writeFails: bool): (rs: seq<Result<seq<byte>>>)
    ensures |rs| == |frames|
  {
    if !writeFails then frames
    else seq(|frames|, i requires 0 <= i < |frames| => if frames[i].Ok? then Err(TypeError) else frames[i])
  }

  /** A port whose writes fail receives nothing: the loop stops at its first
      frame, with TypeError when that frame is built and with the frame's
      own exception when it is not. */
  lemma FailingWritesWriteNothing(frames: seq<Result<seq<byte>>>)
    ensures UntilError(Attempts(frames, true)).0 == []
    ensures UntilError(Attempts(frames, true)).1.Some? <==> frames != []
    ensures frames != [] && frames[0].Ok? ==> UntilError(Attempts(frames, true)).1 == Some(TypeError)
    ensures frames != [] && frames[0].Err? ==> UntilError(Attempts(frames, true)).1 == Some(frames[0].error)
  {
    var rs := Attempts(frames, true);
    if frames != [] {
      assert rs[0].Err?;
    }
  }

  /** Everything the handshake writes before it waits, given the number of
      devices, their patch frames and whether writes to the port fail:
      `[HANDSHAKE, n]`, then the frames up to the first that cannot be built;
      and the exception that stops the writing, if one does. A failing write
      stops it at the header with TypeError. */
  function HandshakeWrites(n: int, frames: seq<Result<seq<byte>>>, writeFails: bool): (w: (seq<seq<byte>>, Option<Exception>))
    ensures !(0 <= n < 256) ==> w == ([], Some(ValueError))
    ensures 0 <= n < 256 && writeFails ==> w == ([], Some(TypeError))
    ensures 0 <= n < 256 && !writeFails ==> |w.0| >= 1 && w.0[0] == [HANDSHAKE.Value(), n] && w.0[1..] == UntilError(frames).0
    ensures 0 <= n < 256 && !writeFails ==> w.1 == UntilError(frames).1
  {
    assert [HANDSHAKE.Value(), n][1] == n;
    match ToBytes([HANDSHAKE.Value(), n])
    case Err(e) => ([], Some(e))
    case Ok(header) =>
      assert ([Ok(header)] + frames)[1..] == frames;
      FailingWritesWriteNothing([Ok(header)] + frames);
      UntilError(Attempts([Ok(header)] + frames, writeFails))
  }

  /** One step of the patch loop: a frame that can be built is written and
      the loop goes on with the rest. */
  lemma UntilErrorGoesOn(rs: seq<Result<seq<byte>>>, i: int)
    requires 0 <= i < |rs| && rs[i].Ok?
    ensures UntilError(rs[i..]) == ([rs[i].value] + UntilError(rs[i + 1..]).0, UntilError(rs[i + 1..]).1)
  {
    assert rs[i..][1..] == rs[i + 1..];
  }

  /** A frame that cannot be built ends the patch loop with its exception. */
  lemma UntilErrorStops(rs: seq<Result<seq<byte>>>, i: int)
    requires 0 <= i < |rs| && rs[i].Err?
    ensures UntilError(rs[i..]) == ([], Some(rs[i].error))
  {
    assert rs[i..][0] == rs[i];
  }

  /** With a header that fits in a byte, the handshake writes the header and
      then the patch frames. */
  lemma WritesPatched(n: int, frames: seq<Result<seq<byte>>>, header: seq<byte>)
    requires ToBytes([HANDSHAKE.Value(), n]) == Ok(header)
    ensures HandshakeWrites(n, frames, false) == ([header] + UntilError(frames).0, UntilError(frames).1)
  {
    assert ([Ok(header)] + frames)[1..] == frames;
  }

  /** The command factory's table: handlers by code. */
  type Handlers = OrderedTable.Table<MessageCode, Commands.Handler>

  /** What reading one command does with the bytes read: the code byte is
      turned into a `MessageCode`, then the handler for that code reads its
      payload. `rest` is what is left unread. */
  datatype Heard =
    | Handled(code: MessageCode, rest: seq<byte>)  // a handler read its payload
    | Unhandled(code: MessageCode, rest: seq<byte>) // no handler: get_by_code raises CommandError
    | Undecodable                                   // MessageCode(byte) raises ValueError
    | Starved                                       // the bytes ran out: the read keeps waiting

  function Hear(handlers: Handlers, bs: seq<byte>): (h: Heard)
    ensures bs == [] ==> h == Starved
    ensures h == Undecodable <==> bs != [] && FromByte(bs[0]).None?
    ensures h.Unhandled? <==> bs != [] && FromByte(bs[0]).Some? && OrderedTable.Get(handlers, FromByte(bs[0]).value).None?
    ensures h.Unhandled? ==> h.code == FromByte(bs[0]).value && h.rest == bs[1..]
    ensures h.Handled? ==> bs != [] && FromByte(bs[0]) == Some(h.code) && |h.rest| < |bs| && h.rest == bs[|bs| - |h.rest|..]
  {
    if bs == [] then Starved
    else
      match FromByte(bs[0])
      case None => Undecodable
      case Some(c) =>
        match OrderedTable.Get(handlers, c)
        case None => Unhandled(c, bs[1..])
        case Some(handler) =>
          match Receive(handler.receives, bs[1..])
          case None => Starved
          case Some(rest) => Handled(c, rest)
  }

  /** The handshake's wait for ACK over the bytes it reads. A byte that is no
      `MessageCode` raises ValueError, which the loop does not catch; the
      CommandError of a code without a handler is swallowed. The loop ends
      once the code read is ACK, and Ok holds the bytes left unread. When the
      bytes run out first, the read waits until the 5-second limit:
      FunctionTimedOut. */
  function AckScan(handlers: Handlers, bs: seq<byte>): (r: Result<seq<byte>>)
    ensures r.Ok? ==> |r.value| < |bs| && r.value == bs[|bs| - |r.value|..]
    ensures r.Err? ==> r.error == FunctionTimedOut || r.error == ValueError
    decreases |bs|
  {
    match Hear(handlers, bs)
    case Starved => Err(FunctionTimedOut)
    case Undecodable => Err(ValueError)
    case Unhandled(c, rest) => if c == ACK then Ok(rest) else AckScan(handlers, rest)
    case Handled(c, rest) => if c == ACK then Ok(rest) else AckScan(handlers, rest)
  }

  /** The wait only ends after reading the ACK byte: some byte before the
      unread rest is 11. */
  lemma {:induction false} AckScanReadsAck(handlers: Handlers, bs: seq<byte>)
    requires AckScan(handlers, bs).Ok?
    ensures exists i :: 0 <= i < |bs| - |AckScan(handlers, bs).value| && bs[i] == ACK.Value()
    decreases |bs|
  {
    var h := Hear(handlers, bs);
    if h.code == ACK {
      assert bs[0] == ACK.Value();
    } else {
      var rest := h.rest;
      AckScanReadsAck(handlers, rest);
      var i :| 0 <= i < |rest| - |AckScan(handlers, rest).value| && rest[i] == ACK.Value();
      assert bs[|bs| - |rest| + i] == ACK.Value();
    }
  }

  /** A code without a handler, other than ACK, is skipped. */
  lemma AckScanSkipsUnhandled(handlers: Handlers, b: byte, bs: seq<byte>)
    requires FromByte(b).Some? && FromByte(b).value != ACK
    requires OrderedTable.Get(handlers, FromByte(b).value).None?
    ensures AckScan(handlers, [b] + bs) == AckScan(handlers, bs)
  {
    assert ([b] + bs)[1..] == bs;
  }

  /** An ACK byte ends the wait at once when the ACK handler reads no
      payload, or when no handler is registered for ACK at all. */
  lemma AckScanStopsAtAck(handlers: Handlers, bs: seq<byte>)
    requires OrderedTable.Get(handlers, ACK).Some? ==> OrderedTable.Get(handlers, ACK).value.receives == NoPayload
    ensures AckScan(handlers, [ACK.Value()] + bs) == Ok(bs)
  {
    var xs := [ACK.Value()] + bs;
    assert xs[0] == ACK.Value() && xs[1..] == bs;
    assert FromByte(xs[0]) == Some(ACK);
    if OrderedTable.Get(handlers, ACK).None? {
      assert Hear(handlers, xs) == Unhandled(ACK, bs);
    } else {
      assert Receive(NoPayload, bs) == Some(bs);
      assert Hear(handlers, xs) == Handled(ACK, bs);
    }
  }

  /** The handshake as a whole: the writes stop it first, then the wait. */
  function HandshakeResult(n: int, frames: seq<Result<seq<byte>>>, writeFails: bool, handlers: Handlers, bs: seq<byte>): (r: Result<seq<byte>>)
    ensures HandshakeWrites(n, frames, writeFails).1.Some? ==> r == Err(HandshakeWrites(n, frames, writeFails).1.value)
    ensures HandshakeWrites(n, frames, writeFails).1.None? ==> r == AckScan(handlers, bs)
  {
    match HandshakeWrites(n, frames, writeFails).1
    case Some(e) => Err(e)
    case None => AckScan(handlers, bs)
  }

  /** A step's result together with the bytes it left unread. */
  function WithRest(r: Result<()>, rest: seq<byte>): Result<seq<byte>>
  {
    if r.Ok? then Ok(rest) else Err(r.error)
  }

  /** What `open()` answers: TypeError when the port cannot be opened;
      False when the handshake times out; the handshake's own exception
      otherwise; RuntimeError when the threads were started before; True
      when the board gets connected. */
  function OpenResult<T>(portAvailable: bool, handshake: Result<T>, started: bool): Result<bool>
  {
    if !portAvailable then Err(TypeError)
    else if handshake == Err(FunctionTimedOut) then Ok(false)
    else if handshake.Err? then Err(handshake.error)
    else if started then Err(RuntimeError)
    else Ok(true)
  }

  /** Where the sender thread stands: not started, at the top of its loop,
      blocked in `acquire`, finished, or killed by an exception of `send`. */
  datatype SenderAt = SenderIdle | Running | Waiting | SenderDone | SenderKilled(error: Exception)

  /** Where the listener thread stands: not started, at the top of its loop,
      blocked in a read that never completes, finished, or killed by an
      exception. */
  datatype ListenerAt = ListenerIdle | Listening | Blocked | ListenerDone | Killed(error: Exception)

  /** The bookkeeping behind the flow-control invariant: every frame the
      queue accepted, every frame the sender wrote, the frame whose write
      killed the sender, the ACKs the listener processed, the permits `close`
      released, and the permits a sender took only to find the exit flag
      set. */
  datatype Ledger = Ledger(accepted: seq<seq<byte>>, sent: seq<seq<byte>>, dropped: seq<seq<byte>>,
                           acks: nat, releases: nat, abandoned: nat)

  class Board {
    const protocol: SerialProtocol
    const commands: Commands.CommandFactory
    const actions: OrderedTable.Table<int, Devices.Device>
    const inputs: OrderedTable.Table<int, Devices.Device>
    /** The devices the handshake describes: `actions.copy()` updated with
        `inputs`. Neither table changes after construction, so the list is
        the same at every handshake. */
    const devices: seq<Devices.Device>
    /** The patch frame of each device, in device order. */
    const patches: seq<Result<seq<byte>>>
    var connected: bool
    /** `_command_queue`, a `ClearableQueue(4)`. */
    const queue: Struct.ClearableQueue<seq<byte>>
    /** `_exit_event`. */
    var exiting: bool
    /** The value of `_n_received_semaphore`. */
    var permits: int
    var sender: SenderAt
    var listener: ListenerAt
    ghost var ledger: Ledger

    /** Frames leave the queue in the order they entered it, and the permits
        left plus the frames taken off the queue (and permits abandoned) are
        the 5 initial permits plus those released by ACKs and by `close`.
        Only a failed write drops a frame, and it kills the sender. */
    ghost predicate Valid()
      reads this, protocol, queue
    {
      protocol.Valid() && commands.Valid() && queue.Valid() && queue.maxsize == 4
      && ledger.accepted == ledger.sent + ledger.dropped + queue.items
      && (ledger.dropped != [] ==> sender.SenderKilled?)
      && permits >= 0
      && permits + |ledger.sent| + |ledger.dropped| + ledger.abandoned == 5 + ledger.acks + ledger.releases
    }

    constructor (protocol: SerialProtocol, commands: Commands.CommandFactory,
                 actions: OrderedTable.Table<int, Devices.Device>, inputs: OrderedTable.Table<int, Devices.Device>)
      requires protocol.Valid() && commands.Valid()
      // `actions` and `inputs` are dicts, so each has distinct keys.
      requires OrderedTable.KeysDistinct(actions) && OrderedTable.KeysDistinct(inputs)
      ensures Valid() && fresh(queue)
      ensures this.protocol == protocol && this.commands == commands && this.actions == actions && this.inputs == inputs
      ensures devices == Values(OrderedTable.Merge(actions, inputs)) && patches == PatchFrames(devices)
      ensures !connected && !exiting && permits == 5 && queue.items == []
      ensures sender == SenderIdle && listener == ListenerIdle
      ensures ledger == Ledger([], [], [], 0, 0, 0)
    {
      this.protocol := protocol;
      this.commands := commands;
      this.actions := actions;
      this.inputs := inputs;
      var ds := Values(OrderedTable.Merge(actions, inputs));
      devices := ds;
      patches := PatchFrames(ds);
      connected := false;
      queue := new Struct.ClearableQueue(4);
      exiting := false;
      permits := 5;
      sender := SenderIdle;
      listener := ListenerIdle;
      ledger := Ledger([], [], [], 0, 0, 0);
    }

    /** Frames written minus ACKs processed never exceeds 5 plus the permits
        `close` released: before any `close`, at most 5 frames are ever
        waiting for their ACK. */
    lemma InFlightBound()
      requires Valid()
      ensures |ledger.sent| - ledger.acks <= 5 + ledger.releases
      ensures ledger.releases == 0 ==> |ledger.sent| - ledger.acks <= 5
    {
    }

    /** Reading one command, as the handshake and the listener both do:
        `MessageCode(read_byte())`, `get_by_code`, then the handler's
        `receive` (a line for DEBUG, nothing for ACK); `process` only logs. */
    method ReadCommand() returns (heard: Heard)
      requires protocol.Valid() && commands.Valid()
      modifies protocol`incoming
      ensures protocol.Valid()
      ensures heard == Hear(commands.registry.table, Received(old(protocol.incoming)))
      ensures heard.Handled? || heard.Unhandled? ==> Received(protocol.incoming) == heard.rest
    {
      var b := protocol.ReadByte();
      if b.None? {
        return Starved;
      }
      var c := FromByte(b.value);
      if c.None? {
        return Undecodable;
      }
      var handler := commands.GetByCode(c.value);
      if handler.Err? {
        return Unhandled(c.value, Received(protocol.incoming));
      }
      if handler.value.receives == LinePayload {
        var line := protocol.ReadLine();
        if line.None? {
          return Starved;
        }
      }
      heard := Handled(c.value, Received(protocol.incoming));
    }

    /** The first half of `handshake()`: `[HANDSHAKE, n]` and one patch frame
        per device, written straight to the protocol, never through the
        queue. */
    method WritePatches() returns (e: Option<Exception>)
      modifies protocol`written
      ensures protocol.written == old(protocol.written) + HandshakeWrites(|devices|, patches, protocol.writeFails).0
      ensures e == HandshakeWrites(|devices|, patches, protocol.writeFails).1
    {
      var header := ToBytes([HANDSHAKE.Value(), |devices|]);
      if header.Err? {
        return Some(header.error);
      }
      e := WriteFrames([header] + patches);
    }

    /** The patch loop: writes each frame in turn and stops at the first one
        that cannot be built, giving its exception, or at the first write
        that fails, giving the TypeError it raises. */
    method WriteFrames(frames: seq<Result<seq<byte>>>) returns (e: Option<Exception>)
      modifies protocol`written
      ensures e == UntilError(Attempts(frames, protocol.writeFails)).1
      ensures protocol.written == old(protocol.written) + UntilError(Attempts(frames, protocol.writeFails)).0
    {
      ghost var rs := Attempts(frames, protocol.writeFails);
      var i := 0;
      ghost var w: seq<seq<byte>> := [];
      assert rs[i..] == rs;
      while i < |frames|
        invariant 0 <= i <= |frames|
        invariant UntilError(rs).0 == w + UntilError(rs[i..]).0
        invariant UntilError(rs).1 == UntilError(rs[i..]).1
        invariant protocol.written == old(protocol.written) + w
      {
        if frames[i].Err? {
          assert rs[i] == frames[i];
          UntilErrorStops(rs, i);
          return Some(frames[i].error);
        }
        var f := frames[i].value;
        var sent := protocol.Send(f);
        if sent.Err? {
          assert rs[i] == Err(TypeError);
          UntilErrorStops(rs, i);
          return Some(sent.error);
        }
        assert rs[i] == Ok(f);
        UntilErrorGoesOn(rs, i);
        assert w + UntilError(rs[i..]).0 == (w + [f]) + UntilError(rs[i + 1..]).0;
        w := w + [f];
        i := i + 1;
      }
      assert rs[i..] == [];
      e := None;
    }

    /** The second half of `handshake()`: reads commands until one whose code
        is ACK. */
    method AwaitAck() returns (r: Result<()>)
      requires protocol.Valid() && commands.Valid()
      modifies protocol`incoming
      ensures protocol.Valid()
      ensures WithRest(r, Received(protocol.incoming)) == AckScan(commands.registry.table, Received(old(protocol.incoming)))
    {
      ghost var input := Received(protocol.incoming);
      var done := false;
      while !done
        invariant protocol.Valid()
        invariant !done ==> AckScan(commands.registry.table, Received(protocol.incoming)) == AckScan(commands.registry.table, input)
        invariant done ==> AckScan(commands.registry.table, input) == Ok(Received(protocol.incoming))
        decreases |Received(protocol.incoming)|, if done then 0 else 1
      {
        var heard := ReadCommand();
        match heard
        case Starved =>
          return Err(FunctionTimedOut);
        case Undecodable =>
          return Err(ValueError);
        case Unhandled(c, _) =>
          done := c == ACK;
        case Handled(c, _) =>
          done := c == ACK;
      }
      r := Ok(());
    }

    /** `handshake()`: the writes, then the wait for ACK. */
    method Handshake() returns (r: Result<()>)
      requires protocol.Valid() && commands.Valid()
      modifies protocol`incoming, protocol`written
      ensures protocol.Valid()
      ensures protocol.written == old(protocol.written) + HandshakeWrites(|devices|, patches, protocol.writeFails).0
      ensures WithRest(r, Received(protocol.incoming)) == HandshakeResult(|devices|, patches, protocol.writeFails, commands.registry.table, Received(old(protocol.incoming)))
    {
      var e := WritePatches();
      if e.Some? {
        return Err(e.value);
      }
      r := AwaitAck();
    }

    /** `close()`: closes the protocol, sets the exit flag, releases one
        permit and reports itself disconnected, every time it is called.
        Joining the threads is left to their own steps. */
    method Close() returns (r: bool)
      requires Valid()
      modifies this, protocol`isOpen
      ensures Valid() && r
      ensures !connected && exiting && !protocol.isOpen
      ensures permits == old(permits) + 1 && ledger == old(ledger).(releases := old(ledger).releases + 1)
      ensures sender == old(sender) && listener == old(listener)
    {
      protocol.Close();
      exiting := true;
      permits := permits + 1;
      ledger := ledger.(releases := ledger.releases + 1);
      connected := false;
      r := !connected;
    }

    /** `open()`. A port that cannot be opened makes the serial protocol
        raise TypeError, which `open` does not catch. A handshake that times
        out closes the board and gives False; any other exception from the
        handshake escapes, among them the TypeError of a failing write. Then both threads start, which raises RuntimeError
        when they were started before, and the board is connected. */
    method Open() returns (r: Result<bool>)
      requires Valid()
      modifies this, protocol`isOpen, protocol`incoming, protocol`written
      ensures Valid()
      ensures r == OpenResult(protocol.portAvailable, HandshakeResult(|devices|, patches, protocol.writeFails, commands.registry.table, Received(old(protocol.incoming))), old(sender) != SenderIdle)
      ensures r == Ok(true) ==> Received(protocol.incoming) == HandshakeResult(|devices|, patches, protocol.writeFails, commands.registry.table, Received(old(protocol.incoming))).value
      ensures protocol.written == old(protocol.written) + (if protocol.portAvailable then HandshakeWrites(|devices|, patches, protocol.writeFails).0 else [])
      ensures r == Ok(true) ==> connected && sender == Running && listener == Listening && permits == old(permits) && exiting == old(exiting) && ledger == old(ledger)
      ensures r == Ok(false) ==> !connected && exiting && !protocol.isOpen && permits == old(permits) + 1 && ledger == old(ledger).(releases := old(ledger).releases + 1)
      ensures r.Err? ==> connected == old(connected) && exiting == old(exiting) && permits == old(permits) && ledger == old(ledger) && sender == old(sender)
    {
      var attempt := protocol.Open();
      if attempt.Err? {
        return Err(attempt.error);
      }
      var hs := Handshake();
      r := AfterHandshake(hs);
    }

    /** The rest of `open()` once the handshake has ended: a timeout closes
        the board, another exception escapes, success starts the threads. */
    method AfterHandshake(hs: Result<()>) returns (r: Result<bool>)
      requires Valid()
      modifies this, protocol`isOpen
      ensures Valid()
      ensures r == OpenResult(true, hs, old(sender) != SenderIdle)
      ensures r == Ok(true) ==> connected && sender == Running && listener == Listening && permits == old(permits) && exiting == old(exiting) && ledger == old(ledger)
      ensures r == Ok(false) ==> !connected && exiting && !protocol.isOpen && permits == old(permits) + 1 && ledger == old(ledger).(releases := old(ledger).releases + 1)
      ensures r.Err? ==> connected == old(connected) && exiting == old(exiting) && permits == old(permits) && ledger == old(ledger) && sender == old(sender)
    {
      if hs.Err? {
        if hs.error == FunctionTimedOut {
          var closed := Close();
          return Ok(!closed);
        }
        return Err(hs.error);
      }
      if sender != SenderIdle {
        return Err(RuntimeError);
      }
      sender := Running;
      listener := Listening;
      connected := true;
      r := Ok(connected);
    }

    /** `send(data)`: puts the frame at the tail of the queue. False: the
        queue is full and the call is still waiting. */
    method Send(data: seq<byte>) returns (queued: bool)
      requires Valid()
      modifies this, queue
      ensures Valid()
      ensures queued == !old(queue.Full())
      ensures queued ==> queue.items == old(queue.items) + [data] && ledger == old(ledger).(accepted := old(ledger).accepted + [data])
      ensures !queued ==> queue.items == old(queue.items) && ledger == old(ledger)
      ensures connected == old(connected) && exiting == old(exiting) && permits == old(permits)
      ensures sender == old(sender) && listener == old(listener)
    {
      queued := queue.Put(data);
      if queued {
        ledger := ledger.(accepted := ledger.accepted + [data]);
      }
    }

    /** One iteration of `SerialSenderThread.run`: stop when the exit flag is
        set; wait for a permit; stop, keeping the permit, when the flag was set
        meanwhile; give the permit back when the queue is empty; otherwise
        write the frame at the head of the queue. A failing write raises
        TypeError, which nothing catches: the thread dies with the permit and
        the frame it took. */
    method SenderStep()
      requires Valid() && (sender == Running || sender == Waiting)
      modifies this, protocol`written, queue
      ensures Valid()
      ensures old(sender) == Running && old(exiting) ==> sender == SenderDone && permits == old(permits)
      ensures !(old(sender) == Running && old(exiting)) && old(permits) == 0 ==>
        sender == Waiting && permits == 0 && queue.items == old(queue.items)
      ensures old(sender) == Waiting && old(exiting) && old(permits) > 0 ==>
        sender == SenderDone && permits == old(permits) - 1
      ensures !old(exiting) && old(permits) > 0 && old(queue.items) == [] ==>
        sender == Running && permits == old(permits) && queue.items == []
      ensures !old(exiting) && old(permits) > 0 && old(queue.items) != [] ==>
        permits == old(permits) - 1 && queue.items == old(queue.items)[1..]
      ensures !old(exiting) && old(permits) > 0 && old(queue.items) != [] && !protocol.writeFails ==>
        && sender == Running && ledger.sent == old(ledger.sent) + [old(queue.items)[0]] && ledger.dropped == old(ledger.dropped)
        && protocol.written == old(protocol.written) + [old(queue.items)[0]]
      ensures !old(exiting) && old(permits) > 0 && old(queue.items) != [] && protocol.writeFails ==>
        && sender == SenderKilled(TypeError) && ledger.sent == old(ledger.sent)
        && ledger.dropped == old(ledger.dropped) + [old(queue.items)[0]]
      ensures ledger.sent == old(ledger.sent) ==> protocol.written == old(protocol.written)
      ensures ledger.dropped == old(ledger.dropped) || sender == SenderKilled(TypeError)
      ensures ledger.accepted == old(ledger.accepted) && ledger.acks == old(ledger.acks) && ledger.releases == old(ledger.releases)
      ensures connected == old(connected) && exiting == old(exiting) && listener == old(listener)
    {
      if sender == Running && exiting {
        sender := SenderDone;
        return;
      }
      if permits == 0 {
        sender := Waiting;
        return;
      }
      permits := permits - 1;
      if exiting {
        ledger := ledger.(abandoned := ledger.abandoned + 1);
        sender := SenderDone;
        return;
      }
      var data := queue.GetNowait();
      if data.None? {
        permits := permits + 1;
        sender := Running;
        return;
      }
      var sent := protocol.Send(data.value);
      if sent.Err? {
        ledger := ledger.(dropped := ledger.dropped + [data.value]);
        sender := SenderKilled(sent.error);
        return;
      }
      ledger := ledger.(sent := ledger.sent + [data.value]);
      sender := Running;
    }

    /** One iteration of `SerialListenerThread.run`: stop when the exit flag
        is set; otherwise read one command and release one permit exactly
        when its code is ACK. Neither an undecodable byte (ValueError) nor a
        code without a handler (CommandError) is caught: the thread dies. */
    method ListenerStep()
      requires Valid() && listener == Listening
      modifies this, protocol`incoming
      ensures Valid()
      ensures old(exiting) ==> listener == ListenerDone && protocol.incoming == old(protocol.incoming)
      ensures !old(exiting) ==>
        var heard := Hear(commands.registry.table, Received(old(protocol.incoming)));
        && (heard.Starved? ==> listener == Blocked)
        && (heard.Undecodable? ==> listener == Killed(ValueError))
        && (heard.Unhandled? ==> listener == Killed(CommandError))
        && (heard.Handled? ==> listener == Listening && Received(protocol.incoming) == heard.rest)
      ensures if !old(exiting) && Hear(commands.registry.table, Received(old(protocol.incoming))) == Handled(ACK, Received(protocol.incoming))
        then permits == old(permits) + 1 && ledger == old(ledger).(acks := old(ledger).acks + 1)
        else permits == old(permits) && ledger == old(ledger)
      ensures connected == old(connected) && exiting == old(exiting) && sender == old(sender)
    {
      if exiting {
        listener := ListenerDone;
        return;
      }
      var heard := ReadCommand();
      Process(heard);
    }

    /** What the listener does with a command it has read: ACK releases a
        permit, any other handled command is only logged; an undecodable
        byte or a code without a handler ends the thread, and starved reads
        keep it blocked. */
    method Process(heard: Heard)
      requires Valid()
      modifies this
      ensures Valid()
      ensures heard.Starved? ==> listener == Blocked
      ensures heard.Undecodable? ==> listener == Killed(ValueError)
      ensures heard.Unhandled? ==> listener == Killed(CommandError)
      ensures heard.Handled? ==> listener == old(listener)
      ensures if heard.Handled? && heard.code == ACK
        then permits == old(permits) + 1 && ledger == old(ledger).(acks := old(ledger).acks + 1)
        else permits == old(permits) && ledger == old(ledger)
      ensures connected == old(connected) && exiting == old(exiting) && sender == old(sender)
    {
      match heard
      case Starved =>
        listener := Blocked;
      case Undecodable =>
        listener := Killed(ValueError);
      case Unhandled(_, _) =>
        listener := Killed(CommandError);
      case Handled(c, _) =>
        if c == ACK {
          permits := permits + 1;
          ledger := ledger.(acks := ledger.acks + 1);
        }
    }
  }

  /** `AbstractDevice.set_value`: a board that is not connected is opened
      first, and DeviceError is raised when that gives False (an exception
      of `open` escapes); then the frame `[MUTATION, id] + value` is put on
      the board's queue. Ok(false): the queue is full and the call is still
      waiting. The device's own state is not updated. */
  method SetValue(d: Devices.Device, board: Board, value: int) returns (r: Result<bool>)
    requires board.Valid()
    modifies board, board.protocol`isOpen, board.protocol`incoming, board.protocol`written, board.queue
    ensures board.Valid()
    ensures old(board.connected) ==> board.protocol.written == old(board.protocol.written) && board.protocol.incoming == old(board.protocol.incoming)
    ensures var answer := if old(board.connected) then Ok(true)
                          else OpenResult(board.protocol.portAvailable, HandshakeResult(|board.devices|, board.patches,
                                            board.protocol.writeFails, board.commands.registry.table, Received(old(board.protocol.incoming))), old(board.sender) != SenderIdle);
      && (answer.Err? ==> r == Err(answer.error))
      && (answer == Ok(false) ==> r == Err(DeviceError))
      && (answer == Ok(true) && Devices.MutationFrame(d, value).Err? ==> r == Err(Devices.MutationFrame(d, value).error))
      && (answer == Ok(true) && Devices.MutationFrame(d, value).Ok? ==> r.Ok?)
    ensures r.Ok? ==> board.connected
    ensures r == Ok(true) ==> board.queue.items == old(board.queue.items) + [Devices.MutationFrame(d, value).value]
    ensures r != Ok(true) ==> board.queue.items == old(board.queue.items)
  {
    if !board.connected {
      var answer := board.Open();
      if answer.Err? {
        return Err(answer.error);
      }
      if !answer.value {
        return Err(DeviceError);
      }
    }
    var frame := Devices.MutationFrame(d, value);
    if frame.Err? {
      return Err(frame.error);
    }
    var queued := board.Send(frame.value);
    r := Ok(queued);
  }

  /** With no devices, the handshake writes `[HANDSHAKE, 0]` alone, and a
      single ACK byte ends it when the ACK handler reads no payload. */
  lemma HandshakeOfNoDevices(handlers: Handlers)
    requires OrderedTable.Get(handlers, ACK) == Some(Commands.Ack)
    ensures HandshakeWrites(0, [], false) == ([[12, 0]], None)
    ensures HandshakeResult(0, [], false, handlers, [ACK.Value()]) == Ok([])
  {
    var header: seq<byte> := [HANDSHAKE.Value(), 0];
    assert header[1] == 0;
    assert ToBytes(header) == Ok(header);
    WritesPatched(0, [], header);
    assert UntilError([]) == ([], None);
    assert [header] + [] == [[12, 0]];
    AckScanStopsAtAck(handlers, []);
    assert [ACK.Value()] + [] == [ACK.Value()];
  }

  /** A board with no devices whose port answers ACK: `open()` writes
      `[HANDSHAKE, 0]` and connects it. */
  method HandshakeWithAck() returns (answer: Result<bool>, wire: seq<seq<byte>>, connected: bool)
    ensures answer == Ok(true) && connected && wire == [[12, 0]]
  {
    var port := new SerialProtocol(true, Bytes([ACK.Value()]), false);
    ReceivedBytes([ACK.Value()]);
    var commands := new Commands.CommandFactory([Commands.Debug, Commands.Ack]);
    assert commands.registry.items[1] == Commands.Ack;
    ghost var ack := commands.GetByCode(ACK);
    HandshakeOfNoDevices(commands.registry.table);
    var board := new Board(port, commands, [], []);
    assert board.devices == [] && board.patches == [];
    answer := board.Open();
    wire := port.written;
    connected := board.connected;
  }

  /** A board whose port stays silent: the handshake times out, `open()`
      closes the board and gives False. */
  method SilentBoard() returns (answer: Result<bool>, connected: bool, isOpen: bool)
    ensures answer == Ok(false) && !connected && !isOpen
  {
    var port := new SerialProtocol(true, [], false);
    var commands := new Commands.CommandFactory([Commands.Debug, Commands.Ack]);
    var board := new Board(port, commands, [], []);
    assert board.devices == [] && board.patches == [];
    answer := board.Open();
    connected := board.connected;
    isOpen := port.isOpen;
  }

  /** A board whose port opens but whose writes fail: the header write
      raises TypeError, which `open()` lets escape; nothing reaches the port
      and the board is not connected. */
  method DeafBoard() returns (answer: Result<bool>, wire: seq<seq<byte>>, connected: bool)
    ensures answer == Err(TypeError) && !connected && wire == []
  {
    var port := new SerialProtocol(true, Bytes([ACK.Value()]), true);
    var commands := new Commands.CommandFactory([Commands.Debug, Commands.Ack]);
    var board := new Board(port, commands, [], []);
    assert board.devices == [] && board.patches == [];
    answer := board.Open();
    wire := port.written;
    connected := board.connected;
  }
}
