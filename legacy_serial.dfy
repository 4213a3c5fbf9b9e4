/** The older host's serial transport (`backend/hermes/core/protocols/usbserial.py`):
    `SerialProtocol` with its command-level reads and writes, and the
    `CommandListenerThread` that dispatches what the board sends and
    releases a permit for every ACK. */
module LegacySerial {
  import opened Base
  import opened Protocols
  import opened LegacyCommands
  import OrderedTable

  class SerialProtocol {
    const portAvailable: bool
    /** Whether writes to the port fail. */
    const writeFails: bool
    var isOpen: bool
    /** The answers the coming `read(1)` calls give: a byte or nothing. */
    var incoming: seq<Read>
    /** Every byte string written to the port, in order. */
    var written: seq<seq<byte>>

    ghost predicate Valid()
      reads this`incoming
    {
      Reliable(incoming)
    }

    constructor (portAvailable: bool, incoming: seq<Read>, writeFails: bool)
      requires Reliable(incoming)
      ensures Valid() && !isOpen && written == []
      ensures this.incoming == incoming && this.portAvailable == portAvailable && this.writeFails == writeFails
    {
      this.portAvailable := portAvailable;
      this.writeFails := writeFails;
      isOpen := false;
      this.incoming := incoming;
      written := [];
    }

    /** `open()`: a port that cannot be opened raises ProtocolException. */
    method Open() returns (r: Result<()>)
      modifies this`isOpen
      ensures portAvailable ==> r == Ok(()) && isOpen
      ensures !portAvailable ==> r == Err(ProtocolException) && isOpen == old(isOpen)
    {
      if !portAvailable {
        return Err(ProtocolException);
      }
      isOpen := true;
      r := Ok(());
    }

    method Close()
      modifies this`isOpen
      ensures !isOpen
    {
      isOpen := false;
    }

    /** `read_command()`: skips empty reads and turns the first byte read
        into a `CommandCode`; a byte that is none raises ValueError. None: the
        reads ran out while it was still waiting. */
    method ReadCommand() returns (r: Option<Result<CommandCode>>)
      requires Valid()
      modifies this`incoming
      ensures Valid()
      ensures r.None? <==> Received(old(incoming)) == []
      ensures r.Some? ==> Received(incoming) == Received(old(incoming))[1..]
      ensures r.Some? ==> r.value == Decode(Received(old(incoming))[0])
    {
      var i := 0;
      while i < |incoming| && !incoming[i].Byte?
        invariant 0 <= i <= |incoming| && incoming == old(incoming)
        invariant Received(incoming[i..]) == Received(incoming)
      {
        ReceivedHead(incoming, i);
        i := i + 1;
      }
      if i == |incoming| {
        incoming := [];
        return None;
      }
      ReceivedHead(incoming, i);
      var b := incoming[i].b;
      ReliableSuffix(incoming, i + 1);
      incoming := incoming[i + 1..];
      r := Some(Decode(b));
    }

    /** `send_command(code, *args)`: writes `[code] + args` in one write;
        an argument outside 0..255 raises ValueError and nothing is
        written; a write that fails raises, uncaught, and nothing is
        written. */
    method SendCommand(code: CommandCode, args: seq<int>) returns (r: Result<()>)
      modifies this`written
      ensures r.Ok? <==> !writeFails && forall i :: 0 <= i < |args| ==> 0 <= args[i] < 256
      ensures r.Ok? ==> written == old(written) + [[code.Value()] + args]
      ensures r.Err? ==> written == old(written)
      ensures !(forall i :: 0 <= i < |args| ==> 0 <= args[i] < 256) ==> r == Err(ValueError)
      ensures writeFails && (forall i :: 0 <= i < |args| ==> 0 <= args[i] < 256) ==> r == Err(SerialException)
    {
      var data := ToBytes([code.Value()] + args);
      if data.Err? {
        assert !(forall i :: 0 <= i < |[code.Value()] + args| ==> 0 <= ([code.Value()] + args)[i] < 256);
        return Err(data.error);
      }
      assert forall i :: 0 <= i < |args| ==> args[i] == ([code.Value()] + args)[i + 1];
      if writeFails {
        return Err(SerialException);
      }
      written := written + [data.value];
      r := Ok(());
    }

    /** `read_line()`: the right-stripped text up to the first CR LF; reads
        stop right after the LF. None: the line never completes. */
    method ReadLine() returns (r: Option<string>)
      requires Valid()
      modifies this`incoming
      ensures Valid()
      ensures r.Some? <==> Protocols.ReadLine(Received(old(incoming))).Some?
      ensures r.Some? ==> r.value == Protocols.ReadLine(Received(old(incoming))).value.0
      ensures r.Some? ==> Received(incoming) == Received(old(incoming))[Protocols.ReadLine(Received(old(incoming))).value.1..]
    {
      var rs := incoming;
      var i, response := ScanLine(rs);
      if HasCrLf(response) {
        r := Some(RStrip(response));
        ReliableSuffix(rs, i);
        incoming := rs[i..];
      } else {
        incoming := [];
        r := None;
      }
    }
  }

  /** `CommandCode(b)`: the member with that value, ValueError otherwise. */
  function Decode(b: byte): (r: Result<CommandCode>)
    ensures r.Ok? <==> FromByte(b).Some?
    ensures r.Ok? ==> r.value.Value() == b
    ensures r.Err? ==> r.error == ValueError
  {
    match FromByte(b)
    case Some(c) => Ok(c)
    case None => Err(ValueError)
  }

  /** The commands registered in a factory, keyed by code. */
  type Commands = OrderedTable.Table<CommandCode, Command>

  /** What one iteration of the listener makes of the bytes it reads. */
  datatype Heard =
    | Handled(code: CommandCode, rest: seq<byte>)  // the command read its payload
    | Unhandled                                    // get_by_code raises CommandException
    | Undecodable                                  // CommandCode(byte) raises ValueError
    | Starved                                      // the bytes ran out: the read keeps waiting

  /** One command read from `bs`: its code byte, the lookup of the code, and
      the payload the command's `receive` reads. */
  function Hear(commands: Commands, bs: seq<byte>): (h: Heard)
    ensures bs == [] ==> h == Starved
    ensures h == Undecodable <==> bs != [] && FromByte(bs[0]).None?
    ensures h == Unhandled <==> bs != [] && FromByte(bs[0]).Some? && OrderedTable.Get(commands, FromByte(bs[0]).value).None?
    ensures h.Handled? ==> bs != [] && FromByte(bs[0]) == Some(h.code) && |h.rest| < |bs| && h.rest == bs[|bs| - |h.rest|..]
  {
    if bs == [] then Starved
    else
      match FromByte(bs[0])
      case None => Undecodable
      case Some(c) =>
        match OrderedTable.Get(commands, c)
        case None => Unhandled
        case Some(command) =>
          match Receive(command.receives, bs[1..])
          case None => Starved
          case Some(rest) => Handled(c, rest)
  }

  /** Where the listener thread stands. */
  datatype ListenerAt = Listening | Blocked | Stopped | Killed(error: Exception)

  /** The listener over the bytes `bs`, the exit flag staying clear: how
      many ACKs it dispatches before it blocks or dies, and how it ends. */
  function Listen(commands: Commands, bs: seq<byte>): (r: (nat, ListenerAt))
    ensures r.1 != Listening && r.1 != Stopped
    decreases |bs|
  {
    match Hear(commands, bs)
    case Starved => (0, Blocked)
    case Undecodable => (0, Killed(ValueError))
    case Unhandled => (0, Killed(CommandException))
    case Handled(c, rest) =>
      var (n, end) := Listen(commands, rest);
      (if c == ACK then n + 1 else n, end)
  }

  /** What one listener iteration did to the bytes, the permits and the
      status carries a running total of `Listen` over to the bytes left:
      `total` is the permits `counted` so far plus what the listener will
      count on `bs`. */
  lemma ListenAfterStep(commands: Commands, bs: seq<byte>, total: (nat, ListenerAt), counted: int,
                        released: int, status: ListenerAt, rest: seq<byte>)
    requires total.0 == counted + Listen(commands, bs).0 && total.1 == Listen(commands, bs).1
    requires var h := Hear(commands, bs);
      && (h.Starved? ==> status == Blocked && released == 0)
      && (h.Undecodable? ==> status == Killed(ValueError) && released == 0)
      && (h.Unhandled? ==> status == Killed(CommandException) && released == 0)
      && (h.Handled? ==> status == Listening && rest == h.rest && released == (if h.code == ACK then 1 else 0))
    ensures status == Listening ==>
      total.0 == counted + released + Listen(commands, rest).0 && total.1 == Listen(commands, rest).1
    ensures status != Listening ==> total.0 == counted + released && total.1 == status
  {
  }

  /** The bytes of a sequence of codes. */
  function Encode(cs: seq<CommandCode>): (bs: seq<byte>)
    ensures |bs| == |cs| && forall i :: 0 <= i < |cs| ==> bs[i] == cs[i].Value()
  {
    seq(|cs|, i requires 0 <= i < |cs| => cs[i].Value())
  }

  /** How many of the codes are ACK. */
  function CountAck(cs: seq<CommandCode>): (n: nat)
    ensures n <= |cs|
  {
    if cs == [] then 0 else (if cs[0] == ACK then 1 else 0) + CountAck(cs[1..])
  }

  /** The byte of a registered code whose command reads no payload is
      dispatched and consumed alone. */
  lemma HearNoPayload(commands: Commands, c: CommandCode, rest: seq<byte>)
    requires OrderedTable.Get(commands, c).Some? && OrderedTable.Get(commands, c).value.receives == NoPayload
    ensures Hear(commands, [c.Value()] + rest) == Handled(c, rest)
  {
    ValuesDistinct(c, c);
    assert ([c.Value()] + rest)[1..] == rest;
  }

  /** Codes whose commands are registered and read no payload: the listener
      dispatches them all, releases one permit for each ACK among them and
      none for the others, then blocks waiting for more. */
  lemma {:induction false} ListenCountsAcks(commands: Commands, cs: seq<CommandCode>)
    requires forall i :: 0 <= i < |cs| ==>
      OrderedTable.Get(commands, cs[i]).Some? && OrderedTable.Get(commands, cs[i]).value.receives == NoPayload
    ensures Listen(commands, Encode(cs)) == (CountAck(cs), Blocked)
  {
    if cs != [] {
      var bs := Encode(cs);
      assert bs == [cs[0].Value()] + Encode(cs[1..]);
      HearNoPayload(commands, cs[0], Encode(cs[1..]));
      ListenCountsAcks(commands, cs[1..]);
    }
  }

  /** `CommandListenerThread`: reads a command, looks it up, lets it read its
      payload and process it, and releases one permit when it is ACK. */
  class CommandListenerThread {
    const connexion: SerialProtocol
    const factory: CommandFactory
    /** The exit event, set by the board's `close`. */
    var exiting: bool
    /** The semaphore the sender thread acquires before each write. */
    var permits: int
    var status: ListenerAt

    ghost predicate Valid()
      reads this, connexion`incoming, factory
    {
      connexion.Valid() && factory.Valid()
    }

    function Table(): Commands {
      factory.registry.table
    }

    constructor (connexion: SerialProtocol, factory: CommandFactory, permits: int)
      ensures this.connexion == connexion && this.factory == factory
      ensures this.permits == permits && !exiting && status == Listening
    {
      this.connexion := connexion;
      this.factory := factory;
      this.permits := permits;
      exiting := false;
      status := Listening;
    }

    /** One iteration of `run`: the exit flag is checked once, at the top;
        then one command is read and dispatched. Neither the ValueError of
        an unknown byte nor the CommandException of an unregistered code is
        caught: the thread dies. */
    method Step()
      requires Valid() && status == Listening
      modifies this`permits, this`status, connexion`incoming
      ensures Valid()
      ensures exiting ==> status == Stopped && permits == old(permits) && connexion.incoming == old(connexion.incoming)
      ensures !exiting ==>
        var heard := Hear(Table(), Received(old(connexion.incoming)));
        && (heard.Starved? ==> status == Blocked && permits == old(permits))
        && (heard.Undecodable? ==> status == Killed(ValueError) && permits == old(permits))
        && (heard.Unhandled? ==> status == Killed(CommandException) && permits == old(permits))
        && (heard.Handled? ==>
              && status == Listening && Received(connexion.incoming) == heard.rest
              && permits == old(permits) + (if heard.code == ACK then 1 else 0))
    {
      if exiting {
        status := Stopped;
        return;
      }
      var heard := ReadHeard();
      match heard
      case Starved =>
        status := Blocked;
      case Undecodable =>
        status := Killed(ValueError);
      case Unhandled =>
        status := Killed(CommandException);
      case Handled(c, _) =>
        if c == ACK {
          permits := permits + 1;
        }
    }

    /** The read half of an iteration: `read_command()`, `get_by_code`, then
        the command's `receive`. */
    method ReadHeard() returns (heard: Heard)
      requires Valid()
      modifies connexion`incoming
      ensures Valid()
      ensures heard == Hear(Table(), Received(old(connexion.incoming)))
      ensures heard.Handled? ==> Received(connexion.incoming) == heard.rest
    {
      var code := connexion.ReadCommand();
      if code.None? {
        return Starved;
      }
      if code.value.Err? {
        return Undecodable;
      }
      var command := factory.GetByCode(code.value.value);
      if command.Err? {
        return Unhandled;
      }
      if command.value.receives == LinePayload {
        var line := connexion.ReadLine();
        if line.None? {
          return Starved;
        }
      }
      heard := Handled(code.value.value, Received(connexion.incoming));
    }

    /** `run()`: iterations until the thread stops, blocks or dies. Over
        the bytes it reads it releases exactly as many permits as ACKs it
        dispatches. */
    method Run()
      requires Valid() && status == Listening
      modifies this`permits, this`status, connexion`incoming
      ensures Valid()
      ensures exiting ==> status == Stopped && permits == old(permits)
      ensures !exiting ==>
        var (acks, end) := Listen(Table(), Received(old(connexion.incoming)));
        permits == old(permits) + acks && status == end
    {
      ghost var total := Listen(Table(), Received(connexion.incoming));
      while status == Listening
        invariant Valid()
        invariant exiting ==> permits == old(permits) && (status == Listening || status == Stopped)
        invariant !exiting && status == Listening ==>
          var rest := Listen(Table(), Received(connexion.incoming));
          total.0 == permits - old(permits) + rest.0 && total.1 == rest.1
        invariant !exiting && status != Listening ==> total.0 == permits - old(permits) && total.1 == status
        decreases status == Listening, |Received(connexion.incoming)|
      {
        ghost var before, released := Received(connexion.incoming), permits;
        Step();
        if !exiting {
          ListenAfterStep(Table(), before, total, released - old(permits), permits - released, status, Received(connexion.incoming));
        }
      }
    }
  }

  /** `read_command()` over the byte '#' gives DEBUG. */
  method ReadHash() returns (code: Option<Result<CommandCode>>)
    ensures code == Some(Ok(DEBUG))
  {
    ReceivedBytes(['#' as int]);
    var port := new SerialProtocol(true, Bytes(['#' as int]), false);
    code := port.ReadCommand();
  }

  /** `send_command(DEBUG)` puts the single byte '#' on the wire. */
  method SendDebug() returns (wire: seq<seq<byte>>)
    ensures wire == [['#' as int]]
  {
    var port := new SerialProtocol(true, [], false);
    var r := port.SendCommand(DEBUG, []);
    assert [DEBUG.Value()] + [] == ['#' as int];
    wire := port.written;
  }
}
