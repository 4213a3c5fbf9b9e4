/** The older host's command layer (`backend/hermes/core/commands`): its
    `CommandCode` vocabulary, the patch and mutation frames a command builds,
    `send`, and the raising `CommandFactory`. */
module LegacyCommands {
  import opened Base
  import OrderedTable
  import Protocols

  datatype CommandCode =
    | VOID
    | END_OF_LINE
    | DEBUG
    | ACK
    | HANDSHAKE
    | CONNECTED
    | PATCH
    | MUTATION
    | BOOLEAN_ACTION
    | SERVO
    | BLINK
    | ON_OFF
    | BOOLEAN_INPUT
  {
    function Value(): byte {
      match this
      case VOID => 0
      case END_OF_LINE => 10
      case DEBUG => 35
      case ACK => 11
      case HANDSHAKE => 12
      case CONNECTED => 13
      case PATCH => 14
      case MUTATION => 15
      case BOOLEAN_ACTION => 41
      case SERVO => 42
      case BLINK => 43
      case ON_OFF => 44
      case BOOLEAN_INPUT => 141
    }
  }

  /** `CommandCode(b)`; None stands for the ValueError Python raises. */
  function FromByte(b: int): (r: Option<CommandCode>)
    ensures r.Some? ==> r.value.Value() == b
    ensures r.None? ==> forall c: CommandCode :: c.Value() != b
  {
    if b == 0 then Some(VOID)
    else if b == 10 then Some(END_OF_LINE)
    else if b == 35 then Some(DEBUG)
    else if b == 11 then Some(ACK)
    else if b == 12 then Some(HANDSHAKE)
    else if b == 13 then Some(CONNECTED)
    else if b == 14 then Some(PATCH)
    else if b == 15 then Some(MUTATION)
    else if b == 41 then Some(BOOLEAN_ACTION)
    else if b == 42 then Some(SERVO)
    else if b == 43 then Some(BLINK)
    else if b == 44 then Some(ON_OFF)
    else if b == 141 then Some(BOOLEAN_INPUT)
    else None
  }

  /** Members are distinct; 0, 10 and 35 are VOID, END_OF_LINE and DEBUG only. */
  lemma ValuesDistinct(c: CommandCode, d: CommandCode)
    ensures c.Value() == d.Value() <==> c == d
    ensures FromByte(c.Value()) == Some(c)
    ensures c.Value() == 0 <==> c == VOID
    ensures c.Value() == 10 <==> c == END_OF_LINE
    ensures c.Value() == 35 <==> c == DEBUG
  {
  }

  /** How a plugin's `_get_mutation(value)` encodes a value: the base
      class's `bytearray([value])`, or nothing (ACK and DEBUG override it so). */
  datatype MutationEncoding = ValueByte | NoBytes

  /** A command plugin: its code, plugin id and name, the bytes its
      `_get_settings()` returns, how it encodes a value, what its `receive`
      reads after the code, and whether it overrides `_is_runnable`. */
  datatype Command = Command(
    code: CommandCode,
    id: int,
    name: string,
    settings: seq<byte>,
    mutation: MutationEncoding,
    receives: Protocols.Payload,
    runnable: bool)

  /** A command as the base class constructs it: no settings, the one-byte
      value encoding, a `receive` that reads nothing, not runnable. */
  function NewCommand(code: CommandCode, id: int, name: string): (c: Command)
    ensures !c.runnable && c.settings == [] && c.mutation == ValueByte && c.receives == Protocols.NoPayload
    ensures c.code == code && c.id == id && c.name == name
  {
    Command(code, id, name, [], ValueByte, Protocols.NoPayload, false)
  }

  /** `_get_mutation(value)`. */
  function Mutation(c: Command, value: int): (r: Result<seq<byte>>)
    ensures c.mutation == NoBytes ==> r == Ok([])
    ensures c.mutation == ValueByte ==> (r.Ok? <==> 0 <= value < 256)
    ensures c.mutation == ValueByte && r.Ok? ==> r.value == [value]
    ensures r.Err? ==> r.error == ValueError
  {
    assert [value][0] == value;
    match c.mutation
    case ValueByte => ToBytes([value])
    case NoBytes => Ok([])
  }

  /** `to_patch_payload()`: `[len(settings) + 2, code, id] + settings`. */
  function ToPatchPayload(c: Command): (r: Result<seq<byte>>)
    ensures r.Ok? <==> 0 <= c.id < 256 && |c.settings| <= 253
    ensures r.Err? ==> r.error == ValueError
    ensures r.Ok? ==> |r.value| == |c.settings| + 3 && r.value[0] == |r.value| - 1
    ensures r.Ok? ==> r.value[1] == c.code.Value() && r.value[2] == c.id && r.value[3..] == c.settings
  {
    var header :- ToBytes([c.code.Value(), c.id]);
    var size :- ToBytes([|c.settings| + 2]);
    assert header[1] == c.id && size[0] == |c.settings| + 2;
    Ok(size + header + c.settings)
  }

  /** The first byte of the frame `send` hands to the board: MUTATION for a
      runnable command, the command's own code otherwise. */
  function SendHeader(c: Command): (b: byte)
    ensures b == MUTATION.Value() <==> c.runnable || c.code == MUTATION
    ensures FromByte(b) == Some(if c.runnable then MUTATION else c.code)
  {
    if c.runnable then MUTATION.Value() else c.code.Value()
  }

  /** The board `send` talks to: whether it is connected, what its `open()`
      would answer, and the frames handed to its `send`. */
  class BoardLink {
    var connected: bool
    var opens: bool
    var queued: seq<seq<byte>>

    constructor (connected: bool, opens: bool)
      ensures this.connected == connected && this.opens == opens && queued == []
    {
      this.connected := connected;
      this.opens := opens;
      queued := [];
    }

    /** `open()`: succeeds as `opens` says, and connects when it does. */
    method Open() returns (ok: bool)
      modifies this
      ensures ok == old(opens) && connected == (old(connected) || ok)
      ensures opens == old(opens) && queued == old(queued)
    {
      ok := opens;
      if ok {
        connected := true;
      }
    }
  }

  /** `AbstractCommand.send(board, value)`: raises CommandException when the
      board is not connected and cannot be opened; otherwise hands
      `[header] + _get_mutation(value)` to the board, once. The frame carries
      no device id. */
  method Send(c: Command, board: BoardLink, value: int) returns (r: Result<()>)
    modifies board
    ensures !old(board.connected) && !old(board.opens) ==>
      r == Err(CommandException) && board.queued == old(board.queued)
    ensures (old(board.connected) || old(board.opens)) && Mutation(c, value).Err? ==>
      r == Err(ValueError) && board.queued == old(board.queued)
    ensures (old(board.connected) || old(board.opens)) && Mutation(c, value).Ok? ==>
      r == Ok(()) && board.queued == old(board.queued) + [[SendHeader(c)] + Mutation(c, value).value]
    ensures board.connected == (old(board.connected) || old(board.opens))
  {
    if !board.connected {
      var ok := board.Open();
      if !ok {
        return Err(CommandException);
      }
    }
    var data := Mutation(c, value);
    if data.Err? {
      return Err(data.error);
    }
    board.queued := board.queued + [[SendHeader(c)] + data.value];
    r := Ok(());
  }

  function CodeOf(c: Command): CommandCode {
    c.code
  }

  /** `CommandFactory`: a dict from code to command, filled once by a loop
      over the plugins. */
  class CommandFactory {
    const registry: OrderedTable.Registry<CommandCode, Command>

    ghost predicate Valid() {
      registry.Valid() && registry.key == CodeOf
    }

    constructor (plugins: seq<Command>)
      ensures Valid() && registry.items == plugins
    {
      registry := new OrderedTable.Registry(plugins, CodeOf);
    }

    /** `get_by_code`: the last plugin registered under `code`;
        CommandException when no plugin has that code. */
    function GetByCode(code: CommandCode): (r: Result<Command>)
      requires Valid()
      ensures r.Ok? <==> exists i :: 0 <= i < |registry.items| && registry.items[i].code == code
      ensures r.Ok? ==> r.value.code == code
      ensures r.Ok? ==> exists i :: (0 <= i < |registry.items| && registry.items[i] == r.value
                                     && forall j :: i < j < |registry.items| ==> registry.items[j].code != code)
      ensures r.Err? ==> r.error == CommandException
    {
      match registry.Lookup(code)
      case Some(c) => Ok(c)
      case None => Err(CommandException)
    }

    /** `get_by_name`: the first stored command with that name;
        CommandException when none has it. */
    function GetByName(name: string): (r: Result<Command>)
      requires Valid()
      ensures r.Err? <==> forall i :: 0 <= i < |registry.table| ==> registry.table[i].1.name != name
      ensures r.Ok? ==> r.value.name == name && exists i :: 0 <= i < |registry.items| && registry.items[i] == r.value
      ensures r.Ok? ==> exists i :: (0 <= i < |registry.table| && registry.table[i].1 == r.value
                                     && forall j :: 0 <= j < i ==> registry.table[j].1.name != name)
      ensures r.Err? ==> r.error == CommandException
    {
      match registry.FirstMatching((c: Command) => c.name == name)
      case Some(c) => Ok(c)
      case None => Err(CommandException)
    }
  }
}
