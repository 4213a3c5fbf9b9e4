/** The oldest host's command layer (`backend/hermes/core/command`): its
    `CommandCode` vocabulary and a factory whose lookups answer None on a
    miss instead of raising. */
module OldestCommands {
  import opened Base
  import OrderedTable

  datatype CommandCode =
    | VOID
    | DEBUG
    | RESERVED
    | HANDSHAKE
    | CONNECTED
    | ACK
    | SERVO
    | BLINK
  {
    function Value(): byte {
      match this
      case VOID => 0
      case DEBUG => 35
      case RESERVED => 10
      case HANDSHAKE => 33
      case CONNECTED => 34
      case ACK => 36
      case SERVO => 41
      case BLINK => 98
    }
  }

  /** Members are distinct; 0, 10 and 35 belong to VOID, RESERVED and DEBUG
      only. */
  lemma ValuesDistinct(c: CommandCode, d: CommandCode)
    ensures c.Value() == d.Value() <==> c == d
    ensures c.Value() == 0 <==> c == VOID
    ensures c.Value() == 10 <==> c == RESERVED
    ensures c.Value() == 35 <==> c == DEBUG
  {
  }

  /** A command: code and name, both given to the constructor. Its `send`,
      `receive` and `process` do nothing. */
  datatype Command = Command(code: CommandCode, name: string)

  function CodeOf(c: Command): CommandCode {
    c.code
  }

  /** `CommandFactory`: a dict from code to command filled by a loop over the
      plugins; both lookups answer None on a miss. */
  class CommandFactory {
    const registry: OrderedTable.Registry<CommandCode, Command>

    ghost predicate Valid() {
      registry.Valid() && registry.key == CodeOf
    }

    constructor (plugins: seq<Command>)
      ensures Valid() && registry.items == plugins
    {
      registry := new OrderedTable.Registry(plugins, CodeOf);
    }

    /** `get_by_code`: `dict.get`, so the last plugin registered under
        `code`, and None when no plugin has it. */
    function GetByCode(code: CommandCode): (r: Option<Command>)
      requires Valid()
      ensures r.Some? <==> exists i :: 0 <= i < |registry.items| && registry.items[i].code == code
      ensures r.Some? ==> r.value.code == code
      ensures r.Some? ==> exists i :: (0 <= i < |registry.items| && registry.items[i] == r.value
                                       && forall j :: i < j < |registry.items| ==> registry.items[j].code != code)
    {
      registry.Lookup(code)
    }

    /** `get_by_name`: the first stored command with that name, None when
        there is none. */
    function GetByName(name: string): (r: Option<Command>)
      requires Valid()
      ensures r.None? <==> forall i :: 0 <= i < |registry.table| ==> registry.table[i].1.name != name
      ensures r.Some? ==> r.value.name == name && exists i :: 0 <= i < |registry.items| && registry.items[i] == r.value
      ensures r.Some? ==> exists i :: (0 <= i < |registry.table| && registry.table[i].1 == r.value
                                       && forall j :: 0 <= j < i ==> registry.table[j].1.name != name)
    {
      registry.FirstMatching((c: Command) => c.name == name)
    }
  }

  /** With no plugin of that name, `get_by_name` answers None, as the tests of
      this generation expect. */
  lemma UnknownNameIsNone(f: CommandFactory, name: string)
    requires f.Valid()
    requires forall i :: 0 <= i < |f.registry.items| ==> f.registry.items[i].name != name
    ensures f.GetByName(name).None?
  {
    OrderedTable.StoredAreItems(f.registry.items, CodeOf);
  }
}
