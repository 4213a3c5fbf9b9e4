/** The current host's command handlers (`hermes/commands`): each handler
    plugin declares a `MessageCode`, and the `CommandFactory` singleton keeps
    one instance per code. */
module Commands {
  import opened Base
  import opened Dictionary
  import OrderedTable
  import Protocols
  import Struct

  /** A handler instance: its code, its name (the plugin class name) and
      what its `receive` reads after the code byte. `process` only logs. */
  datatype Handler = Handler(code: MessageCode, name: string, receives: Protocols.Payload)

  function CodeOf(h: Handler): MessageCode {
    h.code
  }

  /** The DEBUG handler reads one line; the ACK handler keeps the base
      class's `receive`, which reads nothing. */
  const Debug := Handler(DEBUG, "DebugCommand", Protocols.LinePayload)
  const Ack := Handler(ACK, "AckCommand", Protocols.NoPayload)

  /** `CommandFactory`: a dict from code to handler, filled by a loop over
      the plugins in definition order. */
  class CommandFactory {
    const registry: OrderedTable.Registry<MessageCode, Handler>

    ghost predicate Valid() {
      registry.Valid() && registry.key == CodeOf
    }

    constructor (plugins: seq<Handler>)
      ensures Valid() && registry.items == plugins
    {
      registry := new OrderedTable.Registry(plugins, CodeOf);
    }

    /** `get_by_code`: the handler of the last plugin declaring `code`;
        CommandError when no plugin does. */
    function GetByCode(code: MessageCode): (r: Result<Handler>)
      requires Valid()
      ensures r.Ok? <==> exists i :: 0 <= i < |registry.items| && registry.items[i].code == code
      ensures r.Ok? ==> r.value.code == code
      ensures r.Ok? ==> exists i :: (0 <= i < |registry.items| && registry.items[i] == r.value
                                     && forall j :: i < j < |registry.items| ==> registry.items[j].code != code)
      ensures r.Err? ==> r.error == CommandError
    {
      match registry.Lookup(code)
      case Some(h) => Ok(h)
      case None => Err(CommandError)
    }

    /** `get_by_name`: the first stored handler with that name; CommandError
        when no stored handler has it. */
    function GetByName(name: string): (r: Result<Handler>)
      requires Valid()
      ensures r.Err? <==> forall i :: 0 <= i < |registry.table| ==> registry.table[i].1.name != name
      ensures r.Ok? ==> r.value.name == name && exists i :: 0 <= i < |registry.items| && registry.items[i] == r.value
      ensures r.Ok? ==> exists i :: (0 <= i < |registry.table| && registry.table[i].1 == r.value
                                     && forall j :: 0 <= j < i ==> registry.table[j].1.name != name)
      ensures r.Err? ==> r.error == CommandError
    {
      match registry.FirstMatching((h: Handler) => h.name == name)
      case Some(h) => Ok(h)
      case None => Err(CommandError)
    }
  }

  /** With the DEBUG and ACK plugins, looking up ACK gives the ACK handler. */
  method AckIsRegistered() returns (ack: Result<Handler>)
    ensures ack == Ok(Ack)
  {
    var factory := new CommandFactory([Debug, Ack]);
    ack := factory.GetByCode(ACK);
    assert factory.registry.items[1] == Ack;
  }

  /** With the DEBUG and ACK plugins, a code neither declares raises
      CommandError. */
  method UnregisteredCodeFails() returns (patch: Result<Handler>)
    ensures patch == Err(CommandError)
  {
    var factory := new CommandFactory([Debug, Ack]);
    patch := factory.GetByCode(PATCH);
  }

  /** A name no handler has raises CommandError (the test of this generation
      expects None instead). */
  method UnknownNameFails() returns (unknown: Result<Handler>)
    ensures unknown == Err(CommandError)
  {
    var factory := new CommandFactory([Debug, Ack]);
    OrderedTable.StoredAreItems(factory.registry.items, CodeOf);
    unknown := factory.GetByName("UnknownCommand");
  }

  /** `CommandFactory()` called twice gives the same factory, whatever
      plugins were defined in between. */
  method FactoryIsSingleton(plugins: seq<Handler>, later: seq<Handler>) returns (a: CommandFactory, b: CommandFactory)
    ensures a == b && a.Valid() && a.registry.items == plugins
  {
    var slot := new Struct.Singleton<CommandFactory>();
    var first := new CommandFactory(plugins);
    a := slot.Call(first);
    var second := new CommandFactory(later);
    b := slot.Call(second);
  }
}
