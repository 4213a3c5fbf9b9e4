/** The firmware's registries, each a `KeyValueMap` behind a static
    singleton: the command factory and the device factory map a code to the
    callback that builds an instance; the device manager and the runnable
    manager map an id to a live instance. Every lookup goes through
    `getValue`, which dereferences NULL for a key that is not registered
    (`KeyValueMap.GetValue`); each such lookup also comes in the form its
    documentation and its callers' NULL tests promise, answering NULL
    (`...OrNull`, over `KeyValueMap.GetValueOrNull`). */
module FirmwareRegistries {
  import opened Base
  import opened KeyValueMaps
  import opened FirmwareDevice
  import opened FirmwareCommand

  /** A registered command class, by what its callback builds: a command of
      that name and expected payload size. */
  datatype CommandInstance = CommandInstance(name: string, expectedPayloadSize: int)

  /** A registered device class, by the expected payload size its
      constructor passes to `AbstractDevice`. */
  datatype DeviceInstance = DeviceInstance(expectedPayloadSize: int)

  class CommandFactory {
    /** `registeredCommands_`. */
    const registeredCommands: KeyValueMap<byte, CommandInstance>

    ghost predicate Valid()
      reads this, registeredCommands, registeredCommands.spine
    {
      registeredCommands.Valid()
    }

    /** The first instance has no registered command. */
    constructor ()
      ensures Valid() && fresh(registeredCommands) && registeredCommands.Elements() == []
    {
      registeredCommands := new KeyValueMap();
    }

    /** `registerCommand(code, callback)`: true and recorded when the code is
        new; false and nothing changes when it is already registered, so the
        first registration wins. */
    method RegisterCommand(code: byte, callback: CommandInstance) returns (ok: bool)
      requires Valid() && |registeredCommands.Elements()| < 255
      modifies registeredCommands
      ensures Valid()
      ensures ok <==> Lookup(old(registeredCommands.Elements()), code).None?
      ensures registeredCommands.Elements() == if ok then [(code, callback)] + old(registeredCommands.Elements()) else old(registeredCommands.Elements())
    {
      ok := registeredCommands.Add(code, callback);
    }

    /** `createCommand(code)` as written: a new command built by the code's
        callback; for a code that is not registered, `getValue` dereferences
        NULL before the NULL test is reached. A registered callback is never
        NULL, so that test never fires. */
    method CreateCommand(code: byte) returns (r: Access<AbstractCommand>)
      requires Valid()
      ensures r.NullDereference? <==> Lookup(registeredCommands.Elements(), code).None?
      ensures r.Value? ==>
        && fresh(r.v)
        && r.v.name == Lookup(registeredCommands.Elements(), code).value.name
        && r.v.expectedPayloadSize == Lookup(registeredCommands.Elements(), code).value.expectedPayloadSize
    {
      var callback := registeredCommands.GetValue(code);
      if callback.NullDereference? {
        return NullDereference;
      }
      var command := new AbstractCommand(callback.v.name, callback.v.expectedPayloadSize);
      r := Value(command);
    }

    /** `createCommand(code)` as its NULL test intends: a new command built
        by the code's callback, NULL for a code that is not registered. */
    method CreateCommandOrNull(code: byte) returns (command: AbstractCommand?)
      requires Valid()
      ensures command == null <==> Lookup(registeredCommands.Elements(), code).None?
      ensures command != null ==>
        && fresh(command)
        && command.name == Lookup(registeredCommands.Elements(), code).value.name
        && command.expectedPayloadSize == Lookup(registeredCommands.Elements(), code).value.expectedPayloadSize
    {
      var callback := registeredCommands.GetValueOrNull(code);
      if callback.None? {
        return null;
      }
      command := new AbstractCommand(callback.value.name, callback.value.expectedPayloadSize);
    }
  }

  class DeviceFactory {
    /** `registeredDevices_`. */
    const registeredDevices: KeyValueMap<byte, DeviceInstance>

    ghost predicate Valid()
      reads this, registeredDevices, registeredDevices.spine
    {
      registeredDevices.Valid()
    }

    /** The first instance has no registered device. */
    constructor ()
      ensures Valid() && fresh(registeredDevices) && registeredDevices.Elements() == []
    {
      registeredDevices := new KeyValueMap();
    }

    /** `registerDevice(code, callback)`: true exactly when the code is new;
        a duplicate is rejected and nothing changes. */
    method RegisterDevice(code: byte, callback: DeviceInstance) returns (ok: bool)
      requires Valid() && |registeredDevices.Elements()| < 255
      modifies registeredDevices
      ensures Valid()
      ensures ok <==> Lookup(old(registeredDevices.Elements()), code).None?
      ensures registeredDevices.Elements() == if ok then [(code, callback)] + old(registeredDevices.Elements()) else old(registeredDevices.Elements())
    {
      ok := registeredDevices.Add(code, callback);
    }

    /** `createDevice(code)`: guarded by `getPosition`, a new device built by
        the code's callback, NULL for a code that is not registered. */
    method CreateDevice(code: byte) returns (device: AbstractDevice?)
      requires Valid()
      ensures device == null <==> Lookup(registeredDevices.Elements(), code).None?
      ensures device != null ==>
        && fresh(device) && fresh(device.payload) && device.Valid()
        && device.id == 0 && device.updates == []
        && device.expectedPayloadSize == Lookup(registeredDevices.Elements(), code).value.expectedPayloadSize
    {
      var index := registeredDevices.GetPosition(code);
      if index > -1 {
        var callback := registeredDevices.GetValue(code);
        device := new AbstractDevice(callback.v.expectedPayloadSize);
        return;
      }
      device := null;
    }

    /** `getDeviceType(code)`: the same guarded lookup and build as
        `createDevice`. */
    method GetDeviceType(code: byte) returns (device: AbstractDevice?)
      requires Valid()
      ensures device == null <==> Lookup(registeredDevices.Elements(), code).None?
      ensures device != null ==>
        && fresh(device) && device.id == 0
        && device.expectedPayloadSize == Lookup(registeredDevices.Elements(), code).value.expectedPayloadSize
    {
      device := CreateDevice(code);
    }
  }

  class DeviceManager {
    /** `devices_`, keyed by device id. */
    const devices: KeyValueMap<byte, AbstractDevice>

    ghost predicate Valid()
      reads this, devices, devices.spine
    {
      devices.Valid()
    }

    /** The first instance knows no device. */
    constructor ()
      ensures Valid() && fresh(devices) && devices.Elements() == []
    {
      devices := new KeyValueMap();
    }

    /** `getHead()`: the first pair of the chain, which holds the device
        added last; NULL when no device was added. */
    method GetHead() returns (r: Pair?<byte, AbstractDevice>)
      requires Valid()
      ensures r == null <==> devices.Elements() == []
      ensures r != null ==> (r.key, r.value) == devices.Elements()[0]
    {
      r := devices.head;
    }

    /** `addDevice(instance)`: stored under its id, unless a device with that
        id is already known, in which case false and nothing changes. */
    method AddDevice(instance: AbstractDevice) returns (ok: bool)
      requires Valid() && |devices.Elements()| < 255
      modifies devices
      ensures Valid()
      ensures ok <==> Lookup(old(devices.Elements()), instance.id).None?
      ensures devices.Elements() == if ok then [(instance.id, instance)] + old(devices.Elements()) else old(devices.Elements())
    {
      ok := devices.Add(instance.id, instance);
    }

    /** `getDevice(id)` as written: the device stored under that id, and a
        dereference of NULL when there is none. */
    method GetDevice(id: byte) returns (r: Access<AbstractDevice>)
      requires Valid()
      ensures r.NullDereference? <==> Lookup(devices.Elements(), id).None?
      ensures r.Value? ==> Lookup(devices.Elements(), id) == Some(r.v)
    {
      r := devices.GetValue(id);
    }

    /** `getDevice(id)` as documented: the device stored under that id, None
        (NULL) when there is none. */
    method GetDeviceOrNull(id: byte) returns (r: Option<AbstractDevice>)
      requires Valid()
      ensures r == Lookup(devices.Elements(), id)
    {
      r := devices.GetValueOrNull(id);
    }
  }

  /** `RunnableManager`: the commands that keep running, by id. */
  class RunnableManager {
    /** `runnables_`. */
    const runnables: KeyValueMap<byte, AbstractCommand>

    ghost predicate Valid()
      reads this, runnables, runnables.spine
    {
      runnables.Valid()
    }

    /** The first instance holds no runnable. */
    constructor ()
      ensures Valid() && fresh(runnables) && runnables.Elements() == []
    {
      runnables := new KeyValueMap();
    }

    /** `clearCommands()`: no runnable is left. */
    method ClearCommands()
      requires Valid()
      modifies runnables
      ensures Valid() && runnables.Elements() == []
    {
      runnables.Clear();
    }

    /** `addCommand(instance)`, keyed by the id the instance reports:
        rejected without change when that id is already taken. */
    method AddCommand(id: byte, instance: AbstractCommand) returns (ok: bool)
      requires Valid() && |runnables.Elements()| < 255
      modifies runnables
      ensures Valid()
      ensures ok <==> Lookup(old(runnables.Elements()), id).None?
      ensures runnables.Elements() == if ok then [(id, instance)] + old(runnables.Elements()) else old(runnables.Elements())
    {
      ok := runnables.Add(id, instance);
    }

    /** `getCommand(id)` as written: the runnable added under that id, and
        a dereference of NULL when there is none. */
    method GetCommand(id: byte) returns (r: Access<AbstractCommand>)
      requires Valid()
      ensures r.NullDereference? <==> Lookup(runnables.Elements(), id).None?
      ensures r.Value? ==> Lookup(runnables.Elements(), id) == Some(r.v)
    {
      r := runnables.GetValue(id);
    }

    /** `getCommand(id)` as documented: the runnable added under that id,
        None (NULL) when there is none. */
    method GetCommandOrNull(id: byte) returns (r: Option<AbstractCommand>)
      requires Valid()
      ensures r == Lookup(runnables.Elements(), id)
    {
      r := runnables.GetValueOrNull(id);
    }
  }

  /** Registering a code twice keeps the first callback: the second call
      answers false, and the command then built is the first one's. */
  method FirstCommandRegistrationWins(code: byte) returns (first: bool, second: bool, built: string)
    ensures first && !second && built == "SETTINGS"
  {
    var factory := new CommandFactory();
    first := factory.RegisterCommand(code, CommandInstance("SETTINGS", -1));
    second := factory.RegisterCommand(code, CommandInstance("VOID", 0));
    LookupAfterAdd([], code, CommandInstance("SETTINGS", -1), code);
    var command := factory.CreateCommand(code);
    built := command.v.name;
  }

  /** A device added under its id is found again under that id, and is the
      head of the manager's chain. */
  method AddedDeviceFound(id: byte) returns (added: bool, found: Access<AbstractDevice>, device: AbstractDevice, head: AbstractDevice)
    ensures added && found == Value(device) && head == device && device.id == id
  {
    var manager := new DeviceManager();
    device := new AbstractDevice(-1);
    device.UpdateSettings([id]);
    added := manager.AddDevice(device);
    LookupAfterAdd([], id, device, id);
    found := manager.GetDevice(id);
    var pair := manager.GetHead();
    head := pair.value;
  }

  /** A manager that knows no device, asked for one, dereferences NULL as
      written, where its documentation promises NULL. */
  method UnknownDeviceFaults(id: byte) returns (asWritten: Access<AbstractDevice>, documented: Option<AbstractDevice>)
    ensures asWritten == NullDereference && documented == None
  {
    var manager := new DeviceManager();
    asWritten := manager.GetDevice(id);
    documented := manager.GetDeviceOrNull(id);
  }
}
