/** What the firmware does with the commands it receives: the SETTINGS
    command's create-or-skip of a device, and the main loop's step that
    reads one command code, builds the command and acknowledges it. Both
    come as written, where a lookup of a missing key dereferences NULL, and
    as their NULL tests intend. */
module FirmwareCommands {
  import opened Base
  import opened KeyValueMaps
  import opened FirmwareDevice
  import opened FirmwareCommand
  import opened FirmwareRegistries
  import FirmwareDictionary

  /** The expected payload size of SETTINGS: a variable-length payload. */
  const SETTINGS_PAYLOAD_SIZE: int := -1

  /** SETTINGS's `executePayload(payload)` as written: `payload[0]` is the
      device code and `payload[1]` the device id. An unknown code leaves the
      manager as it was. For a known code, `getDevice(payload[1])` is asked
      whether the id is taken; a taken id leaves the manager as it was, and
      an id not yet known makes `getValue` dereference NULL, so the create
      branch is never reached. */
  method ExecuteSettings(payload: seq<byte>, factory: DeviceFactory, manager: DeviceManager)
    returns (r: Access<AbstractDevice?>)
    requires |payload| >= 2 && factory.Valid() && manager.Valid()
    ensures manager.Valid() && manager.devices.Elements() == old(manager.devices.Elements())
    ensures Lookup(factory.registeredDevices.Elements(), payload[0]).None? ==> r == Value(null)
    ensures Lookup(factory.registeredDevices.Elements(), payload[0]).Some? && Lookup(manager.devices.Elements(), payload[1]).Some? ==>
      r == Value(null)
    ensures Lookup(factory.registeredDevices.Elements(), payload[0]).Some? && Lookup(manager.devices.Elements(), payload[1]).None? ==>
      r == NullDereference
  {
    var deviceToPatch := factory.CreateDevice(payload[0]);
    if deviceToPatch == null {
      return Value(null);
    }
    var existingDevice := manager.GetDevice(payload[1]);
    if existingDevice.NullDereference? {
      return NullDereference;
    }
    r := Value(null);
  }

  /** SETTINGS's `executePayload(payload)` as its NULL test intends, with
      `getDevice` answering NULL for an unknown id: an unknown code or a
      known id leaves the manager as it was; otherwise a new device of that
      code takes its settings from `payload[1..]` and is added under that
      id, the manager's one new entry. */
  method ExecuteSettingsIntended(payload: seq<byte>, factory: DeviceFactory, manager: DeviceManager)
    returns (created: AbstractDevice?)
    requires |payload| >= 2 && factory.Valid() && manager.Valid()
    requires |manager.devices.Elements()| < 255
    modifies manager.devices
    ensures manager.Valid()
    ensures Lookup(factory.registeredDevices.Elements(), payload[0]).None? ==>
      created == null && manager.devices.Elements() == old(manager.devices.Elements())
    ensures Lookup(factory.registeredDevices.Elements(), payload[0]).Some? && Lookup(old(manager.devices.Elements()), payload[1]).Some? ==>
      created == null && manager.devices.Elements() == old(manager.devices.Elements())
    ensures Lookup(factory.registeredDevices.Elements(), payload[0]).Some? && Lookup(old(manager.devices.Elements()), payload[1]).None? ==>
      && created != null && fresh(created) && created.id == payload[1]
      && created.expectedPayloadSize == Lookup(factory.registeredDevices.Elements(), payload[0]).value.expectedPayloadSize
      && manager.devices.Elements() == [(payload[1], created)] + old(manager.devices.Elements())
  {
    var deviceToPatch := factory.CreateDevice(payload[0]);
    if deviceToPatch == null {
      return null;
    }
    var data := payload[1..];
    var existingDevice := manager.GetDeviceOrNull(payload[1]);
    if existingDevice.Some? {
      return null;
    }
    deviceToPatch.UpdateSettings(data);
    var added := manager.AddDevice(deviceToPatch);
    created := deviceToPatch;
  }

  /** What one pass of the main loop did: no packet was there, a command
      was built and processed, or building it dereferenced NULL. */
  datatype Step = NoPacket | Processed(command: AbstractCommand) | Faulted

  /** `receive_and_process_next_command()` as written, over the bytes
      `input`. With no packet, nothing is read and nothing is sent.
      Otherwise one code byte is read; `createCommand` of a code that is not
      registered dereferences NULL, and nothing is sent; a command that is
      built is processed once and one ACK is sent. Returns what is left of
      the input, what the pass did and the bytes sent. */
  method ReceiveAndProcessNextCommand(factory: CommandFactory, input: seq<byte>)
    returns (rest: seq<byte>, step: Step, sent: seq<byte>)
    requires factory.Valid()
    ensures input == [] ==> rest == [] && step == NoPacket && sent == []
    ensures input != [] ==> rest == input[1..]
    ensures input != [] && Lookup(factory.registeredCommands.Elements(), input[0]).None? ==>
      step == Faulted && sent == []
    ensures input != [] && Lookup(factory.registeredCommands.Elements(), input[0]).Some? ==>
      && step.Processed? && fresh(step.command)
      && step.command.name == Lookup(factory.registeredCommands.Elements(), input[0]).value.name
      && sent == [FirmwareDictionary.MessageCode.ACK.Value()]
  {
    rest, step, sent := input, NoPacket, [];
    if |input| > 0 {
      var code := input[0];
      rest := input[1..];
      var command := factory.CreateCommand(code);
      if command.NullDereference? {
        step := Faulted;
        return;
      }
      step := Processed(command.v);
      sent := sent + [FirmwareDictionary.MessageCode.ACK.Value()];
    }
  }

  /** `receive_and_process_next_command()` as its NULL test intends: a code
      the factory cannot build a command for is dropped without ACK. */
  method ReceiveAndProcessNextCommandIntended(factory: CommandFactory, input: seq<byte>)
    returns (rest: seq<byte>, processed: Option<AbstractCommand>, sent: seq<byte>)
    requires factory.Valid()
    ensures input == [] ==> rest == [] && processed.None? && sent == []
    ensures input != [] ==> rest == input[1..]
    ensures input != [] && Lookup(factory.registeredCommands.Elements(), input[0]).None? ==>
      processed.None? && sent == []
    ensures input != [] && Lookup(factory.registeredCommands.Elements(), input[0]).Some? ==>
      && processed.Some? && fresh(processed.value)
      && processed.value.name == Lookup(factory.registeredCommands.Elements(), input[0]).value.name
      && sent == [FirmwareDictionary.MessageCode.ACK.Value()]
  {
    rest, processed, sent := input, None, [];
    if |input| > 0 {
      var code := input[0];
      rest := input[1..];
      var command := factory.CreateCommandOrNull(code);
      if command == null {
        return;
      }
      processed := Some(command);
      sent := sent + [FirmwareDictionary.MessageCode.ACK.Value()];
    }
  }

  /** A board that registered SETTINGS (under the code `settings`; the
      firmware dictionary names no SETTINGS value) acknowledges that code
      with one ACK byte. */
  method SettingsAcknowledged(settings: byte) returns (ack: seq<byte>, step: Step)
    ensures ack == [11] && step.Processed? && step.command.name == "SETTINGS"
  {
    var commands := new CommandFactory();
    var ok := commands.RegisterCommand(settings, CommandInstance("SETTINGS", SETTINGS_PAYLOAD_SIZE));
    LookupAfterAdd([], settings, CommandInstance("SETTINGS", SETTINGS_PAYLOAD_SIZE), settings);
    var rest;
    rest, step, ack := ReceiveAndProcessNextCommand(commands, [settings]);
  }

  /** A code nobody registered: as written the pass dereferences NULL; as
      intended it is dropped. Neither sends an ACK. */
  method UnregisteredCodeFaults(code: byte) returns (step: Step, sent: seq<byte>, processed: Option<AbstractCommand>, sentIntended: seq<byte>)
    ensures step == Faulted && sent == [] && processed == None && sentIntended == []
  {
    var commands := new CommandFactory();
    var rest;
    rest, step, sent := ReceiveAndProcessNextCommand(commands, [code]);
    rest, processed, sentIntended := ReceiveAndProcessNextCommandIntended(commands, [code]);
  }

  /** As written, the first SETTINGS for a device dereferences NULL: with
      device class 41 registered and no device known, the payload `41 7 13`
      never gets to create the device. */
  method FirstSettingsFaults() returns (r: Access<AbstractDevice?>, known: nat)
    ensures r == NullDereference && known == 0
  {
    var devices := new DeviceFactory();
    var ok := devices.RegisterDevice(41, DeviceInstance(2));
    LookupAfterAdd([], 41, DeviceInstance(2), 41);
    var manager := new DeviceManager();
    r := ExecuteSettings([41, 7, 13], devices, manager);
    known := manager.devices.Count();
  }

  /** As intended, with one device class registered, the SETTINGS payload
      `41 7 13` adds a device under id 7, and the same payload again adds
      nothing. */
  method SettingsAddsDeviceOnce() returns (first: AbstractDevice?, second: AbstractDevice?, found: Option<AbstractDevice>)
    ensures first != null && second == null && found == Some(first) && first.id == 7
  {
    var devices := new DeviceFactory();
    var ok := devices.RegisterDevice(41, DeviceInstance(2));
    LookupAfterAdd([], 41, DeviceInstance(2), 41);
    var manager := new DeviceManager();
    first := ExecuteSettingsIntended([41, 7, 13], devices, manager);
    LookupAfterAdd([], 7, first, 7);
    second := ExecuteSettingsIntended([41, 7, 13], devices, manager);
    found := manager.GetDeviceOrNull(7);
  }
}
