# Hermes board communication, modelled in Dafny

Hermes drives microcontroller boards from a host. The host describes each
device to the board, sends it values, and waits for acknowledgements. This
project models the byte-level core of that exchange in three generations of
the code:

- the current host (`hermes/`), written in Python;
- the older host (`backend/hermes/`), written in Python;
- the firmware (`arduino/`), written in C++.

The byte values differ between generations; each is modelled on its own terms.

What is modelled, by module:

- **Vocabularies**: `Dictionary` (host `MessageCode`), `LegacyCommands` and
  `OldestCommands` (the two older `CommandCode` enums), `FirmwareDictionary`
  and `FirmwareCommandCode` (the firmware enums). They are datatypes with
  their byte values, decoders, and lemmas for:
  - distinct values;
  - the reserved noise bytes 0, 10 and 35;
  - agreement between host and firmware on every shared name.
- **Frame encoders**:
  - `Devices`, `Boolean`, `Servo`: settings frame `[len+2, code, id] ++ data`, mutation frame `[MUTATION, id] ++ value`, big-endian and two's-complement servo fields;
  - `LegacyCommands`: `to_patch_payload` and the header rule of `send`.

  A Python exception is an `Err` of `Base.Result`.
- **Registries**:
  - the host factories are insertion-ordered dicts (`OrderedTable`), built by a registration loop; a later plugin with the same code overwrites an earlier one. Lookups raise, or return None in the oldest generation;
  - the firmware `KeyValueMap` is a class over a linked chain of `Pair` nodes: head insertion, unique keys, a ghost spine. The four firmware registries are built on it.
- **Board** (`Boards`): a class holding the connected flag, the exit flag, a `ClearableQueue(4)` and a permit counter that starts at 5. The sender and listener threads are atomic steps. The handshake is a loop over the bytes the board sends. Timeouts are a failure outcome. A ghost ledger proves that frames written minus ACKs processed never exceeds 5 plus the permits `close` released.
- **Transports**:
  - `Protocols`: the shared `read_line` over an abstract sequence of reads;
  - `SerialTransport` and `EthernetTransport` (current host) and `LegacySerial` (older host): open/close, byte reads that skip empty reads, sends (a failing serial write raises TypeError, since the `ProtocolError` it builds gets two arguments where its constructor takes one; the ethernet send swallows a socket error; the older serial send lets `SerialException` escape), and the older listener thread's ACK/permit step.
- **Helper structures** (`Struct`): `ClearableQueue.clear`, `ReadOnlyDict`, `MetaSingleton`, `MetaPluginType`.
- **Firmware payload handling**:
  - `FirmwareDevice`: buffer sizing, id set once, `receivePayload_`, tick scheduling on the wrapping 32-bit clock;
  - `FirmwareCommand`: fixed and line payloads;
  - `FirmwareCommands`: SETTINGS create-or-skip, and the receive → process → ACK step, each as written and as its NULL tests intend.

Where the code and its documentation disagree, the model follows the code:

- `get_by_name` of the current host raises `CommandError` on a miss, though a test of that generation expects `None`.
- `SerialProtocol.open` re-raises a `TypeError`, because `ProtocolError` is built with two arguments but takes one.
- `KeyValueMap::remove` dereferences NULL for the head's key or a missing key. `Remove` models this as an explicit `NullDereference` outcome rather than a precondition.
- `KeyValueMap::getValue` is documented to return NULL for a missing key, but it dereferences NULL instead. `GetValue` and every registry lookup built on it (`CreateCommand`, `GetDevice`, `GetCommand`, SETTINGS's `ExecuteSettings`, `ReceiveAndProcessNextCommand`) give the `NullDereference` outcome there. The documented behaviour is modelled beside each as `GetValueOrNull`, `CreateCommandOrNull`, `GetDeviceOrNull`, `GetCommandOrNull`, `ExecuteSettingsIntended` and `ReceiveAndProcessNextCommandIntended`.
- The handshake sends each device's `as_playload()` as written, so a boolean device is described without its settings (see Findings).

## Model

| member | source | states |
|---|---|---|
| Base.ToBytes | hermes/devices/__init__.py:116 | `bytearray([...])` succeeds exactly when every element lies in 0..255, keeps the elements unchanged, and otherwise raises ValueError |
| Dictionary.FromByte | hermes/core/dictionary.py:10-65 | `MessageCode(b)` answers the member whose value is `b`, and fails (ValueError) exactly when no member has that value |
| Dictionary.ValuesDistinct | hermes/core/dictionary.py:45-65 | two members share a byte only if they are the same member; decoding a member's byte gives the member back |
| Dictionary.MembersComplete | hermes/core/dictionary.py:45-65 | the 11 declared members are all the members, and their values are pairwise distinct |
| Dictionary.ReservedBytes | hermes/core/dictionary.py:21-26 | 0, 10 and 35 are VOID, END_OF_LINE and DEBUG and no other member; the reserved members are exactly those with these bytes |
| Dictionary.HashIsDebug | hermes/core/dictionary.py:51 | the ASCII byte `#` decodes to DEBUG |
| Dictionary.UnknownByteRejected | hermes/core/dictionary.py:45-65 | bytes outside the vocabulary (1, 255) are rejected by `MessageCode(b)` |
| FirmwareDictionary.FromHost | arduino/helper/dictionary.h:41-44 | every host member has the firmware member of the same name, with BOOLEAN_OUTPUT matched to DIGITAL_WRITE; only CONNECTED has no firmware counterpart |
| FirmwareDictionary.ValuesDistinct | arduino/helper/dictionary.h:46-69 | firmware `MessageCode` enumerators have pairwise distinct values |
| FirmwareDictionary.ReservedBytes | arduino/helper/dictionary.h:34-39 | 0, 10 and 35 are VOID, END_OF_LINE and DEBUG and no other enumerator |
| FirmwareDictionary.AgreesWithHost | arduino/helper/dictionary.h:46-69 | each firmware enumerator has the byte of its host counterpart, and the counterpart maps back to it |
| FirmwareCommandCode.FromHost | arduino/commands/CommandCode.h:38-40 | every older-host `CommandCode` has the firmware enumerator of the same name except MUTATION |
| FirmwareCommandCode.ValuesDistinct | arduino/commands/CommandCode.h:42-70 | firmware `CommandCode` values are distinct, and 0, 10, 35 belong only to VOID, END_OF_LINE, DEBUG |
| FirmwareCommandCode.AgreesWithHost | arduino/commands/CommandCode.h:42-70 | every shared name has the same byte on the firmware and the older host, in both directions |
| LegacyCommands.FromByte | backend/hermes/core/commands/__init__.py:35-89 | `CommandCode(b)` answers the member with value `b`, and fails exactly when none has it |
| LegacyCommands.ValuesDistinct | backend/hermes/core/commands/__init__.py:63-89 | members are distinct, decode back to themselves, and 0, 10, 35 are only VOID, END_OF_LINE, DEBUG |
| LegacyCommands.NewCommand | backend/hermes/core/commands/__init__.py:95-118 | a command built by the base class has no settings, encodes a value as one byte, reads no payload and is not runnable |
| LegacyCommands.Mutation | backend/hermes/core/commands/__init__.py:110-113 | `_get_mutation(value)` is `[value]`, failing with ValueError exactly when `value` is not a byte; an overriding command sends no bytes |
| LegacyCommands.ToPatchPayload | backend/hermes/core/commands/__init__.py:120-130 | the patch frame exists exactly when the id is a byte and the settings fit in 253 bytes; it is `[len+2, code, id] ++ settings`, its first byte being its length minus 1 |
| LegacyCommands.SendHeader | backend/hermes/core/commands/__init__.py:140-143 | the header byte is MUTATION exactly for a runnable command (or MUTATION itself), else the command's own code |
| LegacyCommands.BoardLink.constructor | backend/hermes/core/commands/__init__.py:134-138 | the board `send` talks to starts with its connected and openable state and nothing queued |
| LegacyCommands.BoardLink.Open | backend/hermes/core/commands/__init__.py:136-138 | `board.open()` answers whether it could open, and a successful open leaves the board connected |
| LegacyCommands.Send | backend/hermes/core/commands/__init__.py:132-145 | an unconnected board that cannot be opened raises CommandException and gets nothing; otherwise the board gets exactly one frame, `[header] ++ _get_mutation(value)`, with no device id |
| LegacyCommands.CommandFactory.constructor | backend/hermes/core/commands/__init__.py:160-165 | the factory's table is the one the registration loop over the plugins builds |
| LegacyCommands.CommandFactory.GetByCode | backend/hermes/core/commands/__init__.py:167-184 | finds a command exactly when some plugin has the code, and then the last such plugin; CommandException otherwise |
| LegacyCommands.CommandFactory.GetByName | backend/hermes/core/commands/__init__.py:186-203 | the first stored command with that name, one of the plugins; CommandException exactly when no stored command has the name |
| OldestCommands.ValuesDistinct | backend/hermes/core/command/__init__.py:36-58 | the oldest codes are distinct, and 0, 10, 35 belong only to VOID, RESERVED, DEBUG |
| OldestCommands.CommandFactory.constructor | backend/hermes/core/command/__init__.py:85-90 | the table is the one the registration loop over the plugins builds |
| OldestCommands.CommandFactory.GetByCode | backend/hermes/core/command/__init__.py:92-103 | None exactly when no plugin has the code; otherwise the last plugin registered under it |
| OldestCommands.CommandFactory.GetByName | backend/hermes/core/command/__init__.py:105-116 | None exactly when no stored command has the name; otherwise the first stored command with that name, as `next(...)` takes it |
| OldestCommands.UnknownNameIsNone | backend/hermes/core/command/__init__.py:105-116 | a name no plugin has gives None, as that generation's tests expect |
| OrderedTable.Get | hermes/commands/__init__.py:76 | `d.get(k)` is None exactly when no entry has key `k`, and otherwise a value stored under `k` |
| OrderedTable.Put | hermes/commands/__init__.py:62 | `d[k] = v` keeps every other entry and the key order; a new key is appended at the end |
| OrderedTable.GetPut | hermes/commands/__init__.py:62 | after `d[k] = v`, `d[k]` is `v` and every other key keeps its value |
| OrderedTable.PutKeys | hermes/commands/__init__.py:62 | assignment keeps the keys distinct; an existing key keeps its place and a new one goes last |
| OrderedTable.GetPutAll | hermes/boards/__init__.py:163 | after a sequence of assignments, each key holds the last value assigned to it, or its old value if none was |
| OrderedTable.FromEntriesGet | hermes/commands/__init__.py:61-62 | a dict built from entries holds, for each key, the last value given to it, and has distinct keys |
| OrderedTable.Merge | hermes/boards/__init__.py:162-163 | `copy()` then `update(u)` holds only entries of the two dicts |
| OrderedTable.MergeGet | hermes/boards/__init__.py:162-163 | in the merged dict, a key of `u` holds `u`'s value, and any other key holds the first dict's |
| OrderedTable.Register | hermes/commands/__init__.py:61-62 | the registration loop builds the dict of `key(p) → p` assignments in plugin order |
| OrderedTable.RegistryLookup | hermes/commands/__init__.py:61-62 | a registry has distinct keys, and every entry is stored under its own key; a code is present exactly when some plugin has it, and then holds the last such plugin |
| OrderedTable.FirstWhere | hermes/commands/__init__.py:94 | `next(v for v in d.values() if p(v))`: None exactly when no value satisfies `p`, else the first that does in iteration order |
| OrderedTable.Registry.constructor | hermes/commands/__init__.py:57-62 | a registry's table is the dict its registration loop builds from its items |
| OrderedTable.Registry.Lookup | hermes/commands/__init__.py:76 | a lookup finds an item exactly when one has the key, and then the last registered item with that key |
| OrderedTable.Registry.FirstMatching | hermes/commands/__init__.py:94 | the first stored item satisfying the predicate, which is one of the registered items; None exactly when none does |
| Commands.CommandFactory.constructor | hermes/commands/__init__.py:57-62 | the factory's table is the one its registration loop builds from the plugins |
| Commands.CommandFactory.GetByCode | hermes/commands/__init__.py:64-80 | finds a handler exactly when a plugin declares the code, and then the last such plugin; CommandError otherwise |
| Commands.CommandFactory.GetByName | hermes/commands/__init__.py:82-98 | the first stored handler with that name, one of the plugins; CommandError exactly when none has it |
| Commands.AckIsRegistered | hermes/commands/ack.py:9-15 | with the DEBUG and ACK plugins, looking up ACK gives the ACK handler |
| Commands.UnregisteredCodeFails | hermes/commands/__init__.py:76-79 | a code no plugin declares raises CommandError |
| Commands.UnknownNameFails | hermes/commands/__init__.py:94-97 | an unknown name raises CommandError rather than returning None |
| Commands.FactoryIsSingleton | hermes/commands/__init__.py:54-62 | two `CommandFactory()` calls give the same factory, built from the plugins of the first call |
| Devices.NewDevice | hermes/devices/__init__.py:53-57 | a new device's state is its default |
| Devices.NewBooleanOutput | hermes/devices/boolean.py:14-16 | a new boolean output has pin 0 and no default or state |
| Devices.NewBooleanInput | hermes/devices/boolean.py:29-34 | a new boolean input has no default or state |
| Devices.NewServo | hermes/devices/servo.py:19-27 | a new servo has default and state 0, pin 0, tmax 180 and speed -1 |
| Devices.Code | hermes/devices/boolean.py:18-34 | a boolean output's code is BOOLEAN_OUTPUT, an input's BOOLEAN_INPUT, and a servo's SERVO, in both directions |
| Devices.EncodeData | hermes/devices/__init__.py:99-102 | only the servo overrides `_encode_data`; the boolean devices get the base class's empty encoding |
| Devices.EncodeSettings | hermes/devices/boolean.py:22-37 | the settings each plugin defines: `[pin, default]` for the output, nothing for the input, the servo's data for the servo |
| Devices.EncodeValue | hermes/devices/boolean.py:25-40 | a value is one byte for the output, no bytes for the input, and unsigned 16-bit big-endian for the servo |
| Devices.Framed | hermes/devices/__init__.py:116-118 | the frame exists exactly when the id is a byte and the data was built and fits in 253 bytes; it is `[len+2, code, id] ++ data`, its first byte being its length minus 1; otherwise the first failing step's exception |
| Devices.ParseFrame | hermes/devices/__init__.py:118 | a byte string reads as a frame exactly when it has at least 3 bytes and its first byte is its length minus 1 |
| Devices.ParseFramed | hermes/devices/__init__.py:116-118 | a built frame reads back as the code, id and data it was built from |
| Devices.FrameInjective | hermes/devices/__init__.py:116-118 | two frames that read back alike are equal |
| Devices.AsPlayload | hermes/devices/__init__.py:109-118 | `as_playload()` as written: the frame around `_encode_data()` |
| Devices.SettingsFrame | hermes/devices/__init__.py:109-118 | the intended frame around the settings each device defines |
| Devices.OutputFrameAsWritten | hermes/devices/__init__.py:117 | as written, a boolean output's frame is `[2, 41, id]`, without its pin and default |
| Devices.OutputFrameIntended | hermes/devices/boolean.py:22-23 | the intended frame of a boolean output is `[4, 41, id, pin, default]` |
| Devices.OutputFramesDiffer | hermes/devices/__init__.py:117 | for every buildable boolean output, the frame as written differs from the intended one |
| Devices.ServoFrame | hermes/devices/servo.py:49-57 | a new servo's frame is 18 bytes with size byte 17, and speed and acceleration -1 are encoded as 255, 255; both frames agree for the servo |
| Devices.MutationFrame | hermes/devices/__init__.py:127-129 | the mutation frame exists exactly when the id is a byte and the value encodes; it is `[MUTATION, id] ++ value` |
| Devices.OutputMutationFrame | hermes/devices/boolean.py:25-26 | a boolean output's mutation frame is `[21, id, value]` |
| Devices.InputMutationFrame | hermes/devices/boolean.py:39-40 | a boolean input's mutation frame is exactly `[21, id]` |
| Devices.ServoMutationFrame | hermes/devices/servo.py:59-60 | a servo's mutation frame is `[21, id, hi, lo]` for 0..65535; a negative position raises OverflowError |
| Devices.DeviceFactory.constructor | hermes/devices/__init__.py:138-143 | the factory's table is the one its registration loop builds from the plugins |
| Devices.DeviceFactory.GetByCode | hermes/devices/__init__.py:145-161 | finds a device exactly when a plugin has the code, and then the last such plugin; DeviceError otherwise |
| Devices.DeviceFactory.GetByName | hermes/devices/__init__.py:163-179 | the first stored device with that name, one of the plugins; DeviceError exactly when none has it |
| Boolean.OutputSettings | hermes/devices/boolean.py:22-23 | `[pin, default]`, built exactly when the default is set and both are bytes; a pin that is not a byte raises ValueError first, then a default of None raises TypeError, then a default that is not a byte raises ValueError |
| Boolean.OutputValue | hermes/devices/boolean.py:25-26 | `[value]`, built exactly when the value is a byte, ValueError otherwise |
| Servo.EncodeValue | hermes/devices/servo.py:59-60 | two bytes exactly when the value is in the signed or unsigned 16-bit range; OverflowError outside it, AttributeError for None |
| Servo.DecodeValue | hermes/devices/servo.py:59-60 | the inverse reading `int.from_bytes(2, 'big', signed)` always gives a value in range |
| Servo.DecodeEncode | hermes/devices/servo.py:59-60 | decoding an encoded in-range value gives it back |
| Servo.EncodeDecode | hermes/devices/servo.py:59-60 | every two bytes are the encoding of the value they decode to |
| Servo.UnsignedIsBigEndian | hermes/devices/servo.py:59-60 | the unsigned encoding of `v` is `[v / 256, v % 256]` |
| Servo.SignedIsTwosComplement | hermes/devices/servo.py:56-60 | the signed encoding of a negative `v` is the unsigned encoding of `v + 65536`, so -1 is `[255, 255]` |
| Servo.EncodeData | hermes/devices/servo.py:49-57 | 15 bytes exactly when the pin is a byte and every field is in range: the pin, then default, tmin, tmax, min and max unsigned, then speed and acceleration signed, each decoding back to its field |
| Servo.DefaultData | hermes/devices/servo.py:19-27 | a new servo's settings are `0, 0 0, 0 0, 0 180, 0 0, 0 180, 255 255, 255 255` |
| Struct.ClearableQueue.constructor | hermes/core/struct.py:12-13 | a new queue is empty with no unfinished task |
| Struct.ClearableQueue.Put | hermes/boards/__init__.py:193 | a put on a queue that is not full appends at the tail and counts one more unfinished task; a full queue is unchanged |
| Struct.ClearableQueue.GetNowait | hermes/boards/__init__.py:249-253 | takes the head of a non-empty queue; Empty (None) on an empty one |
| Struct.ClearableQueue.TaskDone | hermes/core/struct.py:12-13 | one unfinished task fewer; ValueError and no change at zero |
| Struct.ClearableQueue.Clear | hermes/core/struct.py:15-26 | empties the queue and lowers `unfinished_tasks` by the number of items discarded; ValueError and no change when fewer tasks than items are unfinished |
| Struct.ClearWithoutTaskDone | hermes/core/struct.py:19-25 | put, get, clear: the queue is empty and the put task is still counted |
| Struct.ClearAfterEarlyTaskDone | hermes/core/struct.py:19-22 | a task marked done while its item is queued makes `clear` raise ValueError and keep the item |
| Struct.ReadOnlyDict.constructor | hermes/core/struct.py:29-30 | a new read-only dict is empty |
| Struct.ReadOnlyDict.SetItem | hermes/core/struct.py:32-36 | a new key is stored; an existing key raises KeyError and keeps its value; no stored key ever changes value |
| Struct.Singleton.constructor | hermes/core/struct.py:42-44 | a class starts with no cached instance |
| Struct.Singleton.Call | hermes/core/struct.py:46-49 | the first call's instance is cached and returned by every later call, whose own arguments are ignored |
| Struct.SingletonCallsAgree | hermes/core/struct.py:46-49 | two calls give the first instance |
| Struct.PluginFamily.constructor | hermes/core/struct.py:58-59 | the root class gets an empty `plugins` list |
| Struct.PluginFamily.DefineSubclass | hermes/core/struct.py:60-61 | each subclass is appended once to the root's list |
| Struct.PluginFamily.DefineSubclasses | hermes/core/struct.py:55-61 | subclasses are registered once each, in definition order |
| Struct.TwoPluginsRegistered | hermes/core/struct.py:55-61 | two subclasses give exactly two plugins, in order |
| Protocols.Received | hermes/protocols/serial.py:61-64 | the bytes a sequence of reads delivers are at most one per read |
| Protocols.ReceivedBytes | hermes/protocols/serial.py:62-64 | reads that each deliver a byte deliver exactly those bytes |
| Protocols.Chars | hermes/protocols/serial.py:64 | `chr(b)` of each byte, one character per byte, with the same code |
| Protocols.RStrip | hermes/protocols/serial.py:67 | `rstrip()` gives the longest prefix not ending in whitespace; everything cut off is whitespace |
| Protocols.LineEnd | hermes/protocols/serial.py:65-66 | the first CR LF ends the line: the bytes up to it hold CR LF only at their end, and without a line no CR LF appears |
| Protocols.LineEndUnique | hermes/protocols/serial.py:65-66 | the line ends exactly where the accumulated text first holds CR LF |
| Protocols.ReadLine | hermes/protocols/serial.py:59-67 | `read_line` gives a line exactly when a CR LF arrives: the right-stripped text up to and including it, and the count of bytes consumed |
| Protocols.ReadLineHasNoCrLf | hermes/protocols/serial.py:65-67 | the returned line never holds CR LF, and is the stripped text before the terminating CR LF |
| Protocols.ReadLineExample | hermes/protocols/serial.py:59-67 | T, E, S, T, CR, LF, S reads as "TEST", consuming 6 bytes and leaving the S |
| Protocols.ScanLine | hermes/protocols/serial.py:59-66 | the accumulation loop stops holding CR LF exactly when a line exists, and its stripped text is that line; the reads left deliver what follows the line |
| Protocols.Receive | hermes/commands/debug.py:24-25 | a handler's `receive` consumes nothing, or exactly one line (DEBUG); it waits when the line never completes |
| SerialTransport.SerialProtocol.constructor | hermes/protocols/serial.py:19-24 | a new serial protocol is closed and has written nothing |
| SerialTransport.SerialProtocol.Open | hermes/protocols/serial.py:26-37 | an available port is opened; otherwise the error reaches the caller, as TypeError |
| SerialTransport.SerialProtocol.Close | hermes/protocols/serial.py:39-40 | `close` leaves the port closed |
| SerialTransport.SerialProtocol.ReadByte | hermes/protocols/serial.py:45-50 | skips empty reads and returns the first byte delivered, consuming only the reads up to it |
| SerialTransport.SerialProtocol.Send | hermes/protocols/serial.py:52-57 | writes the data unchanged and answers Ok exactly when the write succeeds; a failing write raises TypeError (the two-argument `ProtocolError`) and leaves nothing written |
| SerialTransport.SerialProtocol.ReadLine | hermes/protocols/serial.py:59-67 | answers the line `Protocols.ReadLine` defines, and leaves unread exactly the bytes after the CR LF |
| SerialTransport.SendDebug | hermes/protocols/serial.py:52-55 | `send([DEBUG])` puts the single byte `#` on the wire |
| SerialTransport.ReadTestLine | hermes/protocols/serial.py:59-67 | T, E, S, T, CR, LF, S gives "TEST" and leaves the S unread |
| EthernetTransport.FirstFailure | hermes/protocols/ethernet.py:58-59 | the number of reads before the first failing `recv` |
| EthernetTransport.LineOutcomeReliable | hermes/protocols/ethernet.py:56-64 | over reads that never fail, the ethernet `read_line` answers what the serial one does |
| EthernetTransport.LineBeforeFailure | hermes/protocols/ethernet.py:56-64 | a line completed before a failing read is returned; a failure before the line completes escapes as a socket error |
| EthernetTransport.EthernetProtocol.constructor | hermes/protocols/ethernet.py:17-25 | a new ethernet protocol is not open |
| EthernetTransport.EthernetProtocol.Open | hermes/protocols/ethernet.py:27-32 | a reachable address opens it; an unreachable one raises HermesError and leaves the flag unchanged |
| EthernetTransport.EthernetProtocol.Close | hermes/protocols/ethernet.py:34-36 | `close` always leaves it closed |
| EthernetTransport.EthernetProtocol.ReadByte | hermes/protocols/ethernet.py:41-47 | retries through failing and empty reads and returns the first byte received |
| EthernetTransport.EthernetProtocol.Send | hermes/protocols/ethernet.py:49-54 | sends the data unchanged; a socket error is swallowed |
| EthernetTransport.EthernetProtocol.ReadLine | hermes/protocols/ethernet.py:56-64 | the right-stripped line up to the first CR LF, or the socket error of a read that fails first; the bytes after the line stay unread |
| EthernetTransport.ScanUntilFailure | hermes/protocols/ethernet.py:58-63 | the read loop stops at the first CR LF or the first failing read, and its result is the line outcome |
| EthernetTransport.OpenCloseCycle | hermes/protocols/ethernet.py:25-36 | closed after construction, open after a successful `open`, still closed after a failed one, closed after `close` |
| LegacySerial.SerialProtocol.constructor | backend/hermes/core/protocols/usbserial.py:39-44 | a new protocol is closed and has written nothing |
| LegacySerial.SerialProtocol.Open | backend/hermes/core/protocols/usbserial.py:46-62 | an unavailable port raises ProtocolException |
| LegacySerial.SerialProtocol.Close | backend/hermes/core/protocols/usbserial.py:64-65 | `close` leaves the port closed |
| LegacySerial.SerialProtocol.ReadCommand | backend/hermes/core/protocols/usbserial.py:70-75 | skips empty reads and decodes the first byte as a `CommandCode`, ValueError for an unknown byte; only that byte is consumed |
| LegacySerial.SerialProtocol.SendCommand | backend/hermes/core/protocols/usbserial.py:77-80 | writes `[code] ++ args` in one write exactly when every argument is a byte and the write succeeds; ValueError for an argument that is not a byte, the write's exception otherwise, and nothing written in either case |
| LegacySerial.SerialProtocol.ReadLine | backend/hermes/core/protocols/usbserial.py:82-90 | the right-stripped line up to the first CR LF, leaving the bytes after it unread |
| LegacySerial.Decode | backend/hermes/core/protocols/usbserial.py:75 | `CommandCode(b)` succeeds exactly for a member's byte, giving that member |
| LegacySerial.Hear | backend/hermes/core/protocols/usbserial.py:201-208 | what one listener iteration makes of the bytes: an undecodable byte, an unregistered code, a starved read, or a handled command with the bytes it left |
| LegacySerial.Listen | backend/hermes/core/protocols/usbserial.py:196-213 | with the exit flag clear, the listener never stops by itself; it blocks or dies |
| LegacySerial.ListenCountsAcks | backend/hermes/core/protocols/usbserial.py:210-211 | over registered codes that read no payload, the listener releases one permit per ACK and none for other codes, then blocks |
| LegacySerial.CommandListenerThread.constructor | backend/hermes/core/protocols/usbserial.py:182-194 | the thread starts listening with the given permits and the exit flag clear |
| LegacySerial.CommandListenerThread.Step | backend/hermes/core/protocols/usbserial.py:199-211 | the exit flag stops it; otherwise one command is read and dispatched, one permit is released exactly for ACK, and an unknown byte or code kills the thread |
| LegacySerial.CommandListenerThread.Run | backend/hermes/core/protocols/usbserial.py:196-213 | the loop releases exactly as many permits as ACKs it dispatches before it blocks or dies |
| LegacySerial.ReadHash | backend/hermes/core/protocols/usbserial.py:70-75 | reading `#` gives DEBUG |
| LegacySerial.SendDebug | backend/hermes/core/protocols/usbserial.py:77-80 | `send_command(DEBUG)` writes the single byte `#` |
| Boards.Values | hermes/boards/__init__.py:170 | the devices of a dict, in iteration order |
| Boards.UntilError | hermes/boards/__init__.py:170-174 | the patch loop never writes more frames than there are devices |
| Boards.UntilErrorIsPrefix | hermes/boards/__init__.py:170-174 | the frames written are exactly those built before the first failure, in order; the loop stops early exactly when a frame fails, with that frame's exception |
| Boards.PatchFrames | hermes/boards/__init__.py:170-172 | one patch frame per device, in device order |
| Boards.PatchFramesInOrder | hermes/boards/__init__.py:170-172 | the i-th patch frame is PATCH followed by the i-th device's `as_playload()`, and fails exactly when that does, with its exception |
| Boards.NewOutputPatchFrame | hermes/boards/__init__.py:170-172 | a new boolean output is patched as `[20, 2, 41, id]`, without its pin and default, where the settings frame would fail with TypeError on the default None |
| Boards.HandshakeWrites | hermes/boards/__init__.py:162-174 | the handshake writes `[HANDSHAKE, n]`, then the patch frames up to the first that cannot be built; ValueError before any write when `n` is not a byte; TypeError and nothing written when writes to the port fail |
| Boards.FailingWritesWriteNothing | hermes/boards/__init__.py:162-174 | when every write fails, the write loop writes nothing and stops at its first frame, with TypeError when the frame was built and with the frame's own exception otherwise |
| Boards.Hear | hermes/boards/__init__.py:180-183 | reading one command: an undecodable byte, a code without handler, a starved read, or a handled command with the bytes it left |
| Boards.AckScan | hermes/boards/__init__.py:176-185 | the wait for ACK ends with the bytes left unread, or with a timeout or an uncaught ValueError |
| Boards.AckScanReadsAck | hermes/boards/__init__.py:178 | the wait only ends after reading an ACK byte |
| Boards.AckScanSkipsUnhandled | hermes/boards/__init__.py:184-185 | a code without a handler, other than ACK, is swallowed and the wait goes on |
| Boards.AckScanStopsAtAck | hermes/boards/__init__.py:178-183 | an ACK byte ends the wait at once |
| Boards.HandshakeResult | hermes/boards/__init__.py:153-185 | the handshake fails with the first failure to build or to write a frame, else ends as the wait for ACK does |
| Boards.Board.constructor | hermes/boards/__init__.py:60-91 | given two dicts (distinct keys), a new board is disconnected, with an empty queue of capacity 4, 5 permits, the exit flag clear and both threads idle, and one `as_playload` patch frame per device of `actions` updated with `inputs` |
| Boards.Board.InFlightBound | hermes/boards/__init__.py:241-311 | frames written minus ACKs processed is at most 5 plus the permits `close` released, so at most 5 before any `close`; a frame whose write failed takes a permit that never comes back |
| Boards.Board.ReadCommand | hermes/boards/__init__.py:298-308 | reading one command does what `Hear` says and consumes exactly the bytes it reports read |
| Boards.Board.WritePatches | hermes/boards/__init__.py:162-174 | the header and the `as_playload()` patch frames are written directly to the protocol, never through the queue, as `HandshakeWrites` says, including the TypeError of a failing write |
| Boards.Board.WriteFrames | hermes/boards/__init__.py:170-174 | the loop writes the frames before the first that cannot be built or written, and returns that frame's exception or the TypeError of the failed write |
| Boards.Board.AwaitAck | hermes/boards/__init__.py:176-185 | the read loop ends as `AckScan` says, leaving unread the bytes after the ACK |
| Boards.Board.Handshake | hermes/boards/__init__.py:153-185 | the writes, then the wait, with the outcome of `HandshakeResult`; a failing write ends it with TypeError before any read |
| Boards.Board.Close | hermes/boards/__init__.py:138-151 | every call closes the protocol, sets the exit flag, releases exactly one permit, leaves the board disconnected and returns True |
| Boards.Board.Open | hermes/boards/__init__.py:93-129 | a port that cannot be opened raises; a handshake timeout closes the board and gives False; any other handshake exception, the TypeError of a failing write among them, escapes and leaves the connection flag, permits and ledger as they were; success starts both threads and connects without touching the permits |
| Boards.Board.AfterHandshake | hermes/boards/__init__.py:113-129 | after the handshake: a timeout closes and gives False, another exception escapes, a second start raises RuntimeError, and success connects |
| Boards.Board.Send | hermes/boards/__init__.py:187-193 | `send` appends the frame at the tail of the queue unless it is full, changing nothing else |
| Boards.Board.SenderStep | hermes/boards/__init__.py:241-259 | the sender stops on the exit flag, waits without a permit, gives the permit back on an empty queue, and otherwise writes the head frame (FIFO) with one permit; a failing write kills the thread with TypeError, keeping the permit and losing the frame |
| Boards.Board.ListenerStep | hermes/boards/__init__.py:293-313 | the listener stops on the exit flag; otherwise it reads one command, releases one permit exactly for a handled ACK, and dies on an undecodable byte or unknown code |
| Boards.Board.Process | hermes/boards/__init__.py:304-311 | a dispatched ACK releases exactly one permit; other codes leave the count unchanged |
| Boards.SetValue | hermes/devices/__init__.py:120-129 | an unconnected board is opened first, and DeviceError is raised when that gives False while any exception of `open` (a failing write's TypeError among them) escapes; then exactly one frame `[MUTATION, id] ++ value` is queued |
| Boards.HandshakeOfNoDevices | hermes/boards/__init__.py:162-185 | with no devices the handshake writes `[12, 0]` alone, and one ACK byte ends it |
| Boards.HandshakeWithAck | hermes/boards/__init__.py:93-129 | a board with no devices whose port answers ACK writes `[12, 0]` and gets connected |
| Boards.SilentBoard | hermes/boards/__init__.py:115-120 | a silent port makes the handshake time out; `open` closes the board and returns False |
| Boards.DeafBoard | hermes/boards/__init__.py:93-129 | a port whose writes fail makes `open` raise TypeError at the handshake header; nothing is written and the board is not connected |
| KeyValueMaps.Position | arduino/helper/map.h:164-173 | the index of the first pair with the key, -1 exactly when there is none |
| KeyValueMaps.Lookup | arduino/helper/map.h:137-139 | the value stored under the key, None exactly when the key is absent |
| KeyValueMaps.LookupAfterAdd | arduino/helper/map.h:68-77 | after a new key is put at the head, it finds its value and every other key finds what it found before |
| KeyValueMaps.PositionAfterAdd | arduino/helper/map.h:72-76 | a pair added at the head is at position 0 and every earlier pair moves one position later |
| KeyValueMaps.Pair.constructor | arduino/helper/map.h:21 | a new pair holds its key and value and links to nothing |
| KeyValueMaps.KeyValueMap.constructor | arduino/helper/map.h:37 | a new map is empty with a NULL head |
| KeyValueMaps.KeyValueMap.Count | arduino/helper/map.h:41-43 | `count()` is the number of pairs in the chain, below 256 |
| KeyValueMaps.KeyValueMap.GetPosition | arduino/helper/map.h:164-173 | the index of the only pair with the key, -1 when there is none; keys are unique |
| KeyValueMaps.KeyValueMap.Find | arduino/helper/map.h:113-122 | `operator[]` gives the pair with the key, NULL exactly when there is none |
| KeyValueMaps.KeyValueMap.GetValue | arduino/helper/map.h:137-139 | `getValue` as written: the value stored under the key, and a NULL dereference exactly when no pair has the key |
| KeyValueMaps.KeyValueMap.GetValueOrNull | arduino/helper/map.h:124-136 | `getValue` as documented: the value stored under the key, None (NULL) when absent |
| KeyValueMaps.KeyValueMap.Get | arduino/helper/map.h:147-156 | `get(i)` is the i-th pair from the head for i below the count, NULL otherwise |
| KeyValueMaps.KeyValueMap.Add | arduino/helper/map.h:68-77 | a present key is rejected and nothing changes; a new key gives true and is put at the head, with the other pairs kept in order |
| KeyValueMaps.KeyValueMap.Remove | arduino/helper/map.h:85-101 | false on an empty map; a key past the head is unlinked, the others kept in order; the head's key or a missing key reaches a NULL dereference, changing nothing |
| KeyValueMaps.KeyValueMap.PairBefore | arduino/helper/map.h:86-92 | the search loop of `remove` finds the pair before the key's pair exactly when the key is past the head |
| KeyValueMaps.KeyValueMap.Clear | arduino/helper/map.h:48-56 | `clear` leaves the map empty with a NULL head |
| KeyValueMaps.GetValueAsWritten | arduino/helper/map.h:137-139 | `getValue` as written gives a value exactly for a present key, and that key's value |
| KeyValueMaps.GetValueOfMissingKey | arduino/helper/map.h:137-139 | as written, a missing key dereferences NULL where None was intended |
| KeyValueMaps.FirstAddWins | arduino/helper/map.h:68-71 | adding a key twice keeps the first value; a missing key dereferences NULL as written and reads as None as documented |
| FirmwareDevice.ToUint8 | arduino/devices/AbstractDevice.h:29 | conversion to `uint8_t` keeps a byte, shrinks a larger value, and is congruent modulo 256 |
| FirmwareDevice.Minus32 | arduino/devices/AbstractDevice.h:148 | `uint32_t` subtraction gives the difference that, added back modulo 2^32, yields `a` |
| FirmwareDevice.TickDueAcrossWraparound | arduino/devices/AbstractDevice.h:147-149 | across clock wraparound, a tick is due exactly when the elapsed time reaches the delay |
| FirmwareDevice.Fill | arduino/helper/ioserial.h:102-112 | `read_bytes` puts the bytes in the first cells, in order, and leaves the rest of the buffer as it was |
| FirmwareDevice.AbstractDevice.constructor | arduino/devices/AbstractDevice.h:27-36 | the buffer holds the expected size when positive and 255 bytes otherwise; the effective size is the expected size as `uint8_t`; the id is 0 |
| FirmwareDevice.AbstractDevice.UpdateSettings | arduino/devices/AbstractDevice.h:69-73 | the id is taken from the first settings byte while it is 0 and never changes afterwards |
| FirmwareDevice.AbstractDevice.Update | arduino/devices/AbstractDevice.h:78-84 | `doUpdate` runs and the time is recorded exactly when a tick is due; otherwise nothing changes |
| FirmwareDevice.AbstractDevice.ReceivePayload | arduino/devices/AbstractDevice.h:121-136 | a variable size is read from a first byte, otherwise the expected size as `uint8_t`; then exactly that many bytes fill the start of the buffer; the size always fits the buffer |
| FirmwareDevice.ReceiveSizedFrame | arduino/devices/AbstractDevice.h:125-136 | a variable-size device reading `3 7 8 9 42` takes size 3 and data `7 8 9`, leaving `42` |
| FirmwareDevice.EveryUpdateRuns | arduino/devices/AbstractDevice.h:78-84 | with the default delay 0, every `update()` runs, whatever the clock reads |
| FirmwareDevice.IdSetOnce | arduino/devices/AbstractDevice.h:69-73 | the id is set by the first settings and kept by later ones |
| FirmwareCommand.UntilEndOfLine | arduino/helper/ioserial.h:120-122 | the bytes before the first END_OF_LINE, which is consumed, and what follows; None exactly when no END_OF_LINE arrives |
| FirmwareCommand.LineRoundTrip | arduino/helper/ioserial.h:120-122 | a line sent with END_OF_LINE after it is read back whole, and nothing after it is taken |
| FirmwareCommand.AbstractCommand.constructor | arduino/commands/AbstractCommand.h:39-45 | a buffer only for a positive expected size; the effective size is the expected size as a 16-bit `unsigned int` |
| FirmwareCommand.AbstractCommand.Receive | arduino/commands/AbstractCommand.h:67-80 | positive size: exactly that many bytes (as `uint8_t`) into the buffer; negative: a new buffer holding exactly the line, with the line's length as effective size; 0: nothing read |
| FirmwareCommand.ReceiveLinePayload | arduino/commands/AbstractCommand.h:71-79 | a line command receiving `5 6`, END_OF_LINE, `99` holds `5 6`, size 2, and leaves `99` |
| FirmwareRegistries.CommandFactory.constructor | arduino/commands/CommandFactory.h:37-40 | the singleton instance starts with no registered command |
| FirmwareRegistries.CommandFactory.RegisterCommand | arduino/commands/CommandFactory.h:50-52 | true and recorded exactly when the code is new; otherwise false and nothing changes, so the first registration wins |
| FirmwareRegistries.CommandFactory.CreateCommand | arduino/commands/CommandFactory.h:65-69 | as written: a NULL dereference exactly for an unregistered code, before the NULL test; otherwise a new command built by the code's callback |
| FirmwareRegistries.CommandFactory.CreateCommandOrNull | arduino/commands/CommandFactory.h:54-69 | as the NULL test intends: NULL exactly for an unregistered code; otherwise a new command built by the code's callback |
| FirmwareRegistries.DeviceFactory.constructor | arduino/devices/DeviceFactory.h:30-33 | the singleton instance starts with no registered device |
| FirmwareRegistries.DeviceFactory.RegisterDevice | arduino/devices/DeviceFactory.h:43-45 | true exactly when the code is new; a duplicate is rejected unchanged |
| FirmwareRegistries.DeviceFactory.CreateDevice | arduino/devices/DeviceFactory.h:67-73 | NULL exactly for an unregistered code; otherwise a new device of the callback's payload size, with id 0 |
| FirmwareRegistries.DeviceFactory.GetDeviceType | arduino/devices/DeviceFactory.h:53-59 | behaves as `createDevice` |
| FirmwareRegistries.DeviceManager.constructor | arduino/devices/DeviceManager.h:23-26 | the singleton instance starts with no device |
| FirmwareRegistries.DeviceManager.GetHead | arduino/devices/DeviceManager.h:33-35 | the head pair is the device added last; NULL when none was added |
| FirmwareRegistries.DeviceManager.AddDevice | arduino/devices/DeviceManager.h:43-45 | the device is stored under its id; a taken id gives false and no change |
| FirmwareRegistries.DeviceManager.GetDevice | arduino/devices/DeviceManager.h:52-54 | as written: the device stored under the id, a NULL dereference exactly when there is none |
| FirmwareRegistries.DeviceManager.GetDeviceOrNull | arduino/devices/DeviceManager.h:47-54 | as documented: the device stored under the id, None (NULL) when there is none |
| FirmwareRegistries.RunnableManager.constructor | arduino/commands/CommandManager.h:23-26 | the singleton instance holds no runnable |
| FirmwareRegistries.RunnableManager.ClearCommands | arduino/commands/CommandManager.h:31-33 | no runnable is left |
| FirmwareRegistries.RunnableManager.AddCommand | arduino/commands/CommandManager.h:50-52 | keyed by id; a taken id is rejected without change |
| FirmwareRegistries.RunnableManager.GetCommand | arduino/commands/CommandManager.h:59-61 | as written: the runnable added under the id, a NULL dereference exactly when there is none |
| FirmwareRegistries.RunnableManager.GetCommandOrNull | arduino/commands/CommandManager.h:54-61 | as documented: the runnable added under the id, None (NULL) when there is none |
| FirmwareRegistries.FirstCommandRegistrationWins | arduino/commands/CommandFactory.h:50-52 | registering a code twice keeps the first callback |
| FirmwareRegistries.AddedDeviceFound | arduino/devices/DeviceManager.h:43-54 | a device added under its id is found under that id and is the head |
| FirmwareRegistries.UnknownDeviceFaults | arduino/devices/DeviceManager.h:47-54 | asking a manager that knows no device for one dereferences NULL as written, where the documentation promises NULL |
| FirmwareCommands.ExecuteSettings | arduino/commands/SettingsCommand.h:29-61 | as written: an unknown device code or a known id leaves the manager unchanged with nothing created; a known code with an id not yet known dereferences NULL in `getDevice`, and nothing is added |
| FirmwareCommands.ExecuteSettingsIntended | arduino/commands/SettingsCommand.h:29-61 | as the NULL test on `getDevice` intends: an unknown device code or a known id leaves the manager unchanged; otherwise a new device of that code, with id `payload[1]`, is the manager's one new entry |
| FirmwareCommands.ReceiveAndProcessNextCommand | arduino/helper/commands.h:22-41 | as written: no packet: nothing read or sent; otherwise one code byte is read; an unregistered code dereferences NULL in `createCommand` and sends nothing; a registered one is processed once and exactly one ACK is sent |
| FirmwareCommands.ReceiveAndProcessNextCommandIntended | arduino/helper/commands.h:22-41 | as the NULL test intends: the same, except that an unregistered code is dropped without ACK |
| FirmwareCommands.SettingsAcknowledged | arduino/helper/commands.h:22-41 | a board that registered SETTINGS answers its code with one ACK byte (11) after processing it |
| FirmwareCommands.UnregisteredCodeFaults | arduino/helper/commands.h:29-33 | a code nobody registered dereferences NULL as written and is dropped as intended; neither sends an ACK |
| FirmwareCommands.FirstSettingsFaults | arduino/commands/SettingsCommand.h:49 | as written, the first SETTINGS for a device of a registered class dereferences NULL and adds no device |
| FirmwareCommands.SettingsAddsDeviceOnce | arduino/commands/SettingsCommand.h:25-64 | as intended, the SETTINGS payload adds a device under the id it names, and the same payload again adds nothing |

## Left out

- Threads, locks, events, semaphores, `func_set_timeout`, `time.sleep` and `join` are left out. The two board threads and the older listener are atomic steps taken in any order. A timeout is the input running out (`FunctionTimedOut`, or None for a read still waiting).
- Re-opening a board after `close` is left out: the exit flag is never cleared and Python threads cannot be restarted. `Board.Open` only reports RuntimeError for a second start.
- Boards.Board.Open: the two-second sleep before the handshake is not modelled.
- Boards.Board.Open: the `except ProtocolException` branch (hermes/boards/__init__.py:103-106) is never taken: hermes/protocols/__init__.py defines only `ProtocolError`, so a port that cannot be opened always escapes. The model also takes the import of `ProtocolException` at :33 as resolving, although hermes/protocols/__init__.py does not define it.
- Boards.AckScan: the handshake's `except HermesException` (hermes/boards/__init__.py:184) is taken to catch the `CommandError` of a code without a handler. `CommandError` derives from `HermesError` (hermes/commands/__init__.py:27), and the board imports `HermesException` from hermes/core/helpers.py (:29), which as it stands defines neither class; the model takes `HermesError` to be, or to derive from, `HermesException`.
- Serial ports, sockets and `get_serial_ports` are left out. A port is described by whether it opens, the answers of its reads, and whether writes fail.
- The firmware IO layers (`arduino/helper/ioserial.h`, `arduino/protocols/io_serial.h`, `arduino/protocols/io_ethernet.h`) and the debuggers are left out. The firmware input is the byte sequence that arrives, and None means it ran out.
- FirmwareDevice.AbstractDevice.ReceivePayload: the timeout of `wait_for_bytes` is not modelled; a payload whose bytes do not all arrive is a read that never completes. So is the dead `byte < 0` check in `read_bytes`.
- FirmwareCommand.UntilEndOfLine: the timeout of `readStringUntil`, which returns a partial line, is not modelled; an input without END_OF_LINE is a read that never completes.
- FirmwareDevice.AbstractDevice.constructor: `time_of_last_update_` is never initialised by the source; the model starts it at 0.
- FirmwareCommand.AbstractCommand.constructor: for an expected size of 0 or less the source leaves `payload_` unset; the model gives an empty buffer.
- Memory management is left out: `free` of `new[]` memory, leaked buffers, and `RunnableManager::getCommands`, whose shallow copy would be freed twice.
- KeyValueMaps.KeyValueMap.Add requires fewer than 255 pairs, so the `uint8_t` counter `size_` never wraps. The registry methods `RegisterCommand`, `RegisterDevice`, `AddDevice`, `AddCommand` and `ExecuteSettingsIntended` inherit that requirement.
- KeyValueMaps.KeyValueMap.Remove is modelled as written. The head's key or a missing key gives the `NullDereference` outcome with the map unchanged; what the board does after dereferencing NULL is not modelled.
- `map.h`'s `getHead` is not part of this model; `DeviceManager.GetHead` reads the map's `head` field.
- FirmwareCommands.ExecuteSettings requires a payload of at least two bytes; the source reads `payload[0]` and `payload[1]` unchecked. So does `ExecuteSettingsIntended`.
- The `NullDereference` outcomes of `GetValue`, `CreateCommand`, `GetDevice`, `GetCommand`, `ExecuteSettings` and `ReceiveAndProcessNextCommand` end the model's run; what the board does after dereferencing NULL is not modelled.
- FirmwareDevice.AbstractDevice.UpdateSettings requires at least one settings byte; the source reads `payload[0]` unchecked.
- The firmware's `MessageCode::SETTINGS` is referenced by `SettingsCommand.h` but is not in `arduino/helper/dictionary.h`. `SettingsAcknowledged` takes the code as a parameter.
- `updateFromPayload`, which `SettingsCommand.h` calls, is not declared on `AbstractDevice`. The model uses `updateSettings`.
- `AbstractCommand` declares no `getId`, which `RunnableManager::addCommand` calls; `AddCommand` takes the id as a parameter.
- `process()` of a received firmware command is virtual and not visible; `ReceiveAndProcessNextCommand` reports the command it processed. Firmware command and device plugins whose only effect is on pins, delays or raw writes are not part of this model.
- The `getInstance()` singletons are one object per registry. The host `MetaSingleton` is `Struct.Singleton`, shown on the command factory by `Commands.FactoryIsSingleton`.
- The host handler plugins are table entries: a code, a name and what their `receive` reads. Their `process` only logs. The older generation's plugins are likewise entries.
- Plugin construction and registration in the older host are taken as given. Its `AbstractCommand.__init__` calls `super().__init__()` without the `name` that `AbstractPlugin.__init__` requires (backend/hermes/core/plugins.py:54), and `MetaPluginType` gives every plugin kind one shared list; the model's factories take their plugin lists as parameters.
- `backend/hermes/core/struct.py` has the same behaviour as `hermes/core/struct.py` (lines 7-55 against 12-61). `Struct` models both.
- The older host's boards and devices (`backend/hermes/core/boards`, `backend/hermes/core/devices`) cannot be constructed and are not part of this model. The older `send` is modelled against the board interface it uses (`connected`, `open()`, `send`).
- Boards.SetValue: the device's `state` is not updated, as in the source; board lookup through the settings store is replaced by passing the board.
- Struct.ClearableQueue.Put: blocking on a full queue is modelled as returning false with nothing changed (the caller still waiting).
- GUI, web, API, configuration, storage, CLI, logging, plugin discovery and entry points are left out as plumbing around the core.

## Findings

| source | as written | input that shows it | evidently intended | confidence | as-written member | corrected member |
|---|---|---|---|---|---|---|
| hermes/devices/__init__.py:117 | `as_playload` calls `_encode_data`, which the boolean devices do not define (they define `_encode_settings`), so their handshake frame carries no settings | a boolean output with id 3, pin 5, default 1 gives `[2, 41, 3]` | the frame carries the device's settings: `[4, 41, 3, 5, 1]` | not executed | Devices.OutputFrameAsWritten | Devices.OutputFrameIntended |
| arduino/helper/map.h:137-139 | `getValue` returns `(*this)[key]->value`, dereferencing NULL when the key is absent, though it is documented to return NULL and `createCommand` tests its result for NULL | `getValue(5)` on an empty map | NULL (None) for a key that is not there | not executed | KeyValueMaps.GetValueOfMissingKey | KeyValueMaps.KeyValueMap.GetValueOrNull |
| arduino/commands/SettingsCommand.h:49 | `getDevice(payload[1])` goes through `getValue`, so for an id not yet known, which is every device's first SETTINGS, it dereferences NULL before the `existingDevice != NULL` test and the device is never created | SETTINGS payload `41 7 13` with device class 41 registered and no device known | `getDevice` answers NULL and the device is created under id 7 | not executed | FirmwareCommands.FirstSettingsFaults | FirmwareCommands.SettingsAddsDeviceOnce |
| arduino/commands/CommandFactory.h:66 | `createCommand` calls `getValue` before its NULL test, so an unregistered code dereferences NULL instead of being dropped by `receive_and_process_next_command` | any code byte on a board with no command registered under it | the VOID command for an unknown code, as the function's own doc (arduino/commands/CommandFactory.h:58-59) promises; at least a NULL that the caller drops without ACK | not executed | FirmwareCommands.UnregisteredCodeFaults | FirmwareCommands.ReceiveAndProcessNextCommandIntended |
