/** The current host's devices (`hermes/devices`): what a device is, the
    frames that describe it and change its value, and the `DeviceFactory`
    singleton that keeps one device per code. */
module Devices {
  import opened Base
  import opened Dictionary
  import OrderedTable
  import Boolean
  import Servo

  /** The device plugins and the fields each adds to the base class. */
  datatype Kind =
    | BooleanOutput(pin: int)
    | BooleanInput
    | ServoMotor(settings: Servo.ServoSettings)

  /** A device: plugin id, name, `default` and current `state` (None is
      Python's None), and its kind. */
  datatype Device = Device(id: int, name: string, default: Option<int>, state: Option<int>, kind: Kind)

  /** `AbstractDevice.__init__(default)`: the state starts at the default. */
  function NewDevice(id: int, name: string, default: Option<int>, kind: Kind): (d: Device)
    ensures d.state == d.default == default
    ensures d.id == id && d.name == name && d.kind == kind
  {
    Device(id, name, default, default, kind)
  }

  /** The constructors of the three plugins: the boolean devices keep the
      base default None, the output drives pin 0, the servo passes 0 as its
      default and takes the servo defaults. */
  function NewBooleanOutput(id: int, name: string): (d: Device)
    ensures d.default.None? && d.state.None? && d.kind == BooleanOutput(0)
  {
    NewDevice(id, name, None, BooleanOutput(Boolean.DefaultPin))
  }

  function NewBooleanInput(id: int, name: string): (d: Device)
    ensures d.default.None? && d.state.None? && d.kind == BooleanInput
  {
    NewDevice(id, name, None, BooleanInput)
  }

  function NewServo(id: int, name: string): (d: Device)
    ensures d.default == d.state == Some(0)
    ensures d.kind.ServoMotor? && d.kind.settings.pin == 0 && d.kind.settings.tmax == 180 && d.kind.settings.speed == -1
  {
    NewDevice(id, name, Some(Servo.DefaultValue), ServoMotor(Servo.Defaults))
  }

  /** The `code` property of each plugin. */
  function Code(d: Device): (c: MessageCode)
    ensures d.kind.BooleanOutput? <==> c == BOOLEAN_OUTPUT
    ensures d.kind.BooleanInput? <==> c == BOOLEAN_INPUT
    ensures d.kind.ServoMotor? <==> c == SERVO
  {
    match d.kind
    case BooleanOutput(_) => BOOLEAN_OUTPUT
    case BooleanInput => BOOLEAN_INPUT
    case ServoMotor(_) => SERVO
  }

  /** `_encode_data()` as the code dispatches it: the boolean plugins define
      `_encode_settings` but not `_encode_data`, so they get the base
      class's empty encoding; only the servo overrides it. */
  function EncodeData(d: Device): (r: Result<seq<byte>>)
    ensures !d.kind.ServoMotor? ==> r == Ok([])
    ensures d.kind.ServoMotor? ==> r == Servo.EncodeData(d.kind.settings, d.default)
  {
    match d.kind
    case BooleanOutput(_) => Ok([])
    case BooleanInput => Ok([])
    case ServoMotor(s) => Servo.EncodeData(s, d.default)
  }

  /** The settings each plugin evidently means to describe itself with: the
      boolean plugins' `_encode_settings`, the servo's `_encode_data`. */
  function EncodeSettings(d: Device): (r: Result<seq<byte>>)
    ensures d.kind.BooleanOutput? ==> r == Boolean.OutputSettings(d.kind.pin, d.default)
    ensures d.kind.BooleanInput? ==> r == Ok([])
    ensures d.kind.ServoMotor? ==> r == EncodeData(d)
  {
    match d.kind
    case BooleanOutput(pin) => Boolean.OutputSettings(pin, d.default)
    case BooleanInput => Ok([])
    case ServoMotor(s) => Servo.EncodeData(s, d.default)
  }

  /** `_encode_value(value)` of each plugin: one byte for the output, none
      for the input, two unsigned big-endian bytes for the servo. */
  function EncodeValue(d: Device, value: int): (r: Result<seq<byte>>)
    ensures d.kind.BooleanOutput? ==> r == Boolean.OutputValue(value)
    ensures d.kind.BooleanInput? ==> r == Ok([])
    ensures d.kind.ServoMotor? ==> r == Servo.EncodeValue(Some(value), false)
  {
    match d.kind
    case BooleanOutput(_) => Boolean.OutputValue(value)
    case BooleanInput => Ok([])
    case ServoMotor(_) => Servo.EncodeValue(Some(value), false)
  }

  /** The body of `as_playload`: header `[code, id]`, then the data, then
      the size byte `len(data) + 2` in front. Building the header fails first
      (an id that is not a byte), then the data, then the size. */
  function Framed(code: MessageCode, id: int, data: Result<seq<byte>>): (r: Result<seq<byte>>)
    ensures r.Ok? <==> 0 <= id < 256 && data.Ok? && |data.value| <= 253
    ensures r.Ok? ==> |r.value| == |data.value| + 3 && r.value[0] == |r.value| - 1
    ensures r.Ok? ==> r.value[1] == code.Value() && r.value[2] == id && r.value[3..] == data.value
    ensures !(0 <= id < 256) ==> r == Err(ValueError)
    ensures 0 <= id < 256 && data.Err? ==> r == data
    ensures 0 <= id < 256 && data.Ok? && |data.value| > 253 ==> r == Err(ValueError)
  {
    assert [code.Value(), id][1] == id;
    var header :- ToBytes([code.Value(), id]);
    var bytes :- data;
    var size :- ToBytes([|bytes| + 2]);
    assert header[1] == id && size[0] == |bytes| + 2;
    Ok(size + header + bytes)
  }

  /** How a frame is read back: the size byte, then that many bytes, of
      which the first two are the code and the id. */
  function ParseFrame(bs: seq<byte>): (r: Option<(byte, byte, seq<byte>)>)
    ensures r.Some? <==> 3 <= |bs| && bs[0] == |bs| - 1
  {
    if 3 <= |bs| && bs[0] == |bs| - 1 then Some((bs[1], bs[2], bs[3..])) else None
  }

  /** A frame reads back as the code, id and data it was built from. */
  lemma ParseFramed(code: MessageCode, id: int, data: Result<seq<byte>>)
    requires Framed(code, id, data).Ok?
    ensures ParseFrame(Framed(code, id, data).value) == Some((code.Value(), id, data.value))
  {
  }

  /** A frame is determined by what it reads back as: two frames that parse
      alike are equal. */
  lemma FrameInjective(a: seq<byte>, b: seq<byte>)
    requires ParseFrame(a).Some? && ParseFrame(a) == ParseFrame(b)
    ensures a == b
  {
    assert a == [a[0], a[1], a[2]] + a[3..];
    assert b == [b[0], b[1], b[2]] + b[3..];
  }

  /** `as_playload()` as written: the frame around `_encode_data()`. */
  function AsPlayload(d: Device): (r: Result<seq<byte>>)
    ensures r.Ok? <==> 0 <= d.id < 256 && EncodeData(d).Ok? && |EncodeData(d).value| <= 253
    ensures r.Ok? ==> |r.value| == |EncodeData(d).value| + 3 && r.value[0] == |r.value| - 1
    ensures r.Ok? ==> r.value[1] == Code(d).Value() && r.value[2] == d.id && r.value[3..] == EncodeData(d).value
  {
    Framed(Code(d), d.id, EncodeData(d))
  }

  /** The frame the handshake and a settings change evidently mean to send:
      the frame around the settings of `EncodeSettings`. */
  function SettingsFrame(d: Device): (r: Result<seq<byte>>)
    ensures r.Ok? <==> 0 <= d.id < 256 && EncodeSettings(d).Ok? && |EncodeSettings(d).value| <= 253
    ensures r.Ok? ==> |r.value| == |EncodeSettings(d).value| + 3 && r.value[0] == |r.value| - 1
    ensures r.Ok? ==> r.value[1] == Code(d).Value() && r.value[2] == d.id && r.value[3..] == EncodeSettings(d).value
  {
    Framed(Code(d), d.id, EncodeSettings(d))
  }

  /** As written, a boolean output describes itself without its pin and
      default: its frame is `[2, 41, id]`. */
  lemma OutputFrameAsWritten(d: Device)
    requires d.kind.BooleanOutput? && 0 <= d.id < 256
    ensures AsPlayload(d) == Ok([2, 41, d.id])
  {
    assert EncodeData(d) == Ok([]);
    var f := AsPlayload(d).value;
    var expected: seq<byte> := [2, 41, d.id];
    assert |f| == 3 && f[0] == 2 && f[1] == 41 && f[2] == d.id;
    assert f == expected;
  }

  /** With its settings, the frame carries pin and default:
      `[4, 41, id, pin, default]`. */
  lemma OutputFrameIntended(d: Device)
    requires d.kind.BooleanOutput? && 0 <= d.id < 256 && 0 <= d.kind.pin < 256
    requires d.default.Some? && 0 <= d.default.value < 256
    ensures SettingsFrame(d) == Ok([4, 41, d.id, d.kind.pin, d.default.value])
  {
    var settings := EncodeSettings(d).value;
    assert settings == [d.kind.pin, d.default.value] by {
      assert [d.kind.pin, d.default.value][1] == d.default.value;
    }
    var f := SettingsFrame(d).value;
    var expected: seq<byte> := [4, 41, d.id, d.kind.pin, d.default.value];
    assert f == [f[0], f[1], f[2]] + f[3..];
    assert f == expected;
  }

  /** The frames differ for every boolean output whose frame can be built:
      the pin and default never reach the board as written. */
  lemma OutputFramesDiffer(d: Device)
    requires d.kind.BooleanOutput? && SettingsFrame(d).Ok?
    ensures AsPlayload(d) != SettingsFrame(d)
  {
  }

  /** A new servo describes itself in 18 bytes, size byte 17:
      pin 0, default 0, 0..180 twice, then -1 twice in two's complement. */
  lemma ServoFrame(id: int, name: string)
    requires 0 <= id < 256
    ensures SettingsFrame(NewServo(id, name)) == AsPlayload(NewServo(id, name))
    ensures AsPlayload(NewServo(id, name)) == Ok([17, 42, id, 0, 0, 0, 0, 0, 0, 180, 0, 0, 0, 180, 255, 255, 255, 255])
  {
    var d := NewServo(id, name);
    Servo.DefaultData();
    var data: seq<byte> := [0, 0, 0, 0, 0, 0, 180, 0, 0, 0, 180, 255, 255, 255, 255];
    assert EncodeData(d) == Ok(data);
    var f := AsPlayload(d).value;
    var head: seq<byte> := [17, 42, id];
    assert f == [f[0], f[1], f[2]] + f[3..];
    assert f == head + data;
    var expected: seq<byte> := [17, 42, id, 0, 0, 0, 0, 0, 0, 180, 0, 0, 0, 180, 255, 255, 255, 255];
    assert head + data == expected;
  }

  /** The body of `set_value` once the board is connected: the frame
      `[MUTATION, id] + _encode_value(value)`; building the header fails
      first, then the value. */
  function MutationFrame(d: Device, value: int): (r: Result<seq<byte>>)
    ensures r.Ok? <==> 0 <= d.id < 256 && EncodeValue(d, value).Ok?
    ensures r.Ok? ==> r.value == [MUTATION.Value(), d.id] + EncodeValue(d, value).value
    ensures !(0 <= d.id < 256) ==> r == Err(ValueError)
    ensures 0 <= d.id < 256 && EncodeValue(d, value).Err? ==> r == EncodeValue(d, value)
  {
    assert [MUTATION.Value(), d.id][1] == d.id;
    var header :- ToBytes([MUTATION.Value(), d.id]);
    var data :- EncodeValue(d, value);
    Ok(header + data)
  }

  /** The mutation frame of a boolean output: `[21, id, value]`. */
  lemma OutputMutationFrame(d: Device, value: int)
    requires d.kind.BooleanOutput? && 0 <= d.id < 256 && 0 <= value < 256
    ensures MutationFrame(d, value) == Ok([21, d.id, value])
  {
    var header: seq<byte> := [21, d.id];
    var data: seq<byte> := [value];
    var expected: seq<byte> := [21, d.id, value];
    assert MutationFrame(d, value).value == header + data;
    assert header + data == expected;
  }

  /** The mutation frame of a boolean input carries no value: `[21, id]`. */
  lemma InputMutationFrame(d: Device, value: int)
    requires d.kind.BooleanInput? && 0 <= d.id < 256
    ensures MutationFrame(d, value) == Ok([21, d.id])
  {
    var header: seq<byte> := [21, d.id];
    assert MutationFrame(d, value).value == header + [];
    assert header + [] == header;
  }

  /** The mutation frame of a servo: `[21, id, hi, lo]` for a position in
      0..65535; a negative position is refused with OverflowError. */
  lemma ServoMutationFrame(d: Device, value: int)
    requires d.kind.ServoMotor? && 0 <= d.id < 256
    ensures 0 <= value <= 65535 ==> MutationFrame(d, value) == Ok([21, d.id, value / 256, value % 256])
    ensures value < 0 ==> MutationFrame(d, value) == Err(OverflowError)
  {
    if 0 <= value <= 65535 {
      Servo.UnsignedIsBigEndian(value);
      var header: seq<byte> := [21, d.id];
      var data: seq<byte> := [value / 256, value % 256];
      var expected: seq<byte> := [21, d.id, value / 256, value % 256];
      assert MutationFrame(d, value).value == header + data;
      assert header + data == expected;
    }
  }

  /** `DeviceFactory`: a dict from code to device, filled by a loop over the
      plugins in definition order. */
  class DeviceFactory {
    const registry: OrderedTable.Registry<MessageCode, Device>

    ghost predicate Valid() {
      registry.Valid() && registry.key == Code
    }

    constructor (plugins: seq<Device>)
      ensures Valid() && registry.items == plugins
    {
      registry := new OrderedTable.Registry(plugins, Code);
    }

    /** `get_by_code`: the last plugin registered under `code`; DeviceError
        when no plugin has that code. */
    function GetByCode(code: MessageCode): (r: Result<Device>)
      requires Valid()
      ensures r.Ok? <==> exists i :: 0 <= i < |registry.items| && Code(registry.items[i]) == code
      ensures r.Ok? ==> Code(r.value) == code
      ensures r.Ok? ==> exists i :: (0 <= i < |registry.items| && registry.items[i] == r.value
                                     && forall j :: i < j < |registry.items| ==> Code(registry.items[j]) != code)
      ensures r.Err? ==> r.error == DeviceError
    {
      match registry.Lookup(code)
      case Some(d) => Ok(d)
      case None => Err(DeviceError)
    }

    /** `get_by_name`: the first stored device with that name; DeviceError
        when none has it. */
    function GetByName(name: string): (r: Result<Device>)
      requires Valid()
      ensures r.Err? <==> forall i :: 0 <= i < |registry.table| ==> registry.table[i].1.name != name
      ensures r.Ok? ==> r.value.name == name && exists i :: 0 <= i < |registry.items| && registry.items[i] == r.value
      ensures r.Ok? ==> exists i :: (0 <= i < |registry.table| && registry.table[i].1 == r.value
                                     && forall j :: 0 <= j < i ==> registry.table[j].1.name != name)
      ensures r.Err? ==> r.error == DeviceError
    {
      match registry.FirstMatching((d: Device) => d.name == name)
      case Some(d) => Ok(d)
      case None => Err(DeviceError)
    }
  }
}
