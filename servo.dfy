/** The current host's servo device (`hermes/devices/servo.py`): its settings
    and the two-byte big-endian encoding of `int.to_bytes(2, 'big', signed)`. */
module Servo {
  import opened Base

  /** The servo fields set by its constructor (besides `default`). */
  datatype ServoSettings = ServoSettings(pin: int, tmin: int, tmax: int, min: int, max: int, speed: int, acceleration: int)

  /** A new servo: pin 0, travel 0..180 in both ranges, speed and
      acceleration -1. Its `default` is 0. */
  const Defaults := ServoSettings(0, 0, 180, 0, 180, -1, -1)
  const DefaultValue := 0

  /** The range `to_bytes(2, ...)` accepts. */
  predicate InRange(v: int, signed: bool) {
    if signed then -32768 <= v <= 32767 else 0 <= v <= 65535
  }

  /** `_encode_value(value, signed)`: `value.to_bytes(2, 'big', signed)`;
      OverflowError outside the range, AttributeError for None. */
  function EncodeValue(value: Option<int>, signed: bool): (r: Result<seq<byte>>)
    ensures r.Ok? <==> value.Some? && InRange(value.value, signed)
    ensures value.None? ==> r == Err(AttributeError)
    ensures value.Some? && !InRange(value.value, signed) ==> r == Err(OverflowError)
    ensures r.Ok? ==> |r.value| == 2
  {
    match value
    case None => Err(AttributeError)
    case Some(v) =>
      if !InRange(v, signed) then Err(OverflowError)
      else
        var u := if v < 0 then v + 65536 else v;
        Ok([u / 256, u % 256])
  }

  /** `int.from_bytes(bs, 'big', signed)` of two bytes. */
  function DecodeValue(bs: seq<byte>, signed: bool): (v: int)
    requires |bs| == 2
    ensures InRange(v, signed)
  {
    var u := bs[0] as int * 256 + bs[1] as int;
    if signed && u >= 32768 then u - 65536 else u
  }

  /** Decoding an encoded value gives it back. */
  lemma DecodeEncode(v: int, signed: bool)
    requires InRange(v, signed)
    ensures EncodeValue(Some(v), signed).Ok?
    ensures DecodeValue(EncodeValue(Some(v), signed).value, signed) == v
  {
  }

  /** Every two bytes are the encoding of exactly one value in range. */
  lemma EncodeDecode(bs: seq<byte>, signed: bool)
    requires |bs| == 2
    ensures EncodeValue(Some(DecodeValue(bs, signed)), signed) == Ok(bs)
  {
    assert bs == [bs[0], bs[1]];
  }

  /** Unsigned encoding is plain big-endian: high byte, then low byte. */
  lemma UnsignedIsBigEndian(v: int)
    requires 0 <= v <= 65535
    ensures EncodeValue(Some(v), false) == Ok([v / 256, v % 256])
  {
  }

  /** Signed encoding is two's complement: -1 is [255, 255], and a negative
      value is the unsigned encoding of `v + 65536`. */
  lemma SignedIsTwosComplement(v: int)
    requires -32768 <= v < 0
    ensures EncodeValue(Some(v), true) == EncodeValue(Some(v + 65536), false)
    ensures EncodeValue(Some(-1), true) == Ok([255, 255])
  {
  }

  /** `_encode_data()`: the pin byte, then default, tmin, tmax, min and max
      unsigned, then speed and acceleration signed, each on two bytes; the
      first field that cannot be encoded raises, in that order. */
  function EncodeData(s: ServoSettings, default: Option<int>): (r: Result<seq<byte>>)
    ensures r.Ok? <==> 0 <= s.pin < 256 && default.Some? && InRange(default.value, false)
                       && InRange(s.tmin, false) && InRange(s.tmax, false) && InRange(s.min, false)
                       && InRange(s.max, false) && InRange(s.speed, true) && InRange(s.acceleration, true)
    ensures r.Ok? ==> |r.value| == 15 && r.value[0] == s.pin
    ensures r.Ok? ==> DecodeValue(r.value[1..3], false) == default.value
    ensures r.Ok? ==> DecodeValue(r.value[3..5], false) == s.tmin && DecodeValue(r.value[5..7], false) == s.tmax
    ensures r.Ok? ==> DecodeValue(r.value[7..9], false) == s.min && DecodeValue(r.value[9..11], false) == s.max
    ensures r.Ok? ==> DecodeValue(r.value[11..13], true) == s.speed && DecodeValue(r.value[13..15], true) == s.acceleration
    ensures !(0 <= s.pin < 256) ==> r == Err(ValueError)
  {
    assert [s.pin][0] == s.pin;
    var pin :- ToBytes([s.pin]);
    var d :- EncodeValue(default, false);
    var tmin :- EncodeValue(Some(s.tmin), false);
    var tmax :- EncodeValue(Some(s.tmax), false);
    var min :- EncodeValue(Some(s.min), false);
    var max :- EncodeValue(Some(s.max), false);
    var speed :- EncodeValue(Some(s.speed), true);
    var acceleration :- EncodeValue(Some(s.acceleration), true);
    var bs := pin + d + tmin + tmax + min + max + speed + acceleration;
    assert bs[1..3] == d && bs[3..5] == tmin && bs[5..7] == tmax && bs[7..9] == min;
    assert bs[9..11] == max && bs[11..13] == speed && bs[13..15] == acceleration;
    DecodeEncodeFields(default.value, s);
    Ok(bs)
  }

  /** The field decodings `EncodeData`'s contract relies on. */
  lemma DecodeEncodeFields(default: int, s: ServoSettings)
    requires InRange(default, false) && InRange(s.tmin, false) && InRange(s.tmax, false) && InRange(s.min, false)
    requires InRange(s.max, false) && InRange(s.speed, true) && InRange(s.acceleration, true)
    ensures DecodeValue(EncodeValue(Some(default), false).value, false) == default
    ensures DecodeValue(EncodeValue(Some(s.tmin), false).value, false) == s.tmin
    ensures DecodeValue(EncodeValue(Some(s.tmax), false).value, false) == s.tmax
    ensures DecodeValue(EncodeValue(Some(s.min), false).value, false) == s.min
    ensures DecodeValue(EncodeValue(Some(s.max), false).value, false) == s.max
    ensures DecodeValue(EncodeValue(Some(s.speed), true).value, true) == s.speed
    ensures DecodeValue(EncodeValue(Some(s.acceleration), true).value, true) == s.acceleration
  {
    DecodeEncode(default, false);
    DecodeEncode(s.tmin, false);
    DecodeEncode(s.tmax, false);
    DecodeEncode(s.min, false);
    DecodeEncode(s.max, false);
    DecodeEncode(s.speed, true);
    DecodeEncode(s.acceleration, true);
  }

  /** A new servo's settings are the fifteen bytes pin 0, default 0, 0..180,
      0..180, then -1 twice. */
  lemma DefaultData()
    ensures EncodeData(Defaults, Some(DefaultValue)) == Ok([0, 0, 0, 0, 0, 0, 180, 0, 0, 0, 180, 255, 255, 255, 255])
  {
    assert ToBytes([0]) == Ok([0]);
    assert EncodeValue(Some(0), false) == Ok([0, 0]);
    assert EncodeValue(Some(180), false) == Ok([0, 180]);
    assert EncodeValue(Some(-1), true) == Ok([255, 255]);
    var parts: seq<byte> := [0] + [0, 0] + [0, 0] + [0, 180] + [0, 0] + [0, 180] + [255, 255] + [255, 255];
    assert EncodeData(Defaults, Some(DefaultValue)).value == parts;
    assert parts == [0, 0, 0, 0, 0, 0, 180, 0, 0, 0, 180, 255, 255, 255, 255];
  }
}
