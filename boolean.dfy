/** The current host's boolean devices (`hermes/devices/boolean.py`): an
    output that drives a pin and an input that reads one. The input's
    settings and values both encode to no bytes at all. */
module Boolean {
  import opened Base

  /** A new output device drives pin 0. */
  const DefaultPin := 0

  /** The output's `_encode_settings()`: `[pin, default]`. `bytearray`
      takes the elements in order, so a pin that is not a byte raises
      ValueError before a `default` of None raises TypeError. */
  function OutputSettings(pin: int, default: Option<int>): (r: Result<seq<byte>>)
    ensures r.Ok? <==> default.Some? && 0 <= pin < 256 && 0 <= default.value < 256
    ensures r.Ok? ==> r.value == [pin, default.value]
    ensures !(0 <= pin < 256) ==> r == Err(ValueError)
    ensures 0 <= pin < 256 && default.None? ==> r == Err(TypeError)
    ensures 0 <= pin < 256 && default.Some? && !(0 <= default.value < 256) ==> r == Err(ValueError)
  {
    if !(0 <= pin < 256) then Err(ValueError)
    else
      match default
      case None => Err(TypeError)
      case Some(d) =>
        assert [pin, d][0] == pin && [pin, d][1] == d;
        ToBytes([pin, d])
  }

  /** The output's `_encode_value(value)`: the single byte `[value]`. */
  function OutputValue(value: int): (r: Result<seq<byte>>)
    ensures r.Ok? <==> 0 <= value < 256
    ensures r.Ok? ==> r.value == [value]
    ensures r.Err? ==> r.error == ValueError
  {
    assert [value][0] == value;
    ToBytes([value])
  }
}
