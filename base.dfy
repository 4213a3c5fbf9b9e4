/** Shared vocabulary of the model: bytes, optional values, results and the
    exceptions the host code raises. */
module Base {

  /** An unsigned 8-bit value, the unit of every frame on the wire. */
  type byte = b: int | 0 <= b < 256

  datatype Option<+T> = None | Some(value: T)

  /** The exceptions the host code raises, by the class it raises. */
  datatype Exception =
    | ValueError        // bytearray([...]) of an out-of-range int, IntEnum(...) of an unknown value
    | OverflowError     // int.to_bytes of a value outside the selected range
    | TypeError         // bytearray([...]) of None
    | AttributeError    // None.to_bytes(...)
    | KeyError          // ReadOnlyDict re-assignment
    | RuntimeError      // threading.Thread.start() called twice
    | DeviceError       // hermes.devices.DeviceError
    | CommandError      // hermes.commands.CommandError
    | CommandException  // backend CommandException
    | ProtocolError     // protocol open failure
    | HermesError       // ethernet connect failure
    | SocketError       // socket.error escaping a read
    | ProtocolException // backend protocol open failure
    | FunctionTimedOut  // a `func_set_timeout` limit ran out
    | SerialException   // a pyserial write that fails

  datatype Result<+T> = Ok(value: T) | Err(error: Exception)
  {
    predicate IsFailure() { Err? }

    function PropagateFailure<U>(): Result<U>
      requires Err?
    {
      Err(error)
    }

    function Extract(): T
      requires Ok?
    {
      value
    }
  }

  /** What `bytearray([x0, x1, ...])` does with a list of ints: every element
      must lie in 0..255, otherwise ValueError and no bytes. */
  function ToBytes(xs: seq<int>): (r: Result<seq<byte>>)
    ensures r.Ok? <==> forall i :: 0 <= i < |xs| ==> 0 <= xs[i] < 256
    ensures r.Ok? ==> r.value == xs
    ensures r.Err? ==> r.error == ValueError
  {
    if forall i :: 0 <= i < |xs| ==> 0 <= xs[i] < 256 then Ok(xs) else Err(ValueError)
  }
}
