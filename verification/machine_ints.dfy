/** The C# integer types the controller mixes, and the checked conversion
    between them that raises on a negative value. */
module MachineInts {
  import opened Wrappers

  /** C#'s `int`: the session card number and the action arguments. */
  type int32 = x: int | -0x8000_0000 <= x < 0x8000_0000

  /** C#'s `uint`: every card number and serial stored in the tables. */
  type uint32 = x: int | 0 <= x < 0x1_0000_0000

  /** The exceptions an action can raise before it reaches the store. */
  datatype Fault = OverflowException

  /** `Convert.ToUInt32(int)`: a partial conversion, defined exactly on the
      non-negative values (every one of which fits) and raising
      `OverflowException` on the rest. */
  function ToUInt32(x: int32): (r: Result<uint32, Fault>)
    ensures r.Success? <==> 0 <= x
    ensures r.Success? ==> r.value == x
  {
    if x < 0 then Failure(OverflowException) else Success(x)
  }
}
