/** Status values and results shared by the storage and checkpoint models. */
module Common {

  type byte = x: int | 0 <= x < 256

  const UINT64_LIMIT: int := 0x1_0000_0000_0000_0000
  const OFF_T_MAX: int := 0x7FFF_FFFF_FFFF_FFFF

  type uint64 = x: int | 0 <= x < 0x1_0000_0000_0000_0000
  type uint32 = x: int | 0 <= x < 0x1_0000_0000

  datatype Result<+T> = Ok(value: T) | Err(message: string)
  {
    predicate IsFailure() {
      Err?
    }

    function PropagateFailure<U>(): Result<U>
      requires Err?
    {
      Err(message)
    }

    function Extract(): T
      requires Ok?
    {
      value
    }
  }
}
