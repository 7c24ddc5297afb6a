// Option and Result types shared by the model. A fatal condition of the
// program (an abort, an exit with failure status or an uncaught exception)
// is an Err carrying a short description.
module Wrappers {

  datatype Option<T> = None | Some(value: T)

  datatype Result<T> = Ok(value: T) | Err(error: string)
  {
    predicate IsFailure() { Err? }
  }

  // Two's-complement reinterpretation of an integer as std::size_t: the
  // conversion of a negative index to an unsigned type wraps modulo 2^64.
  const SizeMod: int := 0x1_0000_0000_0000_0000

  function ToSizeT(x: int): (r: nat)
    ensures r < SizeMod
    ensures 0 <= x < SizeMod ==> r == x
    ensures x < 0 && -SizeMod <= x ==> r == SizeMod + x
  {
    x % SizeMod
  }
}
