/** Option and Result, usable with `:-`. */
module Basics {

  datatype Option<+T> = None | Some(value: T) {
    predicate IsFailure() { None? }

    function PropagateFailure<U>(): Option<U>
      requires None?
    { None }

    function Extract(): T
      requires Some?
    { value }
  }

  datatype Result<+T, +E> = Ok(value: T) | Err(error: E) {
    predicate IsFailure() { Err? }

    function PropagateFailure<U>(): Result<U, E>
      requires Err?
    { Err(error) }

    function Extract(): T
      requires Ok?
    { value }
  }

  const I64_MAX: int := 0x7fff_ffff_ffff_ffff
  const I64_MIN: int := -0x8000_0000_0000_0000
  const U64_MAX: int := 0xffff_ffff_ffff_ffff

  type u64 = n: int | 0 <= n <= 0xffff_ffff_ffff_ffff

  /** The limits of 64-bit integers, by halves. */
  lemma Limits()
    ensures U64_MAX + 1 == 0x1_0000_0000 * 0x1_0000_0000
    ensures I64_MAX + 1 == 0x1_0000_0000 * 0x8000_0000 && I64_MIN + I64_MAX == -1
  {
  }

  /** The sum that saturating additions arrive at. */
  function Sat(n: nat): u64 {
    if n <= U64_MAX then n else U64_MAX
  }
}
