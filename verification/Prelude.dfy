/** Result types and machine integers every other module shares. */
module Prelude {

  datatype Option<+T> = None | Some(value: T) {
    predicate IsFailure() { None? }

    function PropagateFailure<U>(): Option<U>
      requires None?
    {
      None
    }

    function Extract(): T
      requires Some?
    {
      value
    }

    function GetOr(default: T): T {
      match this
      case None => default
      case Some(v) => v
    }

    /** The source's `ok_or_else`. */
    function OkOr<E>(error: E): Result<T, E> {
      match this
      case None => Err(error)
      case Some(v) => Ok(v)
    }
  }

  datatype Result<+T, +E> = Ok(value: T) | Err(error: E) {
    predicate IsFailure() { Err? }

    function PropagateFailure<U>(): Result<U, E>
      requires Err?
    {
      Err(error)
    }

    function Extract(): T
      requires Ok?
    {
      value
    }
  }

  /** The source's early `return Err(error)` when a condition does not hold. */
  function Need<E>(condition: bool, error: E): Outcome<E> {
    if condition then Pass else Fail(error)
  }

  datatype Outcome<+E> = Pass | Fail(error: E) {
    predicate IsFailure() { Fail? }

    function PropagateFailure<U>(): Result<U, E>
      requires Fail?
    {
      Err(error)
    }
  }

  type byte = b: int | 0 <= b < 256
  type bytes = seq<byte>

  const USIZE_MAX: nat := 0xFFFF_FFFF_FFFF_FFFF
  /** Rust never holds a slice of more bytes than `isize::MAX`. */
  const ISIZE_MAX: nat := 0x7FFF_FFFF_FFFF_FFFF

  /** A 64-bit `usize`. Passing a sum as a `usize` obliges the verifier to show it does not overflow. */
  type usize = n: nat | n <= USIZE_MAX
  /** A borrowed byte slice. */
  type Slice = s: bytes | |s| <= ISIZE_MAX

  function CheckedAdd(a: usize, b: usize): Option<usize> {
    if a + b <= USIZE_MAX then Some(a + b) else None
  }

  function CheckedSub(a: usize, b: usize): Option<usize> {
    if b <= a then Some(a - b) else None
  }

  function Min(a: int, b: int): int {
    if a <= b then a else b
  }
}
