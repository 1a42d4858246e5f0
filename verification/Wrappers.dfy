/** The two result shapes the modules below share. */
module Wrappers {
  /** A value that may be absent: the program's `T | null`. */
  datatype Option<+T> = None | Some(value: T)

  /** A call that may reject: Failure carries what was thrown. */
  datatype Result<+T, +E> = Success(value: T) | Failure(error: E)
}

/** Arithmetic and list facts that several modules use. */
module Basics {
  function Min(a: int, b: int): int { if a <= b then a else b }
  function Max(a: int, b: int): int { if a >= b then a else b }

  lemma MulMonotone(k: int, a: int, b: int)
    requires k >= 0 && a <= b
    ensures k * a <= k * b && a * k <= b * k
  {
  }

  lemma Associate<T>(a: seq<T>, b: seq<T>, c: seq<T>)
    ensures a + b + c == a + (b + c)
  {
  }
}
