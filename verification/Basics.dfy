/** Small things that several parts use. */
module Basics {
  type Byte = b: int | 0 <= b < 256
  type Bytes = seq<Byte>

  datatype Option<T> = None | Some(value: T)

  function Min(a: int, b: int): int {
    if a < b then a else b
  }

  function Max(a: int, b: int): int {
    if a < b then b else a
  }

  lemma MultipleIsFar(n: int, q: int)
    requires n > 0
    ensures q >= 1 ==> n * q >= n
    ensures q <= -1 ==> n * q <= -n
  {
  }

  /** Quotient and remainder are unique. */
  lemma ModIs(x: int, n: int, q: int, r: int)
    requires 0 <= r < n && x == n * q + r
    ensures x % n == r
  {
    assert n * (x / n - q) == r - x % n;
    MultipleIsFar(n, x / n - q);
  }

  lemma ModUnique(x: int, y: int, n: int)
    requires n > 0 && -n < x - y < n && x % n == y % n
    ensures x == y
  {
    assert n * (x / n - y / n) == x - y;
    MultipleIsFar(n, x / n - y / n);
  }
}
