/**
 * The C# remainder and facts about `%` used by the rotor and key-index arithmetic.
 * Where a dividend is non-negative, Dafny's Euclidean `%` agrees with C#'s `%`
 * and is written directly.
 */
module Modular {

  /** C#'s `%` on `int`: truncating division, so the remainder takes the dividend's sign. */
  function Remainder(x: int, n: int): (r: int)
    requires n > 0
    ensures -n < r < n
    ensures 0 <= x ==> r == x % n
    ensures x < 0 ==> r <= 0
  {
    if x >= 0 then x % n else -((-x) % n)
  }

  /** Unlike Euclidean `%`, C#'s `-1 % n` is negative for every `n > 1`. */
  lemma MinusOneRemainder(n: int)
    requires n > 0
    ensures Remainder(-1, n) == if n == 1 then 0 else -1
  {
    if n > 1 {
      Wrap(1, n);
    }
  }

  lemma MulBetween(n: int, d: int)
    requires n > 0 && -n < n * d < n
    ensures d == 0
  {
  }

  /** A remainder is determined by any quotient/remainder decomposition. */
  lemma ModUnique(x: int, n: int, q: int, r: int)
    requires n > 0 && 0 <= r < n && x == n * q + r
    ensures x % n == r
  {
    var q', r' := x / n, x % n;
    assert n * q' + r' == x;
    assert n * (q - q') == r' - r;
    MulBetween(n, q - q');
  }

  /** Reducing the left operand of a sum first does not change the remainder. */
  lemma ModAddLeft(a: int, c: int, n: int)
    requires n > 0
    ensures (a % n + c) % n == (a + c) % n
  {
    var q, r := a / n, a % n;
    var q2, r2 := (r + c) / n, (r + c) % n;
    assert r + c == n * q2 + r2;
    assert a + c == n * (q + q2) + r2;
    ModUnique(a + c, n, q + q2, r2);
  }

  /** On `[0, 3n)` a remainder is at most two subtractions of `n`. */
  lemma Wrap(x: int, n: int)
    requires n > 0 && 0 <= x < 3 * n
    ensures x % n == if x < n then x else if x < 2 * n then x - n else x - 2 * n
  {
  }
}
