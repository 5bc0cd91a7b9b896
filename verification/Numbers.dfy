/** The lesser and the greater of two numbers, and remainders. */
module Numbers {

  function Min(a: int, b: int): int { if a < b then a else b }

  function Max(a: int, b: int): int { if a < b then b else a }

  lemma AtLeast(n: int, d: int)
    requires n > 0
    ensures d >= 1 ==> n * d >= n
    ensures d <= -1 ==> n * d <= -n
  {
  }

  /** The remainder is what is left over from a multiple. */
  lemma Remainder(x: int, n: int, q: int, r: int)
    requires 0 <= r < n && x == n * q + r
    ensures x % n == r
  {
    var d := x / n - q;
    assert n * (x / n) == n * q + n * d;
    AtLeast(n, d);
  }
}
