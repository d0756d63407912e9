/** Facts about Dafny's Euclidean `%` and `/` on `int`, and about the truncating
    remainder that JavaScript's `%` computes. */
module Modular {

  /** JavaScript's `a % n` on integers: the remainder takes the sign of `a`. */
  function JsRemainder(a: int, n: int): (r: int)
    requires n > 0
    ensures -n < r < n
    ensures a >= 0 ==> r == a % n
    ensures a < 0 ==> r <= 0
  {
    if a >= 0 then a % n else -((-a) % n)
  }

  /** A positive multiple of a positive number is at least that number. */
  lemma {:induction false} MulAtLeast(n: int, k: int)
    requires n > 0 && k >= 1
    ensures n * k >= n
  {
    if k > 1 {
      MulAtLeast(n, k - 1);
      assert n * k == n * (k - 1) + n;
    }
  }

  /** The remainder and quotient are determined by `a == n * q + r` with `0 <= r < n`. */
  lemma ModUnique(a: int, n: int, q: int, r: int)
    requires n > 0 && 0 <= r < n && a == n * q + r
    ensures a % n == r && a / n == q
  {
    var q', r' := a / n, a % n;
    assert a == n * q' + r';
    var d := q' - q;
    assert n * d == r - r';
    if d >= 1 {
      MulAtLeast(n, d);
    } else if d <= -1 {
      MulAtLeast(n, -d);
    }
  }

  /** Adding a multiple of `n` does not change the remainder. */
  lemma ModAddMultiple(a: int, n: int, m: int)
    requires n > 0
    ensures (a + n * m) % n == a % n
  {
    ModUnique(a + n * m, n, a / n + m, a % n);
  }

  /** The normalisation `((shift % n) + n) % n` of the source gives the Euclidean remainder. */
  lemma NormalisedJsRemainder(a: int, n: int)
    requires n > 0
    ensures JsRemainder(JsRemainder(a, n) + n, n) == a % n
  {
    var t := JsRemainder(a, n);
    if a >= 0 {
      ModAddMultiple(a % n, n, 1);
      ModUnique(a % n, n, 0, a % n);
    } else {
      var q := (-a) % n;
      assert -a == n * ((-a) / n) + q;
      if q == 0 {
        ModUnique(n, n, 1, 0);
        ModUnique(a, n, -((-a) / n), 0);
      } else {
        ModUnique(n - q, n, 0, n - q);
        ModUnique(a, n, -((-a) / n) - 1, n - q);
      }
    }
  }
}
