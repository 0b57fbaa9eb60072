/** Facts about integer multiplication and division used by the histogram statistics. */
module Arithmetic {

  lemma MulMonotone(a: int, b: int, c: nat)
    requires a <= b
    ensures a * c <= b * c
  {
  }

  lemma MulDistributes(a: int, b: int, c: int)
    ensures a * (b + c) == a * b + a * c
  {
  }

  lemma MulZero(a: int, b: int)
    requires b == 0
    ensures a * b == 0
  {
  }

  lemma MulAtLeast(k: int, n: int)
    requires n > 0
    ensures k >= 1 ==> k * n >= n
  {
    if k >= 1 {
      assert k * n == (k - 1) * n + n;
    }
  }

  lemma DivMonotone(a: int, b: int, n: int)
    requires 0 <= a <= b && n > 0
    ensures a / n <= b / n
  {
    var qa, qb := a / n, b / n;
    assert a == qa * n + a % n && b == qb * n + b % n;
    MulAtLeast(qa - qb, n);
    assert (qa - qb) * n == qa * n - qb * n;
  }

  /** A quotient by c of a value between lo * c and hi * c lies between lo and hi. */
  lemma DivBetween(s: int, c: int, lo: nat, hi: int)
    requires c > 0 && lo * c <= s <= hi * c
    ensures lo <= s / c <= hi
  {
    DivMonotone(lo * c, s, c);
    DivMonotone(s, hi * c, c);
    DivModUnique(lo, c, 0);
    DivModUnique(hi, c, 0);
  }

  /** Quotient and remainder of a * c + x by c, for x in 0..c-1, are a and x. */
  lemma DivModUnique(a: int, c: int, x: int)
    requires c > 0 && 0 <= x < c
    ensures (a * c + x) / c == a && (a * c + x) % c == x
  {
    var q, r := (a * c + x) / c, (a * c + x) % c;
    assert a * c + x == q * c + r;
    assert (a - q) * c == r - x;
    MulAtLeast(a - q, c);
    MulAtLeast(q - a, c);
    assert (q - a) * c == x - r;
  }
}
