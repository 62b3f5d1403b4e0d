/**
 * Exact integer stand-ins for the floating-point expressions of the source.
 * `int(x)` truncates toward zero, Python 2's `/` on integers floors, and
 * `round` rounds to a nearest integer (ties to even, as Python 3 does; the
 * contracts only promise the half-unit bound).
 */
module Arith {

  function Abs(n: int): nat {
    if n < 0 then -n else n
  }

  function Min(a: int, b: int): int {
    if a <= b then a else b
  }

  /** `q` is the quotient of n / d truncated toward zero. */
  ghost predicate IsTrunc(q: int, n: int, d: int) {
    && Abs(q * d) <= Abs(n) < Abs(q * d) + Abs(d)
    && (q * d == 0 || (q * d > 0 <==> n > 0))
  }

  /** `r` is within half a unit of n / d. */
  ghost predicate IsRounding(r: int, n: int, d: int) {
    Abs(2 * (r * d - n)) <= Abs(d)
  }

  /** Python 2 integer division `n / d` on ints: the floor of the quotient. */
  function FloorDiv(n: int, d: int): (q: int)
    requires d != 0
    ensures d > 0 ==> q * d <= n < q * d + d
    ensures d < 0 ==> q * d >= n > q * d + d
  {
    if d > 0 then n / d else (-n) / (-d)
  }

  /** `int(n / d)`: the true quotient truncated toward zero. */
  function TruncDiv(n: int, d: int): (q: int)
    requires d != 0
    ensures IsTrunc(q, n, d)
  {
    var m := Abs(n) / Abs(d);
    var q := if (n >= 0) == (d > 0) then m else -m;
    TruncQuotient(n, d, m, q);
    q
  }

  lemma TruncQuotient(n: int, d: int, m: int, q: int)
    requires d != 0 && m == Abs(n) / Abs(d)
    requires q == if (n >= 0) == (d > 0) then m else -m
    ensures IsTrunc(q, n, d)
  {
    NatDivBounds(Abs(n), Abs(d), m);
    AbsProduct(q, d);
    assert Abs(q) == m;
    ProductPositive(q, d);
  }

  /** Euclidean division of naturals brackets the dividend. */
  lemma NatDivBounds(a: nat, b: nat, m: int)
    requires b > 0 && m == a / b
    ensures 0 <= m && m * b <= a < m * b + b
  {
  }

  lemma AbsProduct(x: int, y: int)
    ensures Abs(x * y) == Abs(x) * Abs(y)
  {
    if x < 0 && y >= 0 {
      assert x * y == -((-x) * y);
    } else if x >= 0 && y < 0 {
      assert x * y == -(x * (-y));
    } else if x < 0 && y < 0 {
      assert x * y == (-x) * (-y);
    }
  }

  /** `round(n / d)` with Python 3's ties-to-even rule. */
  function RoundDiv(n: int, d: int): (r: int)
    requires d != 0
    ensures IsRounding(r, n, d)
    decreases if d < 0 then 1 else 0
  {
    if d < 0 then
      var r := RoundDiv(-n, -d);
      assert r * d - n == -(r * (-d) - (-n));
      r
    else
      var q := n / d;
      var rem := n % d;
      RoundCandidates(n, d, q, rem);
      if 2 * rem < d then q
      else if 2 * rem > d then q + 1
      else if q % 2 == 0 then q
      else q + 1
  }

  /** Rounding down is within half a unit when the remainder is at most half, rounding up when it is at least half. */
  lemma RoundCandidates(n: int, d: int, q: int, rem: int)
    requires d > 0 && q == n / d && rem == n % d
    ensures 2 * rem <= d ==> IsRounding(q, n, d)
    ensures 2 * rem >= d ==> IsRounding(q + 1, n, d)
  {
    assert n == q * d + rem;
    assert q * d - n == -rem;
    assert (q + 1) * d - n == d - rem;
  }

  /** The comparison `a / b > c / d` of two true quotients, cross-multiplied. */
  function QuotientGreater(a: int, b: int, c: int, d: int): (r: bool)
    requires b != 0 && d != 0
    ensures b * d > 0 ==> (r <==> a * d > c * b)
    ensures b * d < 0 ==> (r <==> a * d < c * b)
  {
    var x, y := a * d - c * b, b * d;
    ProductPositive(x, y);
    x * y > 0
  }

  /** A product is positive exactly when both factors share a nonzero sign. */
  lemma ProductPositive(x: int, y: int)
    ensures x * y > 0 <==> (x > 0 && y > 0) || (x < 0 && y < 0)
  {
    if x > 0 && y < 0 {
      assert x * (-y) > 0;
    } else if x < 0 && y > 0 {
      assert (-x) * y > 0;
    } else if x < 0 && y < 0 {
      assert (-x) * (-y) > 0;
    }
  }

  /** A product is zero exactly when a factor is. */
  lemma ProductZero(x: int, y: int)
    ensures x * y == 0 <==> x == 0 || y == 0
  {
    ProductPositive(x, y);
    ProductPositive(-x, y);
    assert (-x) * y == -(x * y);
  }

  /** Four factors regrouped: (a * b) * c * d == a * c * (d * b). */
  lemma ProductRegroup(a: int, b: int, c: int, d: int)
    ensures (a * b) * c * d == a * c * (d * b)
  {
    assert (a * b) * c == (a * c) * b;
    assert ((a * c) * b) * d == (a * c) * (b * d);
    assert b * d == d * b;
  }

  /** A truncated quotient of a true quotient at most m (m >= 0) is at most m. */
  lemma TruncAtMost(q: int, n: int, d: int, m: int)
    requires IsTrunc(q, n, d) && m >= 0
    requires d > 0 ==> n <= m * d
    requires d < 0 ==> n >= m * d
    ensures q <= m
  {
  }

  /** A truncated quotient of a true quotient below m (m > 0) is below m. */
  lemma TruncBelow(q: int, n: int, d: int, m: int)
    requires IsTrunc(q, n, d) && m > 0
    requires d > 0 ==> n < m * d
    requires d < 0 ==> n > m * d
    ensures q < m
  {
  }
}
