/** Division with remainder, by its defining equation, and numbers cut to integers. */
module Arithmetic {

  lemma Apart(a: nat, b: nat, d: nat)
    requires a < b
    ensures a * d + d <= b * d
  {
    var k := b - a - 1;
    assert b * d == (a + 1 + k) * d == a * d + d + k * d;
  }

  /** Quotient and remainder are the only ones. */
  lemma OnlyDivision(q: nat, r: nat, q': nat, r': nat, d: nat)
    requires q * d + r == q' * d + r' && r < d && r' < d
    ensures q == q' && r == r'
  {
    if q < q' {
      Apart(q, q', d);
      assert false;
    }
    if q' < q {
      Apart(q', q, d);
      assert false;
    }
  }

  lemma Divided(n: nat, d: nat)
    requires d > 0
    ensures n == n / d * d + n % d && n % d < d
  {
  }

  lemma DivisionIs(n: nat, d: nat, q: nat, r: nat)
    requires n == q * d + r && r < d
    ensures n / d == q && n % d == r
  {
    Divided(n, d);
    OnlyDivision(n / d, n % d, q, r, d);
  }

  lemma DivDiv(n: nat, c: nat, d: nat)
    requires c > 0 && d > 0
    ensures c * d > 0 && n / c / d == n / (c * d)
  {
    var m, q, r := n / c, n / c / d, n / c % d;
    Divided(n, c);
    Divided(m, d);
    Product(c, d, q, r, n % c, m, n);
    DivisionIs(n, c * d, q, r * c + n % c);
  }

  lemma Product(c: nat, d: nat, q: nat, r: nat, low: nat, m: nat, n: nat)
    requires n == m * c + low && low < c && m == q * d + r && r < d
    ensures n == q * (c * d) + (r * c + low) && r * c + low < c * d
  {
    Apart(r, d, c);
    assert (q * d + r) * c == q * (c * d) + r * c;
  }

  lemma TwiceAtMost(q: nat, d: nat)
    requires d >= 2
    ensures 2 * q <= q * d
  {
    assert q * d == 2 * q + q * (d - 2);
  }

  lemma NoneLeft(q: nat, d: nat)
    requires q == 0
    ensures q * d == 0
  {
  }

  lemma Halved(n: nat, d: nat)
    requires d >= 2
    ensures 2 * (n / d) <= n
    ensures n >= d ==> n / d > 0
  {
    Divided(n, d);
    TwiceAtMost(n / d, d);
    if n / d == 0 {
      NoneLeft(n / d, d);
    }
  }

  /** A number cut to an integer, toward zero. */
  function Trunc(v: real): int {
    if v >= 0.0 then v.Floor else -(-v).Floor
  }

  lemma TruncExact(v: real)
    requires v == v.Floor as real
    ensures Trunc(v) == v.Floor
  {
    if v < 0.0 {
      assert -v == (-v.Floor) as real;
    }
  }

  lemma TruncIsExactIff(v: real)
    ensures Trunc(v) as real == v <==> v == v.Floor as real
  {
    if v == v.Floor as real {
      TruncExact(v);
    }
    if Trunc(v) as real == v {
      FloorOfInt(Trunc(v));
    }
  }

  lemma FloorOfInt(n: int)
    ensures (n as real).Floor == n
  {
  }

  /** The integer part is what lies between the number and zero. */
  lemma TruncIs(v: real)
    ensures v >= 0.0 ==> 0 <= Trunc(v) && Trunc(v) as real <= v < Trunc(v) as real + 1.0
    ensures v <= 0.0 ==> Trunc(v) <= 0 && Trunc(v) as real - 1.0 < v <= Trunc(v) as real
    ensures Trunc(-v) == -Trunc(v)
  {
  }
}
