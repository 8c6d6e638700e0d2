/** Powers of two and remainders. */
module Arithmetic {
  function Pow2(e: nat): (p: nat)
    ensures p >= 1
  {
    if e == 0 then 1 else 2 * Pow2(e - 1)
  }

  lemma {:induction false} Pow2Sum(a: nat, b: nat)
    ensures Pow2(a + b) == Pow2(a) * Pow2(b)
  {
    if b > 0 { Pow2Sum(a, b - 1); }
  }

  lemma PowersOfTwo()
    ensures Pow2(7) == 0x80 && Pow2(15) == 0x8000 && Pow2(31) == 0x8000_0000
    ensures Pow2(63) == 0x8000_0000_0000_0000
  {
    Doubled(4, 0x10);
    Doubled(8, 0x100);
    Doubled(16, 0x1_0000);
    Doubled(32, 0x1_0000_0000);
    assert Pow2(8) == 2 * Pow2(7) && Pow2(16) == 2 * Pow2(15) && Pow2(32) == 2 * Pow2(31) && Pow2(64) == 2 * Pow2(63);
  }

  lemma Doubled(e: nat, p: nat)
    requires Pow2(e) == p
    ensures Pow2(2 * e) == p * p
  {
    Pow2Sum(e, e);
  }

  lemma SmallModulus(x: int, m: int)
    requires 0 <= x < m
    ensures x % m == x
  {
  }

  lemma DivisionIs(x: nat, q: nat, m: nat, r: nat)
    requires r < m && x == q * m + r
    ensures x / m == q && x % m == r
  {
    MultiplesApart(x / m, q, m);
    MultiplesApart(q, x / m, m);
  }

  lemma {:induction false} MultiplesApart(p: nat, q: nat, m: nat)
    ensures p < q ==> p * m + m <= q * m
  {
    if p < q {
      OneMore(q - 1, m);
      MultiplesApart(p, q - 1, m);
    }
  }

  lemma OneMore(k: nat, m: nat)
    ensures (k + 1) * m == k * m + m
  {
  }

  lemma DivideTwice(x: nat, a: nat, b: nat)
    requires a > 0 && b > 0
    ensures a * b > 0 && (x / a) / b == x / (a * b)
  {
    var y, r' := x / a, x % a;
    var q, r := y / b, y % b;
    assert x == y * a + r';
    assert y == q * b + r;
    Nested(x, a, b, q, r, r');
  }

  lemma Nested(x: nat, a: nat, b: nat, q: nat, r: nat, r': nat)
    requires r < b && r' < a && x == (q * b + r) * a + r'
    ensures a * b > 0 && x / (a * b) == q && x % (a * b) == r * a + r'
  {
    assert (q * b + r) * a == q * (a * b) + r * a;
    MultiplesApart(r, b, a);
    assert b * a == a * b;
    DivisionIs(x, q, a * b, r * a + r');
  }
}
