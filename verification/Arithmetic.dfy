/** Powers of two, and division facts that need a product. */
module Arithmetic {

  function Pow2(n: nat): (p: nat)
    ensures p > 0
  {
    if n == 0 then 1 else 2 * Pow2(n - 1)
  }

  /** The position of the highest set bit; 0 for 0. */
  function HighBit(x: nat): nat {
    if x <= 1 then 0 else 1 + HighBit(x / 2)
  }

  lemma {:induction false} HighBitBounds(x: nat)
    requires x > 0
    ensures Pow2(HighBit(x)) <= x < 2 * Pow2(HighBit(x))
  {
    if x > 1 { HighBitBounds(x / 2); }
  }

  lemma HalvePow2(n: nat)
    requires n > 0
    ensures Pow2(n) == 2 * Pow2(n - 1)
  {
  }

  lemma {:induction false} Pow2Monotone(a: nat, b: nat)
    requires a <= b
    ensures Pow2(a) <= Pow2(b)
  {
    if a < b { Pow2Monotone(a, b - 1); }
  }

  lemma {:induction false} Pow2Sum(a: nat, b: nat)
    ensures Pow2(a + b) == Pow2(a) * Pow2(b)
  {
    if a > 0 {
      Pow2Sum(a - 1, b);
      HalvePow2(a);
      HalvePow2(a + b);
      hide Pow2;
      Twice(Pow2(a - 1), Pow2(b));
    }
  }

  lemma Twice(x: int, y: int)
    ensures (2 * x) * y == 2 * (x * y)
  {
  }

  lemma Pow2Values()
    ensures Pow2(7) == 0x80 && Pow2(8) == 0x100 && Pow2(9) == 0x200 && Pow2(16) == 0x1_0000
    ensures Pow2(22) == 0x40_0000 && Pow2(23) == 0x80_0000
    ensures Pow2(32) == 0x1_0000_0000 && Pow2(64) == 0x1_0000_0000_0000_0000
  {
    assert Pow2(4) == 16;
    Pow2Sum(4, 3);
    Pow2Sum(4, 4);
    Pow2Sum(8, 8);
    Pow2Sum(16, 6);
    Pow2Sum(16, 16);
    Pow2Sum(32, 32);
  }

  lemma MulStep(a: int, b: int, m: nat)
    ensures a < b ==> a * m + m <= b * m
  {
    if a < b {
      var d := b - a - 1;
      assert d * m >= 0;
      assert b * m == a * m + d * m + m;
    }
  }

  /** Quotient and remainder are unique. */
  lemma ModUnique(x: int, m: int, q: int, r: int)
    requires 0 <= r < m && x == q * m + r
    ensures x % m == r && x / m == q
  {
    var d := q - x / m;
    assert d * m == x % m - r by {
      assert x == (x / m) * m + x % m;
      assert (q - x / m) * m == q * m - (x / m) * m;
    }
    MulStep(0, d, m);
    MulStep(d, 0, m);
  }
}
