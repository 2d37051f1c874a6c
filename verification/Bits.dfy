/** Bitwise operators of unsigned machine words, on naturals, and what the masks used by the
    repository mean arithmetically. */
module Bits {
  function Pow2(n: nat): (p: nat)
    ensures p >= 1
  {
    if n == 0 then 1 else 2 * Pow2(n - 1)
  }

  function And(a: nat, b: nat): (r: nat)
    ensures r <= a && r <= b
  {
    if a == 0 || b == 0 then 0 else a % 2 * (b % 2) + 2 * And(a / 2, b / 2)
  }

  function Or(a: nat, b: nat): nat {
    if a == 0 then b
    else if b == 0 then a
    else (if a % 2 + b % 2 > 0 then 1 else 0) + 2 * Or(a / 2, b / 2)
  }

  lemma {:induction false} Pow2Add(m: nat, n: nat)
    ensures Pow2(m + n) == Pow2(m) * Pow2(n)
  {
    if m > 0 {
      Pow2Add(m - 1, n);
    }
  }

  lemma TwoTo32()
    ensures Pow2(32) == 0x1_0000_0000
  {
    Pow2Add(16, 16);
    Pow2Add(8, 8);
    assert Pow2(8) == 256;
  }

  lemma TwoTo64()
    ensures Pow2(64) == 0x1_0000_0000_0000_0000
  {
    TwoTo32();
    hide Pow2;
    Pow2Add(32, 32);
  }

  lemma Pow2Monotone(m: nat, n: nat)
    requires m <= n
    ensures Pow2(m) <= Pow2(n)
    decreases n
  {
    if m < n {
      Pow2Monotone(m, n - 1);
    }
  }

  /** Halving commutes with reduction modulo a power of two. */
  lemma HalfMod(v: nat, p: nat)
    requires p >= 1
    ensures v % (2 * p) == v % 2 + 2 * (v / 2 % p)
    ensures v / (2 * p) == v / 2 / p
  {
    var h := v / 2;
    assert h == p * (h / p) + h % p;
    var q, r := h / p, v % 2 + 2 * (h % p);
    assert v == 2 * p * q + r;
    DivModUnique(v, 2 * p, q, r);
  }

  lemma DivModUnique(v: int, d: nat, q: int, r: nat)
    requires 0 <= r < d && v == d * q + r
    ensures v / d == q && v % d == r
  {
    var q', r' := v / d, v % d;
    assert d * (q - q') == r' - r;
    if q > q' {
      MulAtLeast(d, q - q');
    } else if q < q' {
      MulAtLeast(d, q' - q);
    }
  }

  lemma MulAtLeast(d: nat, k: int)
    requires k >= 1
    ensures d * k >= d
  {
  }

  lemma AndHalves(a: nat, b: nat)
    ensures And(a, b) == a % 2 * (b % 2) + 2 * And(a / 2, b / 2)
  {
  }

  lemma OddHalf(p: nat)
    requires p >= 1
    ensures (2 * p - 1) % 2 == 1 && (2 * p - 1) / 2 == p - 1
  {
  }

  lemma AndOdd(a: nat, b: nat)
    requires b % 2 == 1
    ensures And(a, b) == a % 2 + 2 * And(a / 2, b / 2)
  {
    AndHalves(a, b);
  }

  lemma AndLowStep(v: nat, p: nat)
    requires p >= 1 && And(v / 2, p - 1) == v / 2 % p
    ensures And(v, 2 * p - 1) == v % (2 * p)
  {
    hide And;
    OddHalf(p);
    AndOdd(v, 2 * p - 1);
    HalfMod(v, p);
  }

  lemma Pow2Double(n: nat)
    requires n >= 1
    ensures Pow2(n) == 2 * Pow2(n - 1)
  {
  }

  lemma AndZero(v: nat)
    ensures And(v, 0) == 0
  {
  }

  lemma PowZero(v: nat)
    ensures Pow2(0) == 1 && v % 1 == 0 && v / 1 == v
  {
  }

  lemma {:induction false} AndLowMask(v: nat, k: nat)
    ensures And(v, Pow2(k) - 1) == v % Pow2(k)
  {
    hide Pow2, And;
    if k == 0 {
      PowZero(v);
      AndZero(v);
    } else {
      Pow2Double(k);
      AndLowMask(v / 2, k - 1);
      AndLowStep(v, Pow2(k - 1));
    }
  }

  lemma Pow2Strict(m: nat, n: nat)
    requires m < n
    ensures 2 * Pow2(m) <= Pow2(n)
  {
    Pow2Monotone(m + 1, n);
  }

  lemma AndHighStep(v: nat, d: nat, p: nat)
    requires p >= 1 && And(v / 2, d) == v / 2 - v / 2 % p
    ensures And(v, 2 * d) == v - v % (2 * p)
  {
    AndHalves(v, 2 * d);
    assert 2 * d % 2 == 0 && 2 * d / 2 == d;
    HalfMod(v, p);
    var h, r := v / 2, v / 2 % p;
    assert And(v, 2 * d) == 2 * (h - r);
    assert v == 2 * h + v % 2;
  }

  lemma {:induction false} AndHighMask(v: nat, k: nat, n: nat)
    requires k <= n && v < Pow2(n)
    ensures Pow2(k) <= Pow2(n)
    ensures And(v, Pow2(n) - Pow2(k)) == v - v % Pow2(k)
    decreases n
  {
    hide And, Pow2;
    Pow2Monotone(k, n);
    if k == 0 {
      AndAllOnes(v, n);
    } else {
      Pow2Double(k);
      Pow2Double(n);
      HalfBelow(v, Pow2(n - 1));
      AndHighMask(v / 2, k - 1, n - 1);
      HighMaskStep(v, Pow2(n - 1), Pow2(k - 1));
    }
  }

  lemma HighMaskStep(v: nat, q: nat, p: nat)
    requires 1 <= p <= q && And(v / 2, q - p) == v / 2 - v / 2 % p
    ensures And(v, 2 * q - 2 * p) == v - v % (2 * p)
  {
    hide And;
    AndHighStep(v, q - p, p);
    assert 2 * (q - p) == 2 * q - 2 * p;
  }

  lemma HalfBelow(v: nat, q: nat)
    requires v < 2 * q
    ensures v / 2 < q
  {
  }

  lemma AndAllOnes(v: nat, n: nat)
    requires v < Pow2(n)
    ensures Pow2(0) == 1 && And(v, Pow2(n) - Pow2(0)) == v - v % Pow2(0)
  {
    PowZero(v);
    hide And, Pow2;
    AndLowMask(v, n);
    SmallMod(v, Pow2(n));
  }

  lemma SmallMod(v: nat, d: nat)
    requires v < d
    ensures v % d == v && v / d == 0
  {
  }

  lemma EvenHalf(p: nat)
    ensures 2 * p % 2 == 0 && 2 * p / 2 == p
  {
  }

  lemma AndEven(a: nat, p: nat)
    ensures And(a, 2 * p) == 2 * And(a / 2, p)
  {
    EvenHalf(p);
    AndHalves(a, 2 * p);
  }

  lemma AndBitStep(v: nat, p: nat)
    requires p >= 1 && And(v / 2, p) == p * (v / 2 / p % 2)
    ensures And(v, 2 * p) == 2 * p * (v / (2 * p) % 2)
  {
    hide And;
    AndEven(v, p);
    HalfMod(v, p);
    TwiceProduct(p, v / 2 / p % 2);
  }

  lemma TwiceProduct(p: nat, b: nat)
    ensures 2 * (p * b) == 2 * p * b
  {
  }

  lemma {:induction false} AndBit(v: nat, k: nat)
    ensures And(v, Pow2(k)) == Pow2(k) * (v / Pow2(k) % 2)
  {
    hide Pow2;
    if k == 0 {
      PowZero(v);
      AndHalves(v, 1);
    } else {
      hide And;
      Pow2Double(k);
      AndBit(v / 2, k - 1);
      AndBitStep(v, Pow2(k - 1));
    }
  }

  lemma OrHalves(a: nat, c: nat)
    requires a != 0 && c != 0
    ensures Or(a, 2 * c) == a % 2 + 2 * Or(a / 2, c)
  {
    EvenHalf(c);
  }

  lemma OrStep(a: nat, b: nat, p: nat)
    requires a != 0 && b != 0 && p >= 1 && Or(a / 2, b * p) == a / 2 + b * p
    ensures Or(a, b * (2 * p)) == a + b * (2 * p)
  {
    hide Or;
    TwiceProduct(p, b);
    MulAtLeast(p, b);
    OrHalves(a, b * p);
  }

  lemma OrNothing(a: nat, c: nat)
    ensures Or(0, c) == c && Or(a, 0) == a
  {
  }

  /** Disjoint bits: `|` is addition. */
  lemma {:induction false} OrDisjoint(a: nat, b: nat, k: nat)
    requires a < Pow2(k)
    ensures Or(a, b * Pow2(k)) == a + b * Pow2(k)
  {
    hide Pow2, Or;
    OrNothing(a, b * Pow2(k));
    if a != 0 && b != 0 {
      BelowOne(a, k);
      Pow2Double(k);
      HalfBelow(a, Pow2(k - 1));
      OrDisjoint(a / 2, b, k - 1);
      OrStep(a, b, Pow2(k - 1));
    }
  }

  lemma BelowOne(a: nat, k: nat)
    requires 0 < a < Pow2(k)
    ensures k > 0
  {
  }
}
