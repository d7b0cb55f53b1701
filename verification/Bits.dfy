/** Unsigned machine-word operations on natural numbers, defined bit by bit, and the
    lemmas that turn the shift-and-mask idioms of the source into division and remainder. */
module Bits {

  /** 2^64, the modulus of `u64` and `usize`. */
  const WORD: nat := 0x1_0000_0000_0000_0000

  type u64 = x: nat | x < WORD
  type u32 = x: nat | x < 0x1_0000_0000

  function Pow2(k: nat): (p: nat)
    ensures p > 0
  {
    if k == 0 then 1 else 2 * Pow2(k - 1)
  }

  /** `x >> k`. */
  function Shr(x: nat, k: nat): nat {
    DivNonNegative(x, Pow2(k));
    x / Pow2(k)
  }

  /** `x << k`, losing the bits shifted out of 64. */
  function Shl(x: nat, k: nat): nat {
    (x * Pow2(k)) % WORD
  }

  /** `x & y`. */
  function And(x: nat, y: nat): nat {
    if x == 0 || y == 0 then 0 else (if x % 2 == 1 && y % 2 == 1 then 1 else 0) + 2 * And(x / 2, y / 2)
  }

  /** `x | y`. */
  function Or(x: nat, y: nat): nat
    decreases x + y
  {
    if x == 0 then y
    else if y == 0 then x
    else (if x % 2 == 1 || y % 2 == 1 then 1 else 0) + 2 * Or(x / 2, y / 2)
  }

  /** `!x` on 64 bits. */
  function Not(x: nat): nat
    requires x < WORD
  {
    WORD - 1 - x
  }

  lemma MulAtLeast(d: nat, k: nat)
    requires k > 0
    ensures d * k >= d
  {
  }

  lemma DivNonNegative(x: nat, d: nat)
    requires d > 0
    ensures x / d >= 0
  {
  }

  lemma DivModUnique(x: nat, d: nat, q: nat, r: nat)
    requires d > 0 && r < d && x == d * q + r
    ensures x / d == q && x % d == r
  {
    var q', r' := x / d, x % d;
    assert x == d * q' + r';
    if q' < q {
      MulAtLeast(d, q - q');
    } else if q < q' {
      MulAtLeast(d, q' - q);
    }
  }

  lemma MulLe(a: nat, b: nat, d: nat)
    requires a <= b
    ensures a * d <= b * d
  {
  }

  lemma TwoDigits(a: nat, b: nat, h: nat, l: nat, r: nat)
    requires r < a && l < b
    ensures a * (b * h + l) + r == (a * b) * h + (l * a + r)
    ensures l * a + r < a * b
  {
    MulLe(l + 1, b, a);
    assert (l + 1) * a == l * a + a;
    assert a * (b * h) == (a * b) * h;
  }

  /** Dividing twice, and the digit in between. */
  lemma DivDiv(x: nat, a: nat, b: nat)
    requires a > 0 && b > 0
    ensures a * b > 0
    ensures x / (a * b) == x / a / b
    ensures x % (a * b) == ((x / a) % b) * a + x % a
  {
    var q, r := x / a, x % a;
    DivNonNegative(x, a);
    DivNonNegative(q, b);
    FromDigits(x, a, b, q, r, q / b, q % b);
  }

  lemma FromDigits(x: nat, a: nat, b: nat, q: nat, r: nat, h: nat, l: nat)
    requires r < a && l < b && q == b * h + l && x == a * q + r
    ensures a * b > 0 && x / (a * b) == h && x % (a * b) == l * a + r
  {
    MulAtLeast(a, b);
    TwoDigits(a, b, h, l, r);
    DivModUnique(x, a * b, h, l * a + r);
  }

  /** Division and remainder by 2p, from those by p of the half. */
  lemma HalfMod(x: nat, p: nat)
    requires p > 0
    ensures x % (2 * p) == 2 * ((x / 2) % p) + x % 2
  {
    var h := x / 2;
    var q, r := h / p, h % p;
    assert h == p * q + r;
    assert (2 * p) * q == 2 * (p * q);
    DivModUnique(x, 2 * p, q, 2 * r + x % 2);
  }

  /** Masking with k low ones keeps the remainder modulo 2^k. */
  lemma {:induction false} AndMask(x: nat, k: nat)
    ensures And(x, Pow2(k) - 1) == x % Pow2(k)
  {
    if x == 0 || k == 0 {
    } else {
      var p := Pow2(k - 1);
      AndMask(x / 2, k - 1);
      assert (Pow2(k) - 1) / 2 == p - 1 && (Pow2(k) - 1) % 2 == 1;
      HalfMod(x, p);
    }
  }

  lemma AndEven(x: nat, h: nat)
    ensures And(x, 2 * h) == 2 * And(x / 2, h)
  {
  }

  /** Masking with the complement of k low ones drops the remainder modulo 2^k. */
  lemma {:induction false} AndNotMask(x: nat, k: nat, m: nat)
    requires k <= m && x < Pow2(m)
    ensures Pow2(k) <= Pow2(m)
    ensures And(x, Pow2(m) - Pow2(k)) == x - x % Pow2(k)
  {
    hide And;
    Pow2Monotone(k, m);
    if k == 0 {
      AndMask(x, m);
      DivModUnique(x, Pow2(m), 0, x);
    } else {
      var p, pm := Pow2(k - 1), Pow2(m - 1);
      AndNotMask(x / 2, k - 1, m - 1);
      AndEven(x, pm - p);
      assert Pow2(m) - Pow2(k) == 2 * (pm - p);
      HalfMod(x, p);
    }
  }

  lemma {:induction false} Pow2Monotone(k: nat, m: nat)
    requires k <= m
    ensures Pow2(k) <= Pow2(m)
  {
    if k < m { Pow2Monotone(k, m - 1); }
  }

  /** Or-ing a field below bit k into a word whose low k bits are clear is addition. */
  lemma {:induction false} OrDisjoint(hi: nat, k: nat, lo: nat)
    requires lo < Pow2(k)
    ensures Or(hi * Pow2(k), lo) == hi * Pow2(k) + lo
  {
    if k == 0 || hi == 0 || lo == 0 {
    } else {
      var p := Pow2(k - 1);
      OrDisjoint(hi, k - 1, lo / 2);
      var x := hi * Pow2(k);
      assert x == 2 * (hi * p);
      assert x / 2 == hi * p && x % 2 == 0;
    }
  }

  lemma {:induction false} AndAtMost(x: nat, y: nat)
    ensures And(x, y) <= x
  {
    if x != 0 && y != 0 { AndAtMost(x / 2, y / 2); }
  }

  lemma {:induction false} OrBelow(x: nat, y: nat, k: nat)
    requires x < Pow2(k) && y < Pow2(k)
    ensures Or(x, y) < Pow2(k)
    decreases k
  {
    if k > 0 { OrBelow(x / 2, y / 2, k - 1); }
  }

  /** The powers of two at which the source cuts words. */
  lemma Pow2Table()
    ensures Pow2(1) == 2 && Pow2(2) == 4 && Pow2(3) == 8 && Pow2(8) == 0x100 && Pow2(9) == 0x200
    ensures Pow2(10) == 0x400 && Pow2(11) == 0x800 && Pow2(12) == 0x1000 && Pow2(19) == 0x8_0000
    ensures Pow2(21) == 0x20_0000 && Pow2(26) == 0x400_0000 && Pow2(28) == 0x1000_0000
    ensures Pow2(30) == 0x4000_0000 && Pow2(37) == 0x20_0000_0000 && Pow2(39) == 0x80_0000_0000
    ensures Pow2(44) == 0x1000_0000_0000 && Pow2(46) == 0x4000_0000_0000 && Pow2(48) == 0x1_0000_0000_0000
    ensures Pow2(60) == 0x1000_0000_0000_0000 && Pow2(64) == WORD
  {
    assert Pow2(8) == 0x100;
    assert Pow2(16) == 0x1_0000;
    assert Pow2(24) == 0x100_0000;
    assert Pow2(32) == 0x1_0000_0000;
    assert Pow2(40) == 0x100_0000_0000;
    assert Pow2(48) == 0x1_0000_0000_0000;
    assert Pow2(56) == 0x100_0000_0000_0000;
  }

  /** Bit `i` of `x`. */
  predicate Bit(x: nat, i: nat) {
    if i == 0 then x % 2 == 1 else Bit(x / 2, i - 1)
  }

  lemma {:induction false} OrBit(x: nat, y: nat, i: nat)
    ensures Bit(Or(x, y), i) <==> Bit(x, i) || Bit(y, i)
    decreases i
  {
    if x == 0 {
      ZeroBit(i);
    } else if y == 0 {
      ZeroBit(i);
    } else if i > 0 {
      OrBit(x / 2, y / 2, i - 1);
    }
  }

  ghost predicate BitsWithin(y: nat, x: nat) {
    forall i: nat :: Bit(y, i) ==> Bit(x, i)
  }

  /** `y` adds nothing to `x` if and only if every bit of `y` is one of `x`. */
  lemma {:induction false} OrIsLeft(x: nat, y: nat)
    ensures Or(x, y) == x <==> BitsWithin(y, x)
    decreases x + y
  {
    if Or(x, y) == x {
      forall i: nat | Bit(y, i)
        ensures Bit(x, i)
      {
        OrBit(x, y, i);
      }
    }
    if BitsWithin(y, x) {
      BitsInside(x, y);
    }
  }

  lemma {:induction false} BitsInside(x: nat, y: nat)
    requires BitsWithin(y, x)
    ensures Or(x, y) == x
    decreases x + y
  {
    if x == 0 {
      forall i: nat
        ensures !Bit(y, i)
      {
        ZeroBit(i);
      }
      NoBitsZero(y);
    } else if y != 0 {
      forall i: nat | Bit(y / 2, i)
        ensures Bit(x / 2, i)
      {
        assert Bit(y, i + 1);
      }
      assert Bit(y, 0) ==> Bit(x, 0);
      BitsInside(x / 2, y / 2);
    }
  }

  lemma {:induction false} NoBitsZero(y: nat)
    requires forall i: nat :: !Bit(y, i)
    ensures y == 0
  {
    if y != 0 {
      assert !Bit(y, 0);
      forall i: nat
        ensures !Bit(y / 2, i)
      {
        assert !Bit(y, i + 1);
      }
      NoBitsZero(y / 2);
    }
  }

  lemma {:induction false} AndBit(x: nat, y: nat, i: nat)
    ensures Bit(And(x, y), i) <==> Bit(x, i) && Bit(y, i)
    decreases i
  {
    if x == 0 || y == 0 {
      ZeroBit(i);
    } else if i > 0 {
      AndBit(x / 2, y / 2, i - 1);
    }
  }

  lemma {:induction false} ZeroBit(i: nat)
    ensures !Bit(0, i)
  {
    if i > 0 { ZeroBit(i - 1); }
  }

  lemma {:induction false} PowerBit(k: nat, i: nat)
    ensures Bit(Pow2(k), i) <==> i == k
    decreases k
  {
    if k == 0 {
      if i > 0 { ZeroBit(i - 1); }
    } else if i > 0 {
      assert Pow2(k) / 2 == Pow2(k - 1);
      PowerBit(k - 1, i - 1);
    }
  }

  lemma {:induction false} ComplementBit(x: nat, k: nat, i: nat)
    requires x < Pow2(k) && i < k
    ensures Bit(Pow2(k) - 1 - x, i) <==> !Bit(x, i)
    decreases k
  {
    var p := Pow2(k - 1);
    assert Pow2(k) == 2 * p;
    assert (2 * p - 1 - x) / 2 == p - 1 - x / 2;
    assert (2 * p - 1 - x) % 2 == 1 - x % 2;
    if i > 0 { ComplementBit(x / 2, k - 1, i - 1); }
  }

  lemma {:induction false} BitOfQuotient(x: nat, i: nat)
    ensures Bit(x, i) <==> (x / Pow2(i)) % 2 == 1
    decreases i
  {
    if i > 0 {
      BitOfQuotient(x / 2, i - 1);
      DivDiv(x, 2, Pow2(i - 1));
    }
  }
}
