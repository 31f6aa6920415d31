/** Exclusive-or, shifts and multiplication on unsigned 64-bit words, as arithmetic. */
module Words {
  import opened Bytes

  /** Bitwise exclusive-or, one bit at a time. */
  function XorBits(a: nat, b: nat): nat
    decreases a + b
  {
    if a == 0 && b == 0 then 0
    else (if a % 2 == b % 2 then 0 else 1) + 2 * XorBits(a / 2, b / 2)
  }

  lemma {:induction false} XorBitsZero(a: nat)
    ensures XorBits(a, 0) == a && XorBits(0, a) == a
  {
    if a != 0 { XorBitsZero(a / 2); }
  }

  lemma {:induction false} XorBitsSelf(a: nat)
    ensures XorBits(a, a) == 0
  {
    if a != 0 { XorBitsSelf(a / 2); }
  }

  lemma {:induction false} XorBitsAssociative(a: nat, b: nat, c: nat)
    ensures XorBits(XorBits(a, b), c) == XorBits(a, XorBits(b, c))
    decreases a + b + c
  {
    if a + b + c != 0 {
      XorBitsAssociative(a / 2, b / 2, c / 2);
      XorBitsHalf(a, b);
      XorBitsHalf(b, c);
    }
  }

  lemma {:induction false} XorBitsHalf(a: nat, b: nat)
    ensures XorBits(a, b) / 2 == XorBits(a / 2, b / 2)
  {}

  lemma {:induction false} XorBitsBound(a: nat, b: nat, n: nat)
    requires a < Pow2(n) && b < Pow2(n)
    ensures XorBits(a, b) < Pow2(n)
    decreases n
  {
    if n != 0 { XorBitsBound(a / 2, b / 2, n - 1); }
  }

  /** a >> n, as n halvings. */
  function ShiftRight(a: nat, n: nat): nat
    decreases n
  {
    if n == 0 then a else ShiftRight(a / 2, n - 1)
  }

  lemma {:induction false} XorBitsShiftRight(a: nat, b: nat, n: nat)
    ensures ShiftRight(XorBits(a, b), n) == XorBits(ShiftRight(a, n), ShiftRight(b, n))
    decreases n
  {
    if n != 0 {
      XorBitsHalf(a, b);
      XorBitsShiftRight(a / 2, b / 2, n - 1);
    }
  }

  /** Shifting right at most halves: n shifts of an n-bit word leave nothing. */
  lemma {:induction false} ShiftRightOut(a: nat, m: nat, n: nat)
    requires a < Pow2(m)
    ensures ShiftRight(a, n) <= a
    ensures m <= n ==> ShiftRight(a, n) == 0
    decreases n
  {
    if n != 0 {
      if m == 0 {
        ShiftRightOut(a / 2, 0, n - 1);
      } else {
        ShiftRightOut(a / 2, m - 1, n - 1);
      }
    }
  }

  lemma {:induction false} ShiftRightAdd(a: nat, m: nat, n: nat)
    ensures ShiftRight(ShiftRight(a, m), n) == ShiftRight(a, m + n)
    decreases m
  {
    if m != 0 { ShiftRightAdd(a / 2, m - 1, n); }
  }

  /** Shifting right is dividing by a power of two. */
  lemma {:induction false} ShiftRightDivides(a: nat, n: nat)
    ensures ShiftRight(a, n) == a / Pow2(n)
    decreases n
  {
    if n != 0 {
      ShiftRightDivides(a / 2, n - 1);
      HalvesDivide(a, Pow2(n - 1));
    }
  }

  lemma HalvesDivide(a: nat, d: nat)
    requires d > 0
    ensures a / 2 / d == a / (2 * d)
  {
    var q, r := a / 2 / d, a / 2 % d;
    assert a / 2 == d * q + r;
    assert a == (2 * d) * q + (2 * r + a % 2);
    QuotientUnique(a, 2 * d, q, 2 * r + a % 2);
  }

  lemma QuotientUnique(a: nat, d: nat, q: nat, r: nat)
    requires r < d && a == d * q + r
    ensures a / d == q
  {
    var p, e := a / d, q - a / d;
    assert d * e == d * q - d * p;
    assert d * e == a % d - r;
    if e >= 1 {
      TimesAtLeast(d, e);
    } else if e <= -1 {
      TimesAtLeast(d, -e);
    }
  }

  lemma TimesAtLeast(d: int, k: int)
    requires d > 0 && k >= 1
    ensures d * k >= d && d * (-k) <= -d
  {
    assert d * (k - 1) >= 0;
  }

  lemma {:induction false} XorBitsCommutes(a: nat, b: nat)
    ensures XorBits(a, b) == XorBits(b, a)
    decreases a + b
  {
    if a + b != 0 { XorBitsCommutes(a / 2, b / 2); }
  }

  lemma {:induction false} XorBitsEven(p: nat, lo: nat)
    ensures XorBits(2 * p, lo) == 2 * XorBits(p, lo / 2) + lo % 2
  {
    assert 2 * p / 2 == p;
  }

  function Doubled(a: nat, n: nat): nat { if n == 0 then a else 2 * Doubled(a, n - 1) }

  lemma {:induction false} DoubledIsShift(a: nat, n: nat)
    ensures Doubled(a, n) == a * Pow2(n)
  {
    if n != 0 {
      DoubledIsShift(a, n - 1);
      assert a * (2 * Pow2(n - 1)) == 2 * (a * Pow2(n - 1));
    }
  }

  lemma {:induction false} XorBitsDoubled(hi: nat, lo: nat, n: nat)
    requires lo < Pow2(n)
    ensures XorBits(Doubled(hi, n), lo) == Doubled(hi, n) + lo
    decreases n
  {
    if n == 0 {
      XorBitsZero(hi);
    } else {
      XorBitsDoubled(hi, lo / 2, n - 1);
      XorBitsEven(Doubled(hi, n - 1), lo);
    }
  }

  /** Words with no common bits: exclusive-or is addition. */
  lemma XorBitsDisjoint(hi: nat, lo: nat, n: nat)
    requires lo < Pow2(n)
    ensures XorBits(hi * Pow2(n), lo) == hi * Pow2(n) + lo
  {
    DoubledIsShift(hi, n);
    XorBitsDoubled(hi, lo, n);
  }

  function Xor(a: u64, b: u64): u64 {
    Pow2Values();
    XorBitsBound(a, b, 64);
    XorBits(a, b)
  }

  lemma XorCancels(a: u64, b: u64)
    ensures Xor(Xor(a, b), b) == a && Xor(b, Xor(b, a)) == a
  {
    XorBitsAssociative(a, b, b);
    XorBitsAssociative(b, b, a);
    XorBitsSelf(b);
    XorBitsZero(a);
  }

  /** k ^ (k >> n). */
  function XorShift(k: u64, n: nat): u64 {
    Pow2Values();
    ShiftRightOut(k, 64, n);
    Xor(k, ShiftRight(k, n))
  }

  /** For a shift of at least half the word, x ^= x >> n undoes itself. */
  lemma XorShiftTwice(k: u64, n: nat)
    requires 32 <= n
    ensures XorShift(XorShift(k, n), n) == k
  {
    Pow2Values();
    var j := ShiftRight(k, n);
    ShiftRightOut(k, 64, n);
    calc {
      ShiftRight(XorShift(k, n), n);
      { XorBitsShiftRight(k, j, n); }
      XorBits(j, ShiftRight(j, n));
      { ShiftRightAdd(k, n, n); ShiftRightOut(k, 64, n + n); }
      XorBits(j, 0);
      { XorBitsZero(j); }
      j;
    }
    XorCancels(k, j);
  }
}
