/** HashCode: Horner's rule in 32-bit arithmetic, reduced at every step, and exactly when that
    is the documented polynomial modulo mod. */
module HashCodes {
  import opened Bytes

  /** A C char where char is signed. */
  type cchar = c: int | -0x80 <= c < 0x80

  predicate Ascii(s: seq<cchar>) {
    forall i :: 0 <= i < |s| ==> 0 <= s[i]
  }

  function Pow31(n: nat): (p: nat) {
    if n == 0 then 1 else 31 * Pow31(n - 1)
  }

  /** The documented value: s[0] * 31^(n-1) + ... + s[n-1]. */
  function Polynomial(s: seq<cchar>): int {
    if s == [] then 0 else s[0] * Pow31(|s| - 1) + Polynomial(s[1..])
  }

  /** One pass of the loop; unsigned 32-bit arithmetic wraps. */
  function Step(result: u32, c: cchar, mod: u32): u32
    requires mod > 0
  {
    (31 * result % TWO32 + c) % TWO32 % mod
  }

  function Looped(s: seq<cchar>, mod: u32): u32
    requires mod > 0
  {
    if s == [] then 0 else Step(Looped(s[..|s| - 1], mod), s[|s| - 1], mod)
  }

  method HashCode(input: seq<cchar>, mod: u32) returns (result: u32)
    requires mod > 0 && |input| < 0x8000_0000
    ensures result == Looped(input, mod)
    ensures Ascii(input) && Faithful(mod) ==> result == Polynomial(input) % mod
  {
    result := 0;
    var radis: u32 := 31;
    var i := 0;
    while i < |input|
      invariant 0 <= i <= |input|
      invariant result == Looped(input[..i], mod)
    {
      assert input[..i + 1][..i] == input[..i];
      result := (radis * result % TWO32 + input[i]) % TWO32 % mod;
      i := i + 1;
    }
    assert input[..i] == input;
    if Ascii(input) && Faithful(mod) {
      LoopIsPolynomial(input, mod);
    }
  }

  lemma {:induction false} PolynomialSnoc(s: seq<cchar>, c: cchar)
    ensures Polynomial(s + [c]) == 31 * Polynomial(s) + c
  {
    if s == [] {
      assert s + [c] == [c];
    } else {
      PolynomialSnoc(s[1..], c);
      assert (s + [c])[1..] == s[1..] + [c];
      var p := Pow31(|s| - 1);
      assert s[0] * (31 * p) == 31 * (s[0] * p);
    }
  }

  /** The moduli for which the loop computes the documented value. */
  predicate Faithful(mod: u32)
    requires mod > 0
  {
    mod <= 138547329 || TWO32 % mod == 0
  }

  lemma AtLeast(d: int, k: int)
    requires d > 0 && k >= 1
    ensures d * k >= d
  {
    assert d * (k - 1) >= 0;
  }

  lemma ResidueUnique(x: int, d: int, q: int, r: int)
    requires 0 <= r < d && x == d * q + r
    ensures x % d == r
  {
    var p := x / d;
    assert x % d - r == d * (q - p) by { assert d * (q - p) == d * q - d * p; }
    assert d * (q - p) == -(d * (p - q));
    if q - p >= 1 {
      AtLeast(d, q - p);
    } else if p - q >= 1 {
      AtLeast(d, p - q);
    }
  }

  lemma SameResidue(x: int, y: int, d: int, k: int)
    requires d > 0 && x == y + d * k
    ensures x % d == y % d
  {
    assert x == d * (y / d + k) + y % d by { assert d * (y / d + k) == d * (y / d) + d * k; }
    ResidueUnique(x, d, y / d + k, y % d);
  }

  /** Reducing modulo a multiple of d first does not change the residue modulo d. */
  lemma ModOfMod(x: int, d: int, n: int)
    requires d > 0 && n > 0 && n % d == 0
    ensures x % n % d == x % d
  {
    var q, k := n / d, x / n;
    assert n * k == d * (q * k) by { assert n == d * q; }
    SameResidue(x, x % n, d, q * k);
  }

  lemma HornerResidue(r: u32, p: int, c: cchar, mod: u32)
    requires mod > 0 && r == p % mod
    ensures (31 * r + c) % mod == (31 * p + c) % mod
  {
    var q := p / mod;
    assert 31 * (mod * q) == mod * (31 * q);
    SameResidue(31 * p + c, 31 * r + c, mod, 31 * q);
  }

  lemma WrapOnce(x: int, c: int)
    ensures (x % TWO32 + c) % TWO32 == (x + c) % TWO32
  {}

  lemma StepWraps(r: u32, c: cchar, mod: u32)
    requires mod > 0 && c >= 0 && r < mod && Faithful(mod)
    ensures Step(r, c, mod) == (31 * r + c) % mod
  {
    var x := 31 * r;
    WrapOnce(x, c);
    if TWO32 % mod == 0 {
      ModOfMod(x + c, mod, TWO32);
    } else {
      ResidueUnique(x + c, TWO32, 0, x + c);
    }
  }

  lemma {:induction false} LoopIsPolynomial(s: seq<cchar>, mod: u32)
    requires mod > 0 && Ascii(s) && Faithful(mod)
    ensures Looped(s, mod) == Polynomial(s) % mod
    decreases |s|
  {
    if s != [] {
      var t, c := s[..|s| - 1], s[|s| - 1];
      LoopIsPolynomial(t, mod);
      assert s == t + [c];
      PolynomialSnoc(t, c);
      hide Polynomial, Step;
      HornerResidue(Looped(t, mod), Polynomial(t), c, mod);
      StepWraps(Looped(t, mod), c, mod);
    }
  }

  /** Seven ASCII bytes whose value is 2^32 + 30, with every shorter prefix below 138547330. */
  const WRAPS: seq<cchar> := [4, 26, 0, 19, 29, 21, 127]

  lemma LoopedPrefix(s: seq<cchar>, k: nat, mod: u32)
    requires mod > 0 && 0 < k <= |s|
    ensures Looped(s[..k], mod) == Step(Looped(s[..k - 1], mod), s[k - 1], mod)
    ensures Polynomial(s[..k]) == 31 * Polynomial(s[..k - 1]) + s[k - 1]
  {
    assert s[..k][..k - 1] == s[..k - 1];
    assert s[..k] == s[..k - 1] + [s[k - 1]];
    PolynomialSnoc(s[..k - 1], s[k - 1]);
  }

  lemma StepSmall(r: u32, c: cchar, mod: u32)
    requires 0 <= 31 * r + c < mod
    ensures Step(r, c, mod) == 31 * r + c
  {
    ResidueUnique(31 * r + c, mod, 0, 31 * r + c);
  }

  lemma OtherModuliFail(mod: u32)
    requires mod > 0 && !Faithful(mod)
    ensures Ascii(WRAPS) && Looped(WRAPS, mod) != Polynomial(WRAPS) % mod
  {
    WrapsAtTheEnd(WRAPS, mod);
    if (TWO32 + 30) % mod == 30 {
      ResidueUnique(TWO32, mod, (TWO32 + 30) / mod, 0);
    }
  }

  lemma WrapsAtTheEnd(s: seq<cchar>, mod: u32)
    requires mod > 138547329 && |s| == 7
    requires s[0] == 4 && s[1] == 26 && s[2] == 0 && s[3] == 19 && s[4] == 29 && s[5] == 21 && s[6] == 127
    ensures Looped(s, mod) == 30 && Polynomial(s) == TWO32 + 30
  {
    assert s[..0] == [] && s[..7] == s;
    assert Looped(s[..0], mod) == 0 && Polynomial(s[..0]) == 0;
    hide Step, Looped, Polynomial;
    LoopedPrefix(s, 1, mod); StepSmall(0, 4, mod);
    LoopedPrefix(s, 2, mod); StepSmall(4, 26, mod);
    LoopedPrefix(s, 3, mod); StepSmall(150, 0, mod);
    LoopedPrefix(s, 4, mod); StepSmall(4650, 19, mod);
    LoopedPrefix(s, 5, mod); StepSmall(144169, 29, mod);
    LoopedPrefix(s, 6, mod); StepSmall(4469268, 21, mod);
    LoopedPrefix(s, 7, mod); LastStepWraps(mod);
  }

  lemma LastStepWraps(mod: u32)
    requires mod > 138547329
    ensures Step(138547329, 127, mod) == 30
  {
    ResidueUnique(30, mod, 0, 30);
  }

  /** The loop meets its documentation on every ASCII string exactly for these moduli. */
  lemma HashCodeMeetsDocumentation(mod: u32)
    requires mod > 0
    ensures (forall s :: Ascii(s) ==> Looped(s, mod) == Polynomial(s) % mod) <==> Faithful(mod)
  {
    if Faithful(mod) {
      forall s | Ascii(s) ensures Looped(s, mod) == Polynomial(s) % mod {
        LoopIsPolynomial(s, mod);
      }
    } else {
      OtherModuliFail(mod);
    }
  }

  // ----- Strings with negative chars -----

  /** A negative first char wraps around to just below 2^32 before it is reduced. */
  lemma NegativeChar(c: cchar, mod: u32)
    requires mod > 0
    ensures Looped([c], mod) == (if c < 0 then TWO32 + c else c) % mod
  {
    var s := [c];
    assert s[..0] == [];
    assert Looped(s[..0], mod) == 0;
    hide Step;
    StepFromZero(c, mod);
  }

  lemma StepFromZero(c: cchar, mod: u32)
    requires mod > 0
    ensures Step(0, c, mod) == (if c < 0 then TWO32 + c else c) % mod
  {}

  lemma StepModulo(r: u32, c: cchar, mod: u32)
    requires mod > 0 && TWO32 % mod == 0
    ensures Step(r, c, mod) == (31 * r + c) % mod
  {
    WrapOnce(31 * r, c);
    ModOfMod(31 * r + c, mod, TWO32);
  }

  lemma {:induction false} AnyStringPolynomial(s: seq<cchar>, mod: u32)
    requires mod > 0 && TWO32 % mod == 0
    ensures Looped(s, mod) == Polynomial(s) % mod
    decreases |s|
  {
    if s != [] {
      var t, c := s[..|s| - 1], s[|s| - 1];
      AnyStringPolynomial(t, mod);
      assert s == t + [c];
      PolynomialSnoc(t, c);
      hide Polynomial, Step;
      HornerResidue(Looped(t, mod), Polynomial(t), c, mod);
      StepModulo(Looped(t, mod), c, mod);
    }
  }

  /** With chars of either sign the loop meets its documentation exactly for the divisors of 2^32. */
  lemma AnyStringMeetsDocumentation(mod: u32)
    requires mod > 0
    ensures (forall s :: Looped(s, mod) == Polynomial(s) % mod) <==> TWO32 % mod == 0
  {
    if TWO32 % mod == 0 {
      forall s ensures Looped(s, mod) == Polynomial(s) % mod { AnyStringPolynomial(s, mod); }
    } else {
      var s: seq<cchar> := [-1];
      NegativeChar(-1, mod);
      assert Polynomial(s) == -1;
      hide Looped, Polynomial;
      if (TWO32 - 1) % mod == -1 % mod {
        SameResidueDivides(mod);
      }
    }
  }

  lemma SameResidueDivides(mod: u32)
    requires mod > 0 && (TWO32 - 1) % mod == -1 % mod
    ensures TWO32 % mod == 0
  {
    var r, p, q := -1 % mod, (TWO32 - 1) / mod, -1 / mod;
    assert TWO32 - 1 == mod * p + r && -1 == mod * q + r;
    assert TWO32 == mod * (p - q) by { assert mod * (p - q) == mod * p - mod * q; }
    ResidueUnique(TWO32, mod, p - q, 0);
  }
}
