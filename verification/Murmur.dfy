/** MurmurHash64: what the loop computes, that a change confined to one block (or to the
    leftover bytes) always changes the hash, and that hashing one word is a bijection. */
module Murmur {
  import opened Bytes
  import opened Words

  function Mul(k: u64): u64 { k * 0xc6a4_a793_5bd1_e995 % TWO64 }

  /** Multiplication by the inverse of the odd multiplier modulo 2^64. */
  function Div(k: u64): u64 { k * 0x5f7a_0ea7_e59b_19bd % TWO64 }

  function Shift(k: u64): u64 { XorShift(k, 47) }

  lemma MulDiv(k: u64)
    ensures Div(Mul(k)) == k && Mul(Div(k)) == k
  {
    // The product of the two multipliers is 1 + 0x4a15d006d409ab6f * 2^64.
    var j, i := k * 0xc6a4_a793_5bd1_e995 / TWO64, k * 0x5f7a_0ea7_e59b_19bd / TWO64;
    Residue(Mul(k) * 0x5f7a_0ea7_e59b_19bd, k, 0x4a15d006d409ab6f * k - j * 0x5f7a_0ea7_e59b_19bd);
    Residue(Div(k) * 0xc6a4_a793_5bd1_e995, k, 0x4a15d006d409ab6f * k - i * 0xc6a4_a793_5bd1_e995);
  }

  lemma Residue(x: int, k: u64, t: int)
    requires x == k + TWO64 * t
    ensures x % TWO64 == k
  {}

  function Mix(k: u64): u64 { Mul(Shift(Mul(k))) }

  function UnMix(k: u64): u64 { Div(Shift(Div(k))) }

  /** What one pass of the loop does to h. */
  function Absorb(h: u64, k: u64): u64 { Mul(Xor(h, Mix(k))) }

  function Start(len: nat, seed: u32): u64 { Xor(seed, Mul(len % TWO64)) }

  function Fold(h: u64, ws: seq<u64>): u64
    decreases |ws|
  {
    if ws == [] then h else Fold(Absorb(h, ws[0]), ws[1..])
  }

  /** The little-endian word that at most eight bytes denote. */
  function LeWord(s: seq<byte>): u64
    requires |s| <= 8
  {
    FromLeBound(s);
    Pow2Monotone(8 * |s|, 64);
    Pow2Values();
    FromLe(s)
  }

  function Tail(h: u64, t: seq<byte>): u64
    requires |t| < 8
  {
    if t == [] then h else Mul(Xor(h, LeWord(t)))
  }

  function Finish(h: u64): u64 { Shift(Mul(Shift(h))) }

  function Blocks(key: seq<byte>): (ws: seq<u64>)
    ensures |ws| == |key| / 8
  {
    seq(|key| / 8, i requires 0 <= i < |key| / 8 => LeWord(key[8 * i..8 * i + 8]))
  }

  function Rest(key: seq<byte>): (t: seq<byte>)
    ensures |t| == |key| % 8
  {
    key[8 * (|key| / 8)..]
  }

  function Hashed(key: seq<byte>, seed: u32): u64 {
    Finish(Tail(Fold(Start(|key|, seed), Blocks(key)), Rest(key)))
  }

  /** Folding in the low n bytes of t, highest first, each in its own place in the word. */
  function FallThrough(h: u64, t: seq<byte>, n: nat): u64
    requires n <= |t| && n < 8
    decreases n
  {
    if n == 0 then h else FallThrough(Xor(h, Lane(t[n - 1], n - 1)), t, n - 1)
  }

  /** Byte i of a word in its place: b << 8 * i. */
  function Lane(b: byte, i: nat): u64
    requires i < 8
  {
    LaneFits(b, i);
    b * Pow2(8 * i)
  }

  lemma LaneFits(b: byte, i: nat)
    requires i < 8
    ensures 0 <= b * Pow2(8 * i) < TWO64
  {
    hide Pow2;
    var p := Pow2(8 * i);
    assert Pow2(8 * i + 8) == 0x100 * p by { Pow2Add(8 * i, 8); Pow2Byte(); }
    Pow2Monotone(8 * i + 8, 64);
    Pow2Values();
    assert b * p <= 0xFF * p;
  }

  /** The fall-through switch is one exclusive-or with the word its bytes denote. */
  lemma {:induction false} SwitchFallsThrough(h: u64, t: seq<byte>, n: nat)
    requires n <= |t| && n < 8
    ensures FallThrough(h, t, n) == Xor(h, LeWord(t[..n]))
    decreases n
  {
    if n == 0 {
      XorBitsZero(h);
    } else {
      var low, b := t[..n - 1], t[n - 1];
      SwitchFallsThrough(Xor(h, Lane(b, n - 1)), t, n - 1);
      XorBitsAssociative(h, Lane(b, n - 1), LeWord(low));
      FromLeBound(low);
      XorBitsDisjoint(b, LeWord(low), 8 * (n - 1));
      FromLeSnoc(low, b);
      assert low + [b] == t[..n];
    }
  }

  /** The key is at most as long as the C int that carries its length allows. */
  method MurmurHash64(key: seq<byte>, seed: u32) returns (h: u64)
    requires |key| < 0x8000_0000
    ensures h == Hashed(key, seed)
  {
    hide Mul, Shift, Xor, LeWord, Lane;
    h := Xor(seed, Mul(|key|));
    ghost var start := h;
    var data := 0;
    while data != |key| / 8
      invariant 0 <= data <= |key| / 8
      invariant Fold(h, Blocks(key)[data..]) == Fold(start, Blocks(key))
    {
      var k := LeWord(key[8 * data..8 * data + 8]);
      k := Mul(k);
      k := Shift(k);
      k := Mul(k);
      assert Blocks(key)[data..][1..] == Blocks(key)[data + 1..];
      h := Xor(h, k);
      h := Mul(h);
      data := data + 1;
    }
    var data2 := key[8 * data..];
    h := FoldTail(h, data2);
    h := Shift(h);
    h := Mul(h);
    h := Shift(h);
  }

  /** The switch on the leftover length, each case falling through to the next. */
  method FoldTail(was: u64, data2: seq<byte>) returns (h: u64)
    requires |data2| < 8
    ensures h == Tail(was, data2)
  {
    hide Xor, LeWord, Mul, Lane;
    SwitchFallsThrough(was, data2, |data2|);
    assert data2[..|data2|] == data2;
    h := was;
    var n := |data2|;
    if n >= 7 { h := Xor(h, Lane(data2[6], 6)); }
    if n >= 6 { h := Xor(h, Lane(data2[5], 5)); }
    if n >= 5 { h := Xor(h, Lane(data2[4], 4)); }
    if n >= 4 { h := Xor(h, Lane(data2[3], 3)); }
    if n >= 3 { h := Xor(h, Lane(data2[2], 2)); }
    if n >= 2 { h := Xor(h, Lane(data2[1], 1)); }
    if n >= 1 {
      h := Xor(h, Lane(data2[0], 0));
      h := Mul(h);
    }
  }

  const SEED: u32 := 0xEE6B_27EB

  method HashString(str: seq<byte>) returns (h: u64)
    requires |str| < 0x8000_0000
    ensures h == Hashed(str, SEED)
  {
    h := MurmurHash64(str, SEED);
  }

  /** A word is hashed as its eight bytes in memory. */
  method HashWord(n: u64) returns (h: u64)
    ensures h == WordHash(n)
  {
    h := MurmurHash64(ToLe(n, 8), SEED);
  }

  function WordHash(n: u64): u64 { Hashed(ToLe(n, 8), SEED) }

  // ----- Every step can be undone -----

  function UnAbsorb(h: u64, k: u64): u64 { Xor(Div(h), Mix(k)) }

  /** The word whose absorption takes h to target. */
  function WordBetween(h: u64, target: u64): u64 { UnMix(Xor(h, Div(target))) }

  function UnFold(h: u64, ws: seq<u64>): u64
    decreases |ws|
  {
    if ws == [] then h else UnAbsorb(UnFold(h, ws[1..]), ws[0])
  }

  function UnTail(h: u64, t: seq<byte>): u64
    requires |t| < 8
  {
    if t == [] then h else Xor(Div(h), LeWord(t))
  }

  function UnFinish(h: u64): u64 { Shift(Div(Shift(h))) }

  lemma ShiftTwice(k: u64)
    ensures Shift(Shift(k)) == k
  {
    XorShiftTwice(k, 47);
  }

  lemma MixInverse(k: u64)
    ensures UnMix(Mix(k)) == k && Mix(UnMix(k)) == k
  {
    MulDiv(k);
    ShiftTwice(Mul(k));
    ShiftTwice(Div(k));
    MulDiv(Shift(Mul(k)));
    MulDiv(Shift(Div(k)));
    hide Mul, Div, Shift;
  }

  lemma FinishInverse(h: u64)
    ensures UnFinish(Finish(h)) == h && Finish(UnFinish(h)) == h
  {
    hide Mul, Div, Shift;
    ShiftTwice(h);
    MulDiv(Shift(h));
    ShiftTwice(Mul(Shift(h)));
    ShiftTwice(Div(Shift(h)));
  }

  lemma AbsorbInverse(h: u64, k: u64)
    ensures UnAbsorb(Absorb(h, k), k) == h && Absorb(UnAbsorb(h, k), k) == h
  {
    hide Mul, Div, Mix, Xor;
    MulDiv(Xor(h, Mix(k)));
    MulDiv(h);
    XorCancels(h, Mix(k));
    XorCancels(Div(h), Mix(k));
  }

  lemma WordBetweenInverse(h: u64, k: u64)
    ensures WordBetween(h, Absorb(h, k)) == k && Absorb(h, WordBetween(h, k)) == k
  {
    hide Mul, Div, Mix, UnMix, Xor;
    MulDiv(Xor(h, Mix(k)));
    MulDiv(k);
    XorCancels(Mix(k), h);
    XorCancels(Div(k), h);
    MixInverse(k);
    MixInverse(Xor(h, Div(k)));
  }

  lemma {:induction false} FoldInverse(h: u64, ws: seq<u64>)
    ensures UnFold(Fold(h, ws), ws) == h && Fold(UnFold(h, ws), ws) == h
    decreases |ws|
  {
    if ws != [] {
      hide Absorb, UnAbsorb;
      FoldInverse(Absorb(h, ws[0]), ws[1..]);
      FoldInverse(h, ws[1..]);
      AbsorbInverse(h, ws[0]);
      AbsorbInverse(UnFold(h, ws[1..]), ws[0]);
    }
  }

  lemma TailInverse(h: u64, t: seq<byte>)
    requires |t| < 8
    ensures UnTail(Tail(h, t), t) == h && Tail(UnTail(h, t), t) == h
  {
    hide Mul, Div, Xor, LeWord;
    MulDiv(Xor(h, LeWord(t)));
    MulDiv(h);
    XorCancels(h, LeWord(t));
    XorCancels(Div(h), LeWord(t));
  }

  lemma {:induction false} FoldSplit(h: u64, a: seq<u64>, b: seq<u64>)
    ensures Fold(h, a + b) == Fold(Fold(h, a), b)
    decreases |a|
  {
    hide Absorb;
    if a == [] {
      assert a + b == b;
    } else {
      FoldSplit(Absorb(h, a[0]), a[1..], b);
      assert (a + b)[1..] == a[1..] + b;
    }
  }

  // ----- Keys that differ in one place -----

  lemma BlocksSplit(a: seq<byte>, b: seq<byte>)
    requires |a| % 8 == 0
    ensures Blocks(a + b) == Blocks(a) + Blocks(b) && Rest(a + b) == Rest(b)
  {
    hide LeWord;
    var ab := a + b;
    EighthsOfSum(|a|, |b|);
    forall i | 0 <= i < |ab| / 8 ensures Blocks(ab)[i] == (Blocks(a) + Blocks(b))[i] {
      if i < |a| / 8 {
        SliceOfSum(a, b, 8 * i);
      } else {
        var j := i - |a| / 8;
        assert 8 * i == |a| + 8 * j;
        SliceOfSum(a, b, 8 * i);
      }
    }
    SliceFromSum(a, b);
  }

  lemma SliceOfSum(a: seq<byte>, b: seq<byte>, i: nat)
    requires i + 8 <= |a + b|
    ensures i + 8 <= |a| ==> (a + b)[i..i + 8] == a[i..i + 8]
    ensures |a| <= i ==> (a + b)[i..i + 8] == b[i - |a|..i - |a| + 8]
  {}

  lemma SliceFromSum(a: seq<byte>, b: seq<byte>)
    requires |a| % 8 == 0
    ensures (a + b)[8 * (|a + b| / 8)..] == b[8 * (|b| / 8)..]
  {
    EighthsOfSum(|a|, |b|);
  }

  lemma EighthsOfSum(x: nat, y: nat)
    requires x % 8 == 0
    ensures 8 * ((x + y) / 8) == x + 8 * (y / 8)
  {}

  /** How the hash depends on one block, all else fixed. */
  lemma HashAroundBlock(a: seq<byte>, block: seq<byte>, z: seq<byte>, seed: u32)
    requires |a| % 8 == 0 && |block| == 8
    ensures var h := Fold(Start(|a| + 8 + |z|, seed), Blocks(a));
            Hashed(a + block + z, seed) == Finish(Tail(Fold(Absorb(h, LeWord(block)), Blocks(z)), Rest(z)))
  {
    hide LeWord, Absorb, Tail, Finish, Start;
    BlocksSplit(a, block + z);
    BlocksSplit(block, z);
    assert a + block + z == a + (block + z);
    assert block[0..8] == block;
    assert Blocks(block) == [LeWord(block)];
    var h := Start(|a| + 8 + |z|, seed);
    FoldSplit(h, Blocks(a), Blocks(block) + Blocks(z));
    assert (Blocks(block) + Blocks(z))[1..] == Blocks(z);
  }

  /** Changing one aligned block, and nothing else, changes the hash of a key of any length. */
  lemma BlockChangeChangesHash(a: seq<byte>, block: seq<byte>, other: seq<byte>, z: seq<byte>, seed: u32)
    requires |a| % 8 == 0 && |block| == |other| == 8
    ensures Hashed(a + block + z, seed) == Hashed(a + other + z, seed) <==> block == other
  {
    HashAroundBlock(a, block, z, seed);
    HashAroundBlock(a, other, z, seed);
    var h := Fold(Start(|a| + 8 + |z|, seed), Blocks(a));
    UndoAfterBlock(Absorb(h, LeWord(block)), z);
    UndoAfterBlock(Absorb(h, LeWord(other)), z);
    WordBetweenInverse(h, LeWord(block));
    WordBetweenInverse(h, LeWord(other));
    hide Absorb, WordBetween, Fold, Tail, Finish, Start, Hashed, UnFold, UnTail, UnFinish, LeWord;
    if LeWord(block) == LeWord(other) {
      LeWordInjective(block, other);
    }
  }

  lemma UndoAfterBlock(h: u64, z: seq<byte>)
    ensures UnFold(UnTail(UnFinish(Finish(Tail(Fold(h, Blocks(z)), Rest(z)))), Rest(z)), Blocks(z)) == h
  {
    hide Absorb, Tail, Finish, UnTail, UnFinish;
    FoldInverse(h, Blocks(z));
    TailInverse(Fold(h, Blocks(z)), Rest(z));
    FinishInverse(Tail(Fold(h, Blocks(z)), Rest(z)));
  }

  /** Changing only the one to seven leftover bytes changes the hash. */
  lemma TailChangeChangesHash(a: seq<byte>, t: seq<byte>, other: seq<byte>, seed: u32)
    requires |a| % 8 == 0 && |t| == |other| < 8
    ensures Hashed(a + t, seed) == Hashed(a + other, seed) <==> t == other
  {
    hide Xor, Mul, Div, LeWord, Finish, UnFinish, Start, Absorb;
    BlocksSplit(a, t);
    BlocksSplit(a, other);
    var h := Fold(Start(|a| + |t|, seed), Blocks(a));
    assert Blocks(t) == [] && Blocks(other) == [];
    assert Blocks(a) + [] == Blocks(a);
    FinishInverse(Tail(h, t));
    FinishInverse(Tail(h, other));
    if Tail(h, t) == Tail(h, other) && t != [] {
      MulDiv(Xor(h, LeWord(t)));
      MulDiv(Xor(h, LeWord(other)));
      XorCancels(LeWord(t), h);
      XorCancels(LeWord(other), h);
      LeWordInjective(t, other);
    }
  }

  lemma LeWordInjective(s: seq<byte>, t: seq<byte>)
    requires |s| == |t| <= 8 && LeWord(s) == LeWord(t)
    ensures s == t
  {
    FromLeInjective(s, t);
  }

  /** The block that makes the hash come out as target. */
  function BlockFor(a: seq<byte>, z: seq<byte>, seed: u32, target: u64): (block: seq<byte>)
    ensures |block| == 8
  {
    var before := Fold(Start(|a| + 8 + |z|, seed), Blocks(a));
    var after := UnFold(UnTail(UnFinish(target), Rest(z)), Blocks(z));
    ToLe(WordBetween(before, after), 8)
  }

  /** With the rest of the key fixed, a block ranges over all hashes: by BlockChangeChangesHash exactly once each. */
  lemma BlockReachesEveryHash(a: seq<byte>, z: seq<byte>, seed: u32, target: u64)
    requires |a| % 8 == 0
    ensures Hashed(a + BlockFor(a, z, seed, target) + z, seed) == target
  {
    var before := Fold(Start(|a| + 8 + |z|, seed), Blocks(a));
    var tail := UnFinish(target);
    var after := UnFold(UnTail(tail, Rest(z)), Blocks(z));
    var w := WordBetween(before, after);
    var block := BlockFor(a, z, seed, target);
    Pow2Values();
    FromLeToLe(w, 8);
    assert LeWord(block) == w;
    HashAroundBlock(a, block, z, seed);
    hide Absorb, WordBetween, Fold, Tail, Finish, Start, Hashed, UnFold, UnTail, UnFinish, LeWord;
    WordBetweenInverse(before, after);
    FoldInverse(UnTail(tail, Rest(z)), Blocks(z));
    TailInverse(tail, Rest(z));
    FinishInverse(target);
  }

  lemma WordHashInjective(n: u64, m: u64)
    requires WordHash(n) == WordHash(m)
    ensures n == m
  {
    hide Hashed, FromLe, ToLe;
    var e: seq<byte> := [];
    assert e + ToLe(n, 8) + e == ToLe(n, 8) && e + ToLe(m, 8) + e == ToLe(m, 8);
    BlockChangeChangesHash(e, ToLe(n, 8), ToLe(m, 8), e, SEED);
    Pow2Values();
    FromLeToLe(n, 8);
    FromLeToLe(m, 8);
  }

  /** The hash of one word is a bijection on words; this is its inverse. */
  function UnHash(h: u64): u64 { LeWord(BlockFor([], [], SEED, h)) }

  lemma HashOfUnHash(h: u64)
    ensures WordHash(UnHash(h)) == h
  {
    hide Hashed, BlockFor;
    var e: seq<byte> := [];
    var b := BlockFor(e, e, SEED, h);
    ToLeFromLe(b);
    assert e + b + e == b;
    BlockReachesEveryHash(e, e, SEED, h);
  }

  lemma HashWordIsBijective(n: u64)
    ensures UnHash(WordHash(n)) == n && WordHash(UnHash(n)) == n
  {
    hide WordHash, UnHash;
    HashOfUnHash(n);
    HashOfUnHash(WordHash(n));
    WordHashInjective(UnHash(WordHash(n)), n);
  }

  // ----- The whole hash in plain arithmetic -----

  /** x ^ x >> 47. */
  function Folded47(x: nat): nat { XorBits(x, x / 0x8000_0000_0000) }

  function Times(x: nat): nat { x * 0xc6a4_a793_5bd1_e995 % TWO64 }

  /** What the first n blocks make of the start value. */
  function Reduced(key: seq<byte>, seed: u32, n: nat): nat
    requires 8 * n <= |key|
    decreases n
  {
    if n == 0 then XorBits(seed, Times(|key|))
    else Times(XorBits(Reduced(key, seed, n - 1), Times(Folded47(Times(FromLe(key[8 * (n - 1)..8 * n]))))))
  }

  function Reference(key: seq<byte>, seed: u32): nat {
    var h := Reduced(key, seed, |key| / 8);
    var t := if |key| % 8 == 0 then h else Times(XorBits(h, FromLe(key[8 * (|key| / 8)..])));
    Folded47(Times(Folded47(t)))
  }

  lemma MulIsTimes(k: u64)
    ensures Mul(k) == Times(k)
  {}

  lemma ShiftIsFolded47(k: u64)
    ensures Shift(k) == Folded47(k)
  {
    hide XorBits, ShiftRight;
    var n := 47;
    ShiftRightDivides(k, n);
    assert Pow2(n + 1) == 2 * Pow2(n);
    hide Pow2;
    Pow2Values();
  }

  lemma AbsorbIs(h: u64, k: u64)
    ensures Absorb(h, k) == Times(XorBits(h, Times(Folded47(Times(k)))))
  {
    hide Mul, Shift, Times, Folded47, XorBits;
    MulIsTimes(k);
    ShiftIsFolded47(Mul(k));
    MulIsTimes(Shift(Mul(k)));
    MulIsTimes(Xor(h, Mix(k)));
  }

  lemma StartIs(len: u64, seed: u32)
    ensures Start(len, seed) == XorBits(seed, Times(len))
  {
    hide XorBits;
  }

  lemma {:induction false} ReducedIsFold(key: seq<byte>, seed: u32, n: nat)
    requires 8 * n <= |key| && |key| < TWO64
    ensures Reduced(key, seed, n) == Fold(Start(|key|, seed), Blocks(key)[..n])
    decreases n
  {
    hide XorBits, Folded47, Times, Start, Absorb, LeWord;
    var ws, h := Blocks(key), Start(|key|, seed);
    if n == 0 {
      StartIs(|key|, seed);
      assert ws[..0] == [];
    } else {
      var w, g := ws[n - 1], Fold(h, ws[..n - 1]);
      ReducedIsFold(key, seed, n - 1);
      FoldSplit(h, ws[..n - 1], [w]);
      assert ws[..n - 1] + [w] == ws[..n];
      assert Fold(g, [w]) == Absorb(g, w);
      AbsorbIs(g, w);
      assert w == FromLe(key[8 * (n - 1)..8 * n]) by { BlockIs(key, n - 1); }
    }
  }

  lemma BlockIs(key: seq<byte>, i: nat)
    requires 8 * i + 8 <= |key|
    ensures i < |Blocks(key)| && Blocks(key)[i] == FromLe(key[8 * i..8 * i + 8])
  {
    hide FromLe;
  }

  lemma TailIs(h: u64, t: seq<byte>)
    requires |t| < 8
    ensures Tail(h, t) == if t == [] then h else Times(XorBits(h, FromLe(t)))
  {
    hide XorBits, FromLe;
  }

  /** The hash of every key, block by block from the start value that its length and seed give. */
  lemma HashedIsReference(key: seq<byte>, seed: u32)
    requires |key| < TWO64
    ensures Hashed(key, seed) == Reference(key, seed)
  {
    hide XorBits, Folded47, Times, Mul, Shift, FromLe, Start, Absorb, Blocks;
    var ws, h := Blocks(key), Fold(Start(|key|, seed), Blocks(key));
    ReducedIsFold(key, seed, |key| / 8);
    assert ws[..|key| / 8] == ws;
    TailIs(h, Rest(key));
    var t := Tail(h, Rest(key));
    ShiftIsFolded47(t);
    MulIsTimes(Shift(t));
    ShiftIsFolded47(Mul(Shift(t)));
    hide Fold, Reduced, Tail;
  }

  /** The two hashes that callers use, with their seed. */
  lemma HashesInPlain(str: seq<byte>, n: u64)
    requires |str| < TWO64
    ensures Hashed(str, SEED) == Reference(str, 0xEE6B_27EB)
    ensures WordHash(n) == Reference(ToLe(n, 8), 0xEE6B_27EB)
  {
    hide Hashed, Reference, ToLe;
    HashedIsReference(str, SEED);
    HashedIsReference(ToLe(n, 8), SEED);
  }

  // ----- Seed and length -----

  lemma HashUndone(key: seq<byte>, seed: u32)
    ensures UnFold(UnTail(UnFinish(Hashed(key, seed)), Rest(key)), Blocks(key)) == Start(|key|, seed)
  {
    hide Absorb, Tail, Finish, UnTail, UnFinish, Start;
    var h := Start(|key|, seed);
    FoldInverse(h, Blocks(key));
    TailInverse(Fold(h, Blocks(key)), Rest(key));
    FinishInverse(Tail(Fold(h, Blocks(key)), Rest(key)));
  }

  lemma StartDetermines(len: nat, seed: u32, other: nat, otherSeed: u32)
    requires len < TWO64 && other < TWO64 && Start(len, seed) == Start(other, otherSeed)
    ensures len == other ==> seed == otherSeed
    ensures seed == otherSeed ==> len == other
  {
    hide Mul, Div, Xor;
    XorCancels(seed, Mul(len));
    XorCancels(otherSeed, Mul(len));
    XorCancels(Mul(len), seed);
    XorCancels(Mul(other), seed);
    MulDiv(len);
    MulDiv(other);
  }

  /** One key has equal hashes exactly for equal seeds. */
  lemma SeedChangesHash(key: seq<byte>, seed: u32, other: u32)
    requires |key| < TWO64
    ensures Hashed(key, seed) == Hashed(key, other) <==> seed == other
  {
    HashUndone(key, seed);
    HashUndone(key, other);
    hide *;
    if Hashed(key, seed) == Hashed(key, other) {
      StartDetermines(|key|, seed, |key|, other);
    }
  }

  /** Keys that agree in their blocks and whose leftover bytes denote the same number, so that one is the other with
      zero bytes added, have equal hashes only if they are equally long. */
  lemma TrailingZerosChangeHash(a: seq<byte>, t: seq<byte>, u: seq<byte>, seed: u32)
    requires |a| % 8 == 0 && 0 < |t| < 8 && 0 < |u| < 8 && FromLe(t) == FromLe(u) && |a| + 8 < TWO64
    ensures Hashed(a + t, seed) == Hashed(a + u, seed) <==> t == u
  {
    BlocksSplit(a, t);
    BlocksSplit(a, u);
    assert Blocks(t) == [] && Blocks(u) == [] && Blocks(a) + [] == Blocks(a);
    HashUndone(a + t, seed);
    HashUndone(a + u, seed);
    var h := Hashed(a + t, seed);
    assert UnTail(UnFinish(h), t) == UnTail(UnFinish(h), u);
    hide Start, Hashed, UnFold, UnTail, UnFinish, Blocks, Rest;
    if h == Hashed(a + u, seed) {
      StartDetermines(|a + t|, seed, |a + u|, seed);
      FromLeInjective(t, u);
    }
  }
}
