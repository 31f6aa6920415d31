/** Bytes, machine integers, little-endian numbers and C strings: what the buffers and hashes are made of. */
module Bytes {

  type byte = b: int | 0 <= b < 0x100
  type u32 = x: int | 0 <= x < 0x1_0000_0000
  type u64 = x: int | 0 <= x < 0x1_0000_0000_0000_0000

  const TWO16 := 0x1_0000
  const TWO32 := 0x1_0000_0000
  const TWO64 := 0x1_0000_0000_0000_0000

  datatype Option<+T> = None | Some(value: T)

  function Pow2(n: nat): (p: nat)
    ensures p > 0
  {
    if n == 0 then 1 else 2 * Pow2(n - 1)
  }

  lemma {:induction false} Pow2Add(m: nat, n: nat)
    ensures Pow2(m + n) == Pow2(m) * Pow2(n)
  {
    if n != 0 { Pow2Add(m, n - 1); }
  }

  lemma {:induction false} Pow2Monotone(m: nat, n: nat)
    requires m <= n
    ensures Pow2(m) <= Pow2(n)
  {
    if m < n { Pow2Monotone(m, n - 1); }
  }

  lemma Pow2Byte()
    ensures Pow2(8) == 0x100
  {}

  lemma Pow2Values()
    ensures Pow2(8) == 0x100 && Pow2(16) == 0x1_0000 && Pow2(24) == 0x100_0000 && Pow2(32) == 0x1_0000_0000
    ensures Pow2(40) == 0x100_0000_0000 && Pow2(48) == 0x1_0000_0000_0000 && Pow2(64) == 0x1_0000_0000_0000_0000
  {
    Pow2Byte();
    hide Pow2;
    Pow2Add(8, 8);
    Pow2Add(16, 8);
    Pow2Add(16, 16);
    Pow2Add(32, 8);
    Pow2Add(40, 8);
    Pow2Add(32, 32);
  }

  /** The number that s denotes in little-endian order. */
  function FromLe(s: seq<byte>): (n: nat)
  {
    if s == [] then 0 else s[0] + 0x100 * FromLe(s[1..])
  }

  /** The w low bytes of n, least significant first. */
  function ToLe(n: nat, w: nat): (s: seq<byte>)
    ensures |s| == w
    decreases w
  {
    if w == 0 then [] else [n % 0x100] + ToLe(n / 0x100, w - 1)
  }

  function Le16(n: nat): (s: seq<byte>)
    ensures |s| == 2
  {
    ToLe(n, 2)
  }

  function Le32(n: nat): (s: seq<byte>)
    ensures |s| == 4
  {
    ToLe(n, 4)
  }

  lemma {:induction false} FromLeBound(s: seq<byte>)
    ensures FromLe(s) < Pow2(8 * |s|)
  {
    if s != [] {
      FromLeBound(s[1..]);
      Pow2Add(8 * |s[1..]|, 8);
      Pow2Byte();
    }
  }

  lemma {:induction false} FromLeSnoc(s: seq<byte>, b: byte)
    ensures FromLe(s + [b]) == FromLe(s) + b * Pow2(8 * |s|)
  {
    if s == [] {
      assert s + [b] == [b];
    } else {
      var p := Pow2(8 * |s[1..]|);
      FromLeSnoc(s[1..], b);
      assert (s + [b])[1..] == s[1..] + [b];
      assert Pow2(8 * |s|) == p * 0x100 by { Pow2Add(8 * |s[1..]|, 8); Pow2Byte(); }
      assert b * (p * 0x100) == 0x100 * (b * p);
    }
  }

  /** Reading back what was written loses nothing that fits. */
  lemma {:induction false} FromLeToLe(n: nat, w: nat)
    requires n < Pow2(8 * w)
    ensures FromLe(ToLe(n, w)) == n
    decreases w
  {
    if w != 0 {
      Pow2Add(8 * (w - 1), 8);
      Pow2Byte();
      FromLeToLe(n / 0x100, w - 1);
      assert ToLe(n, w)[1..] == ToLe(n / 0x100, w - 1);
    }
  }

  lemma {:induction false} ToLeFromLe(s: seq<byte>)
    ensures ToLe(FromLe(s), |s|) == s
  {
    if s != [] {
      ToLeFromLe(s[1..]);
      assert FromLe(s) % 0x100 == s[0] && FromLe(s) / 0x100 == FromLe(s[1..]);
    }
  }

  lemma Le16RoundTrip(n: nat)
    requires n < 0x1_0000
    ensures FromLe(Le16(n)) == n
  {
    Pow2Values();
    FromLeToLe(n, 2);
  }

  lemma Le16OfFromLe(s: seq<byte>)
    requires |s| == 2
    ensures Le16(FromLe(s)) == s
  {
    ToLeFromLe(s);
  }

  lemma Le32OfFromLe(s: seq<byte>)
    requires |s| == 4
    ensures FromLe(s) < TWO32 && Le32(FromLe(s)) == s
  {
    FromLeBound(s);
    Pow2Values();
    ToLeFromLe(s);
  }

  lemma Le32RoundTrip(n: nat)
    requires n < 0x1_0000_0000
    ensures FromLe(Le32(n)) == n
  {
    Pow2Values();
    FromLeToLe(n, 4);
  }

  lemma FromLeInjective(s: seq<byte>, t: seq<byte>)
    requires |s| == |t| && FromLe(s) == FromLe(t)
    ensures s == t
  {
    ToLeFromLe(s);
    ToLeFromLe(t);
  }

  predicate NulFree(s: seq<byte>) { 0 !in s }

  /** What a char pointer to s denotes as a string: the bytes before the first NUL. */
  function CString(s: seq<byte>): (r: seq<byte>)
    ensures NulFree(r) && r <= s
    ensures |r| < |s| ==> s[|r|] == 0
  {
    if s == [] || s[0] == 0 then [] else [s[0]] + CString(s[1..])
  }

  lemma {:induction false} CStringStops(s: seq<byte>, rest: seq<byte>)
    requires NulFree(s)
    ensures CString(s + [0] + rest) == s
  {
    if s == [] {
      assert s + [0] + rest == [0] + rest;
    } else {
      CStringStops(s[1..], rest);
      assert (s + [0] + rest)[1..] == s[1..] + [0] + rest;
    }
  }

  predicate StartsWith(b: seq<byte>, w: seq<byte>) { |w| <= |b| && b[..|w|] == w }

  lemma PrefixOf(x: seq<byte>, y: seq<byte>, b: seq<byte>)
    requires StartsWith(b, x + y)
    ensures StartsWith(b, x)
  {
    assert b[..|x|] == b[..|x + y|][..|x|];
  }

  lemma PrefixParts(x: seq<byte>, y: seq<byte>, b: seq<byte>, i: nat, j: nat)
    requires StartsWith(b, x + y) && i == |x| && j == i + |y|
    ensures StartsWith(b, x) && b[i..j] == y
  {
    assert b[..i] == b[..j][..i] == x;
    assert b[i..j] == b[..j][i..] == y;
  }

  /** src written over was at offset at. */
  function Splice(was: seq<byte>, at: nat, src: seq<byte>): (r: seq<byte>)
    requires at + |src| <= |was|
    ensures |r| == |was|
  {
    was[..at] + src + was[at + |src|..]
  }

  lemma SpliceAt(was: seq<byte>, at: nat, src: seq<byte>, i: nat)
    requires at + |src| <= |was| && i < |was|
    ensures Splice(was, at, src)[i] == if at <= i < at + |src| then src[i - at] else was[i]
  {}

  /** Writing x and then y right behind it is writing x + y. */
  lemma SpliceAppend(was: seq<byte>, at: nat, x: seq<byte>, y: seq<byte>)
    requires at + |x| + |y| <= |was|
    ensures Splice(Splice(was, at, x), at + |x|, y) == Splice(was, at, x + y)
  {}

  /** Writing the same bytes again changes nothing. */
  lemma SpliceAgain(was: seq<byte>, at: nat, x: seq<byte>, y: seq<byte>)
    requires at + |x + y| <= |was|
    ensures Splice(Splice(was, at, x + y), at, x) == Splice(was, at, x + y)
  {}

  /** memcpy into a buffer. */
  method CopyInto(dst: array<byte>, at: nat, src: seq<byte>)
    requires at + |src| <= dst.Length
    modifies dst
    ensures dst[..] == Splice(old(dst[..]), at, src)
  {
    forall i | 0 <= i < |src| {
      dst[at + i] := src[i];
    }
  }
}
