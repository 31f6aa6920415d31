/** The client frame: a 16-bit length, a counted type name, the payload and four checksum bytes. */
module UserBuffers {
  import opened Bytes

  const USER_MAX := 16384

  datatype Message = Message(name: seq<byte>, payload: seq<byte>)

  function Zeros(n: nat): (s: seq<byte>)
    ensures |s| == n && forall i :: 0 <= i < n ==> s[i] == 0
  {
    seq(n, _ => 0)
  }

  // ----- Layout -----

  function BodySize(b: seq<byte>): nat
    requires |b| >= 2
  {
    FromLe(b[..2])
  }

  /** What SizeValid tests: the body against the whole buffer, not against what is left after the header. */
  predicate SizePasses(b: seq<byte>)
    requires |b| >= 2
  {
    0 < BodySize(b) <= USER_MAX
  }

  /** The messages an encoder is meant for: the name's length with its NUL fits a byte,
      and the body fits the buffer after the two header bytes. */
  predicate Encodable(m: Message) {
    |m.name| <= 254 && NulFree(m.name) && MessageBody(m) <= USER_MAX - 2
  }

  function MessageBody(m: Message): nat { 1 + (|m.name| + 1) + |m.payload| + 4 }

  /** Everything of a frame that the encoder writes: all but the checksum. */
  function Written(m: Message): (s: seq<byte>)
    requires Encodable(m)
    ensures |s| == MessageBody(m) - 2
  {
    Le16(MessageBody(m)) + [|m.name| + 1] + m.name + [0] + m.payload
  }

  /** The frame a fresh buffer sends: the checksum is never computed and stays zero. */
  function Frame(m: Message): (s: seq<byte>)
    requires Encodable(m)
    ensures |s| == 2 + MessageBody(m)
  {
    Written(m) + Zeros(4)
  }

  datatype Fields = Fields(msgName: int, msgData: int, msgDataSize: nat, checkSum: int)

  /** What Decode answers, and the offsets and size it leaves behind. size_t arithmetic wraps. */
  function Decoded(b: seq<byte>, was: Fields): (r: (bool, Fields))
    requires |b| == USER_MAX
  {
    var nameSize := b[2];
    if nameSize < 2 then (false, was)
    else if b[2 + nameSize] != 0 then (false, was.(msgName := 3))
    else
      var size := BodySize(b) - 1 - nameSize - 4;
      (true, Fields(3, 3 + nameSize, size % TWO64, 3 + nameSize + size))
  }

  /** The frame's own bytes hold everything Decode looks at. */
  predicate SelfContained(b: seq<byte>)
    requires |b| == USER_MAX
  {
    5 + b[2] <= BodySize(b) <= USER_MAX - 2
  }

  /** The message a reader of the decoded fields sees: the name as a C string, and the payload bytes. */
  function Parsed(b: seq<byte>): Option<Message>
    requires |b| == USER_MAX
  {
    var (ok, f) := Decoded(b, Fields(0, 0, 0, 0));
    if ok && f.msgData + f.msgDataSize <= USER_MAX then
      Some(Message(CString(b[f.msgName..]), b[f.msgData..f.msgData + f.msgDataSize]))
    else None
  }

  /** The name alone, which a reader may look at before the payload. */
  function NameOf(b: seq<byte>): Option<seq<byte>>
    requires |b| == USER_MAX
  {
    if Decoded(b, Fields(0, 0, 0, 0)).0 then Some(CString(b[3..])) else None
  }

  lemma ParsedHasName(b: seq<byte>)
    requires |b| == USER_MAX && Parsed(b).Some?
    ensures NameOf(b) == Some(Parsed(b).value.name)
  {
    hide FromLe, CString;
  }

  // ----- The buffer -----

  class UserBuffer {
    const buf: array<byte>
    var msgName: int
    var msgData: int
    var msgDataSize: nat
    var checkSum: int

    ghost predicate Valid()
      reads this
    {
      buf.Length == USER_MAX
    }

    ghost function GetFields(): Fields
      reads this
    {
      Fields(msgName, msgData, msgDataSize, checkSum)
    }

    constructor ()
      ensures Valid() && fresh(buf) && buf[..] == Zeros(USER_MAX)
    {
      buf := new byte[USER_MAX](_ => 0);
      new;
      assert buf[..] == Zeros(USER_MAX);
    }

    constructor FromMessage(m: Message)
      requires Encodable(m)
      ensures Valid() && fresh(buf) && buf[..2 + MessageBody(m)] == Frame(m)
    {
      buf := new byte[USER_MAX](_ => 0);
      new;
      assert buf[..] == Zeros(USER_MAX);
      Encode(m);
      assert buf[..2 + MessageBody(m)] == Frame(m);
    }

    method GetBodySize() returns (n: nat)
      requires Valid()
      ensures n == BodySize(buf[..])
    {
      n := FromLe(buf[..2]);
    }

    method SetBodySize(n: nat)
      requires Valid() && n < TWO16
      modifies buf
      ensures buf[..] == Splice(old(buf[..]), 0, Le16(n))
    {
      CopyInto(buf, 0, Le16(n));
    }

    /** The bytes a sender transmits; the size is a uint16_t. */
    method Size() returns (n: nat)
      requires Valid()
      ensures n == (2 + BodySize(buf[..])) % TWO16
    {
      var body := GetBodySize();
      n := (2 + body) % TWO16;
    }

    method SizeValid() returns (ok: bool)
      requires Valid()
      ensures ok <==> SizePasses(buf[..])
    {
      var body := GetBodySize();
      if body > USER_MAX {
        return false;
      }
      if body <= 0 {
        return false;
      }
      return true;
    }

    method Encode(m: Message)
      requires Valid() && Encodable(m)
      modifies buf
      ensures buf[..] == Splice(old(buf[..]), 0, Written(m))
    {
      var nameSize := |m.name| + 1;
      var dataSize := |m.payload|;
      var bodySize := 1 + nameSize + dataSize + 4;
      hide Le16, FromLe, Splice;
      ghost var was, h, name := buf[..], Le16(bodySize), m.name + [0];
      CopyInto(buf, 0, Le16(bodySize));
      CopyInto(buf, 2, [nameSize]);
      SpliceAppend(was, 0, h, [nameSize]);
      CopyInto(buf, 3, m.name + [0]);
      SpliceAppend(was, 0, h + [nameSize], name);
      CopyInto(buf, 3 + nameSize, m.payload);
      SpliceAppend(was, 0, h + [nameSize] + name, m.payload);
      SetBodySize(bodySize);
      assert Written(m) == h + [nameSize] + name + m.payload == h + ([nameSize] + name + m.payload);
      SpliceAgain(was, 0, h, [nameSize] + name + m.payload);
    }

    method Decode() returns (ok: bool)
      requires Valid()
      modifies this
      ensures (ok, GetFields()) == Decoded(buf[..], old(GetFields()))
    {
      var nameSize := buf[2];
      if nameSize < 2 {
        return false;
      }
      msgName := 3;
      if buf[msgName + nameSize - 1] != 0 {
        return false;
      }
      msgData := msgName + nameSize;
      var body: int := GetBodySize();
      var size := body - 1 - nameSize - 4;
      msgDataSize := size % TWO64;
      checkSum := msgData + size;
      return true;
    }
  }

  // ----- What the codec promises -----

  lemma HeaderOf(m: Message)
    requires Encodable(m)
    ensures FromLe(Le16(MessageBody(m))) == MessageBody(m)
  {
    Le16RoundTrip(MessageBody(m));
  }

  lemma PartsOf(b: seq<byte>, m: Message)
    requires |b| == USER_MAX && Encodable(m) && StartsWith(b, Written(m))
    ensures b[..2] == Le16(MessageBody(m)) && b[2] == |m.name| + 1 && b[3 + |m.name|] == 0
    ensures b[3..] == m.name + [0] + b[4 + |m.name|..]
    ensures b[4 + |m.name|..4 + |m.name| + |m.payload|] == m.payload
  {
    var h, n := Le16(MessageBody(m)), |m.name|;
    hide Le16;
    assert Written(m) == h + [n + 1] + (m.name + [0]) + m.payload;
    PrefixParts(h + [n + 1] + (m.name + [0]), m.payload, b, 4 + n, 4 + n + |m.payload|);
    PrefixParts(h + [n + 1], m.name + [0], b, 3, 4 + n);
    PrefixParts(h, [n + 1], b, 2, 3);
    assert b[2] == b[2..3][0] && b[3 + n] == b[3..4 + n][n];
    assert b[3..] == b[3..4 + n] + b[4 + n..];
  }

  /** What Decode answers and finds in a frame that keeps within its own length, and what a refusal leaves. */
  lemma FieldsOf(u: seq<byte>, was: Fields)
    requires |u| == USER_MAX && SelfContained(u)
    ensures var (ok, g), k: int := Decoded(u, was), u[2];
            && (ok <==> k >= 2 && u[2 + k] == 0)
            && (ok ==> g.msgName == 3 && g.msgData == 3 + k && g.msgDataSize == BodySize(u) - 5 - k)
            && (ok ==> g.checkSum == 2 + BodySize(u) - 4)
            && (!ok ==> g == if k < 2 then was else was.(msgName := 3))
  {}

  /** In any other frame that is accepted, and is shorter than its name says, the length wraps around below zero. */
  lemma SizeWraps(u: seq<byte>, was: Fields)
    requires |u| == USER_MAX && Decoded(u, was).0
    ensures var k: int := u[2]; BodySize(u) < 5 + k ==> Decoded(u, was).1.msgDataSize == TWO64 - (5 + k - BodySize(u))
  {}

  /** Whatever the buffer held before and after the frame, an encoded message is read back exactly. */
  lemma RoundTrip(b: seq<byte>, m: Message)
    requires |b| == USER_MAX && Encodable(m) && m.name != [] && StartsWith(b, Written(m))
    ensures BodySize(b) == MessageBody(m) && SelfContained(b)
    ensures Parsed(b) == Some(m)
  {
    HeaderOf(m);
    PartsOf(b, m);
    assert BodySize(b) == MessageBody(m);
    hide Le16, FromLe, CString, Written, BodySize;
    CStringStops(m.name, b[4 + |m.name|..]);
    FieldsOf(b, Fields(0, 0, 0, 0));
    hide Decoded;
  }

  lemma ParsedBytes(b: seq<byte>, m: Message)
    requires |b| == USER_MAX && Encodable(m)
    requires Parsed(b) == Some(m) && SelfContained(b) && b[2] == |m.name| + 1
    ensures StartsWith(b, Written(m))
  {
    Le16OfFromLe(b[..2]);
    FieldsOf(b, Fields(0, 0, 0, 0));
    hide Le16, FromLe, Decoded;
    var n, e := b[2], BodySize(b) - 2;
    assert MessageBody(m) == BodySize(b);
    assert m.name == b[3..2 + n];
    assert m.payload == b[3 + n..e];
    assert b[..e] == b[..2] + [b[2]] + b[3..2 + n] + [b[2 + n]] + b[3 + n..e];
  }

  /** A frame that Decode accepts, that keeps within its length and whose name has no inner NUL
      is the encoding of the message read from it: decoding is inverse to encoding both ways. */
  lemma ParsedIsWritten(b: seq<byte>, m: Message)
    requires |b| == USER_MAX && Encodable(m) && m.name != []
    ensures StartsWith(b, Written(m)) <==> Parsed(b) == Some(m) && SelfContained(b) && b[2] == |m.name| + 1
  {
    if StartsWith(b, Written(m)) {
      RoundTrip(b, m);
    }
    if Parsed(b) == Some(m) && SelfContained(b) && b[2] == |m.name| + 1 {
      ParsedBytes(b, m);
    }
  }

  /** Bytes beyond the frame, left by earlier reads, decide nothing. */
  lemma StaleBytesIrrelevant(b: seq<byte>, c: seq<byte>, was: Fields)
    requires |b| == |c| == USER_MAX && SelfContained(b)
    requires b[..2 + BodySize(b)] == c[..2 + BodySize(b)]
    ensures SelfContained(c) && Decoded(b, was) == Decoded(c, was) && Parsed(b) == Parsed(c)
  {
    hide FromLe, CString;
    var n := 2 + BodySize(b);
    assert b[..2] == b[..n][..2] == c[..n][..2] == c[..2];
    assert forall i :: 0 <= i < n ==> b[i] == b[..n][i] == c[..n][i] == c[i];
    var (ok, f) := Decoded(b, Fields(0, 0, 0, 0));
    if ok {
      assert b[f.msgData..f.msgData + f.msgDataSize] == c[f.msgData..f.msgData + f.msgDataSize];
      CStringWithin(b[3..], c[3..], b[2]);
    }
  }

  lemma {:induction false} CStringWithin(s: seq<byte>, t: seq<byte>, n: nat)
    requires 0 < n <= |s| && n <= |t| && s[..n] == t[..n] && s[n - 1] == 0
    ensures CString(s) == CString(t)
    decreases n
  {
    assert s[0] == s[..n][0] == t[..n][0] == t[0];
    if s[0] != 0 {
      assert s[1..][..n - 1] == s[..n][1..] == t[1..][..n - 1];
      CStringWithin(s[1..], t[1..], n - 1);
    }
  }

  /** The test agrees with fitting behind the header exactly for the headers that do not say 16383 or 16384. */
  lemma SizeTestMeansFits(b: seq<byte>)
    requires |b| == USER_MAX
    ensures (SizePasses(b) <==> 0 < BodySize(b) <= USER_MAX - 2) <==> BodySize(b) != 16383 && BodySize(b) != 16384
  {}
}
