/** The server-to-server frame: a 32-bit length, session id, application and user ids, then a
    message, either encoded directly or relayed as the body of a client frame. */
module PipeBuffers {
  import opened Bytes
  import opened UserBuffers

  const PIPE_MAX := 524288

  lemma Capacities()
    ensures PIPE_MAX == 524288 && USER_MAX == 16384
  {}

  // ----- Layout -----

  predicate IdOk(id: seq<byte>) { |id| <= 254 && NulFree(id) }

  /** A counted string; the empty one has size 0 and no NUL. */
  function IdField(id: seq<byte>): (s: seq<byte>)
    requires IdOk(id)
    ensures 1 <= |s| <= 256
  {
    if id == [] then [0] else [|id| + 1] + id + [0]
  }

  datatype Route = Route(sessionId: u32, appid: seq<byte>, userId: seq<byte>) {
    predicate Ok() { IdOk(appid) && IdOk(userId) }

    function Head(): (s: seq<byte>)
      requires Ok()
      ensures 6 <= |s| <= 516
    {
      Le32(sessionId) + IdField(appid) + IdField(userId)
    }
  }

  function DirectBody(r: Route, m: Message): nat
    requires r.Ok() && IdOk(m.name)
  {
    |r.Head()| + |IdField(m.name)| + |m.payload| + 4
  }

  predicate DirectOk(r: Route, m: Message) {
    r.Ok() && IdOk(m.name) && DirectBody(r, m) <= PIPE_MAX - 4
  }

  /** Everything the direct encoder writes: all but the checksum. */
  function DirectWritten(r: Route, m: Message): (s: seq<byte>)
    requires DirectOk(r, m)
    ensures |s| == DirectBody(r, m)
  {
    Le32(DirectBody(r, m)) + r.Head() + IdField(m.name) + m.payload
  }

  function RelayWritten(r: Route, userBody: seq<byte>): (s: seq<byte>)
    requires r.Ok()
    ensures |s| == 4 + |r.Head()| + |userBody|
  {
    Le32(|r.Head()| + |userBody|) + r.Head() + userBody
  }

  function PipeBody(b: seq<byte>): nat
    requires |b| >= 4
  {
    FromLe(b[..4])
  }

  /** What SizeValid tests: the size after its conversion to uint16_t, against the whole buffer. */
  predicate PipeSizePasses(b: seq<byte>)
    requires |b| >= 4
  {
    0 < PipeBody(b) % TWO16 <= PIPE_MAX
  }

  /** Where the user-id size and the name size stand, as the size bytes before them say. */
  function UserIdAt(b: seq<byte>): (at: nat)
    requires |b| == PIPE_MAX
    ensures at <= 264
  {
    var appidSize: nat := b[8];
    9 + appidSize
  }

  function NameAt(b: seq<byte>): (at: nat)
    requires |b| == PIPE_MAX
    ensures at <= 520
  {
    UserIdAt(b) + 1 + b[UserIdAt(b)]
  }

  /** Offsets into the buffer; None is a null pointer. */
  datatype PipeFields = PipeFields(sessionId: int, appid: Option<int>, userId: Option<int>,
                                   msgNameSize: int, msgName: int, msgData: int, msgDataSize: nat)

  /** The part the two decoders share. */
  function HeadDecoded(b: seq<byte>, was: PipeFields): (bool, PipeFields)
    requires |b| == PIPE_MAX
  {
    var u := UserIdAt(b);
    var f := was.(sessionId := 4, appid := if b[8] == 0 then None else Some(9));
    if b[8] != 0 && b[8 + b[8]] != 0 then (false, f)
    else
      var g := f.(userId := if b[u] == 0 then None else Some(u + 1));
      (b[u] == 0 || b[u + b[u]] == 0, g)
  }

  function PipeDecoded(b: seq<byte>, was: PipeFields): (bool, PipeFields)
    requires |b| == PIPE_MAX
  {
    var (ok, f) := HeadDecoded(b, was);
    var n := NameAt(b);
    if !ok then (false, f)
    else if b[n] < 2 then (false, f.(msgNameSize := n))
    else if b[n + b[n]] != 0 then (false, f.(msgNameSize := n, msgName := n + 1))
    else
      var size := PipeBody(b) - 1 - b[n] - 4;
      (true, f.(msgNameSize := n, msgName := n + 1, msgData := n + 1 + b[n], msgDataSize := size % TWO64))
  }

  const NO_FIELDS := PipeFields(0, None, None, 0, 0, 0, 0)

  ghost predicate HeadOk(b: seq<byte>)
    requires |b| == PIPE_MAX
  {
    HeadDecoded(b, NO_FIELDS).0
  }

  /** The size of the relayed client body: what is left of the frame behind the ids. */
  function UserSize(b: seq<byte>): int
    requires |b| == PIPE_MAX
  {
    PipeBody(b) + 4 - NameAt(b)
  }

  predicate RelayFits(b: seq<byte>)
    requires |b| == PIPE_MAX
  {
    0 <= UserSize(b) <= USER_MAX - 2
  }

  /** The client buffer after a relayed body has been decoded into it. */
  function RelayedInto(b: seq<byte>, user: seq<byte>): (r: seq<byte>)
    requires |b| == PIPE_MAX && |user| == USER_MAX && RelayFits(b)
    ensures |r| == USER_MAX
  {
    Splice(user, 0, Le16(UserSize(b)) + b[NameAt(b)..NameAt(b) + UserSize(b)])
  }

  // ----- The buffer -----

  class PipeBuffer {
    const buf: array<byte>
    var sessionId: int
    var appid: Option<int>
    var userId: Option<int>
    var msgNameSize: int
    var msgName: int
    var msgData: int
    var msgDataSize: nat

    ghost predicate Valid()
      reads this
    {
      buf.Length == PIPE_MAX
    }

    ghost function GetFields(): PipeFields
      reads this
    {
      PipeFields(sessionId, appid, userId, msgNameSize, msgName, msgData, msgDataSize)
    }

    constructor ()
      ensures Valid() && fresh(buf) && buf[..] == Zeros(PIPE_MAX)
    {
      buf := new byte[PIPE_MAX](_ => 0);
      new;
      assert buf[..] == Zeros(PIPE_MAX);
    }

    /** Only the low 16 bits of the size are looked at. */
    method SizeValid() returns (ok: bool)
      requires Valid()
      ensures ok <==> PipeSizePasses(buf[..])
    {
      assert buf[..4] == buf[..][..4];
      var body := FromLe(buf[..4]) % TWO16;
      if body > PIPE_MAX {
        return false;
      }
      if body <= 0 {
        return false;
      }
      return true;
    }

    /** Writes one counted id at offset at. */
    method PutId(at: nat, id: seq<byte>) returns (where: Option<int>)
      requires Valid() && IdOk(id) && at + |IdField(id)| <= PIPE_MAX
      modifies buf
      ensures buf[..] == Splice(old(buf[..]), at, IdField(id))
      ensures where == if id == [] then None else Some(at + 1)
    {
      ghost var was := buf[..];
      if |id| == 0 {
        CopyInto(buf, at, [0]);
        where := None;
      } else {
        CopyInto(buf, at, [|id| + 1]);
        CopyInto(buf, at + 1, id);
        SpliceAppend(was, at, [|id| + 1], id);
        CopyInto(buf, at + 1 + |id|, [0]);
        SpliceAppend(was, at, [|id| + 1] + id, [0]);
        where := Some(at + 1);
      }
    }

    method PutHead(r: Route)
      requires Valid() && r.Ok()
      modifies this, buf
      ensures buf[..] == Splice(old(buf[..]), 4, r.Head())
      ensures GetFields() == old(GetFields()).(sessionId := 4, appid := if r.appid == [] then None else Some(9),
                                               userId := if r.userId == [] then None else Some(9 + |IdField(r.appid)|))
    {
      hide Le16, Le32, IdField, Splice;
      ghost var was, s, a := buf[..], Le32(r.sessionId), IdField(r.appid);
      sessionId := 4;
      CopyInto(buf, 4, Le32(r.sessionId));
      appid := PutId(8, r.appid);
      SpliceAppend(was, 4, s, a);
      var userIdAt := 8 + |IdField(r.appid)|;
      userId := PutId(userIdAt, r.userId);
      SpliceAppend(was, 4, s + a, IdField(r.userId));
    }

    method SetBodySize(n: u32)
      requires Valid()
      modifies buf
      ensures buf[..] == Splice(old(buf[..]), 0, Le32(n))
    {
      CopyInto(buf, 0, Le32(n));
    }

    method EncodeDirect(r: Route, m: Message)
      requires Valid() && DirectOk(r, m)
      modifies this, buf
      ensures buf[..] == Splice(old(buf[..]), 0, DirectWritten(r, m))
      ensures sessionId == 4 && msgNameSize == 4 + |r.Head()| && msgName == msgNameSize + 1
      ensures msgData == msgNameSize + |IdField(m.name)| && msgDataSize == old(msgDataSize)
      ensures appid == (if r.appid == [] then None else Some(9))
      ensures userId == (if r.userId == [] then None else Some(9 + |IdField(r.appid)|))
    {
      hide Le16, Le32, IdField, Splice, Route.Head;
      ghost var was, h, f := buf[..], r.Head(), IdField(m.name);
      PutHead(r);
      msgNameSize := 4 + |r.Head()|;
      var _ := PutId(msgNameSize, m.name);
      SpliceAppend(was, 4, h, f);
      msgName := msgNameSize + 1;
      msgData := msgNameSize + |IdField(m.name)|;
      CopyInto(buf, msgData, m.payload);
      SpliceAppend(was, 4, h + f, m.payload);
      SetBodySize(DirectBody(r, m));
      SplicePrepend(was, Le32(DirectBody(r, m)), h + f + m.payload);
      assert DirectWritten(r, m) == Le32(DirectBody(r, m)) + (h + f + m.payload);
    }

    method EncodeRelay(r: Route, user: UserBuffer)
      requires Valid() && user.Valid() && user.buf != buf && r.Ok() && BodySize(user.buf[..]) <= USER_MAX - 2
      modifies this, buf
      ensures buf[..] == Splice(old(buf[..]), 0, RelayWritten(r, user.buf[2..2 + BodySize(user.buf[..])]))
      ensures GetFields() == old(GetFields()).(sessionId := 4, appid := if r.appid == [] then None else Some(9),
                                               userId := if r.userId == [] then None else Some(9 + |IdField(r.appid)|))
    {
      hide Le16, Le32, Splice, Route.Head;
      ghost var was, h := buf[..], r.Head();
      var n := user.GetBodySize();
      ghost var ub := user.buf[2..2 + n];
      PutHead(r);
      var at := 4 + |r.Head()|;
      CopyInto(buf, at, user.buf[2..2 + n]);
      SpliceAppend(was, 4, h, ub);
      SetBodySize(|r.Head()| + n);
      SplicePrepend(was, Le32(|h| + n), h + ub);
      assert RelayWritten(r, ub) == Le32(|h| + n) + (h + ub);
    }

    method DecodeHead() returns (ok: bool)
      requires Valid()
      modifies this
      ensures (ok, GetFields()) == HeadDecoded(buf[..], old(GetFields()))
    {
      sessionId := 4;
      var appidSize: int := buf[8];
      if appidSize == 0 {
        appid := None;
      } else {
        appid := Some(9);
        if buf[9 + appidSize - 1] != 0 {
          return false;
        }
      }
      var u := 9 + appidSize;
      var userIdSize: int := buf[u];
      if userIdSize == 0 {
        userId := None;
      } else {
        userId := Some(u + 1);
        if buf[u + 1 + userIdSize - 1] != 0 {
          return false;
        }
      }
      return true;
    }

    method Decode() returns (ok: bool)
      requires Valid()
      modifies this
      ensures (ok, GetFields()) == PipeDecoded(buf[..], old(GetFields()))
    {
      ok := DecodeHead();
      if !ok {
        return;
      }
      var appidSize: int := buf[8];
      var u := 9 + appidSize;
      msgNameSize := u + 1 + buf[u];
      var nameSize: int := buf[msgNameSize];
      if nameSize < 2 {
        return false;
      }
      msgName := msgNameSize + 1;
      if buf[msgName + nameSize - 1] != 0 {
        return false;
      }
      msgData := msgName + nameSize;
      assert buf[..4] == buf[..][..4];
      var body: int := FromLe(buf[..4]);
      msgDataSize := (body - 1 - nameSize - 4) % TWO64;
    }

    method DecodeInto(user: UserBuffer) returns (ok: bool)
      requires Valid() && user.Valid() && user.buf != buf
      requires HeadOk(buf[..]) ==> RelayFits(buf[..])
      modifies this, user.buf
      ensures (ok, GetFields()) == HeadDecoded(buf[..], old(GetFields())) && ok == HeadOk(buf[..])
      ensures buf[..] == old(buf[..])
      ensures user.buf[..] == if ok then RelayedInto(buf[..], old(user.buf[..])) else old(user.buf[..])
    {
      hide Le16, Le32, FromLe, Splice, HeadDecoded;
      ghost var was, b := user.buf[..], buf[..];
      HeadOkAlways(b, GetFields());
      ok := DecodeHead();
      if !ok {
        return;
      }
      var appidSize: int := buf[8];
      var u := 9 + appidSize;
      var userIdSize: int := buf[u];
      var at := u + 1 + userIdSize;
      assert buf[..4] == b[..4];
      var body: int := FromLe(buf[..4]);
      var size := body - 4 - 1 - appidSize - 1 - userIdSize;
      assert size == UserSize(b) && at == NameAt(b);
      CopyInto(user.buf, 2, buf[at..at + size]);
      assert buf[..] == b && buf[at..at + size] == b[at..at + size];
      user.SetBodySize(size);
      SplicePrepend2(was, Le16(size), b[at..at + size]);
    }
  }

  lemma HeadOkAlways(b: seq<byte>, was: PipeFields)
    requires |b| == PIPE_MAX
    ensures HeadDecoded(b, was).0 == HeadOk(b)
  {}

  /** Writing behind a header and then the header. */
  lemma SplicePrepend(was: seq<byte>, h: seq<byte>, x: seq<byte>)
    requires |h| == 4 && 4 + |x| <= |was|
    ensures Splice(Splice(was, 4, x), 0, h) == Splice(was, 0, h + x)
  {}

  lemma SplicePrepend2(was: seq<byte>, h: seq<byte>, x: seq<byte>)
    requires |h| == 2 && 2 + |x| <= |was|
    ensures Splice(Splice(was, 2, x), 0, h) == Splice(was, 0, h + x)
  {}

  // ----- What the codecs promise together -----

  /** At at stands id, counted and ending in a NUL, or a zero for the empty one. */
  predicate IdStands(b: seq<byte>, at: nat, id: seq<byte>) {
    && at + 256 <= |b| && b[at] == (if id == [] then 0 else |id| + 1)
    && (id != [] ==> b[at + |id| + 1] == 0 && CString(b[at + 1..]) == id)
  }

  lemma IdParts(b: seq<byte>, at: nat, id: seq<byte>)
    requires IdOk(id) && at + 256 <= |b| && b[at..at + |IdField(id)|] == IdField(id)
    ensures IdStands(b, at, id)
  {
    var f := IdField(id);
    assert StartsWith(b[at..], f) by { assert b[at..][..|f|] == b[at..at + |f|]; }
    assert b[at] == b[at..][0] == f[0];
    if id != [] {
      assert f == [|id| + 1] + (id + [0]);
      FieldTail(b[at..], |id| + 1, id);
      hide IdField, CString, StartsWith;
      assert b[at..][1..] == b[at + 1..] && b[at..][|id| + 1] == b[at + |id| + 1];
    }
  }

  lemma FieldTail(c: seq<byte>, k: byte, id: seq<byte>)
    requires NulFree(id) && StartsWith(c, [k] + (id + [0]))
    ensures CString(c[1..]) == id && c[|id| + 1] == 0
  {
    var n, rest := |id| + 2, c[|id| + 2..];
    PrefixParts([k], id + [0], c, 1, n);
    assert c[1..] == c[1..n] + rest;
    assert c[|id| + 1] == c[1..n][|id|];
    CStringStops(id, rest);
    hide CString;
  }

  /** A route as a reader sees it through the pointers a decoder leaves; an empty id is a null pointer. */
  datatype Seen = Seen(sessionId: nat, appid: Option<seq<byte>>, userId: Option<seq<byte>>)

  function IdSeen(b: seq<byte>, where: Option<int>): Option<seq<byte>> {
    if where.Some? && 0 <= where.value <= |b| then Some(CString(b[where.value..])) else None
  }

  function RouteSeen(b: seq<byte>, f: PipeFields): Seen {
    Seen(if 0 <= f.sessionId <= |b| - 4 then FromLe(b[f.sessionId..f.sessionId + 4]) else 0,
         IdSeen(b, f.appid), IdSeen(b, f.userId))
  }

  function Sent(r: Route): Seen {
    Seen(r.sessionId, if r.appid == [] then None else Some(r.appid), if r.userId == [] then None else Some(r.userId))
  }

  /** Both decoders find the route in any frame that starts with it. */
  lemma RouteRecovered(b: seq<byte>, r: Route, body: u32, was: PipeFields)
    requires |b| == PIPE_MAX && r.Ok() && StartsWith(b, Le32(body) + r.Head())
    ensures HeadOk(b) && NameAt(b) == 4 + |r.Head()| && PipeBody(b) == body
    ensures HeadDecoded(b, was).0 && RouteSeen(b, HeadDecoded(b, was).1) == Sent(r)
  {
    hide *;
    Capacities();
    RouteNumbers(b, r, body);
    RouteOffsets(b, r, body);
    IdsOk(r);
    StandsDecoded(b, r, was);
  }

  lemma StandsDecoded(b: seq<byte>, r: Route, was: PipeFields)
    requires |b| == PIPE_MAX && FromLe(b[4..8]) == r.sessionId
    requires IdStands(b, 8, r.appid) && IdStands(b, UserIdAt(b), r.userId)
    ensures HeadOk(b) && HeadDecoded(b, was).0 && RouteSeen(b, HeadDecoded(b, was).1) == Sent(r)
  {
    hide FromLe, CString, UserIdAt;
  }

  /** A counted string that is empty or ends in a NUL, wherever else it holds one. */
  predicate Counted(b: seq<byte>, at: nat)
    requires at + 255 < |b|
  {
    b[at] == 0 || b[at + b[at]] == 0
  }

  /** The head is accepted exactly if both its ids are counted strings; a refused id's pointer is left behind. */
  lemma HeadAccepted(b: seq<byte>, was: PipeFields)
    requires |b| == PIPE_MAX
    ensures var (ok, f) := HeadDecoded(b, was);
            && (ok <==> Counted(b, 8) && Counted(b, UserIdAt(b)))
            && f.sessionId == 4 && f.appid == (if b[8] == 0 then None else Some(9))
            && f.userId == (if !Counted(b, 8) then was.userId else if b[UserIdAt(b)] == 0 then None else Some(UserIdAt(b) + 1))
  {}

  /** A counted id in which no NUL comes early is the encoding of what is read from it. */
  lemma IdIsEncoded(b: seq<byte>, at: nat, id: seq<byte>)
    requires IdOk(id) && at + 256 <= |b| && IdStands(b, at, id)
    ensures b[at..at + |IdField(id)|] == IdField(id)
  {
    hide CString;
    if id != [] {
      assert b[at + 1..][..|id|] == id;
      assert b[at..at + |id| + 2] == [b[at]] + b[at + 1..][..|id|] + [b[at + 1 + |id|]];
    }
  }

  /** A frame starts with the encoding of a route exactly if its head is accepted, the route is what a reader sees
      in it, and its size bytes count the whole of the ids: decoding the head inverts encoding it both ways. */
  lemma RouteIsEncoded(b: seq<byte>, r: Route, was: PipeFields)
    requires |b| == PIPE_MAX && r.Ok()
    ensures StartsWith(b, Le32(PipeBody(b)) + r.Head()) <==>
            && HeadDecoded(b, was).0 && RouteSeen(b, HeadDecoded(b, was).1) == Sent(r)
            && UserIdAt(b) == 8 + |IdField(r.appid)| && NameAt(b) == 4 + |r.Head()|
  {
    Le32OfFromLe(b[..4]);
    if StartsWith(b, Le32(PipeBody(b)) + r.Head()) {
      RouteRecovered(b, r, PipeBody(b), was);
      RouteOffsets(b, r, PipeBody(b));
    }
    if HeadDecoded(b, was).0 && RouteSeen(b, HeadDecoded(b, was).1) == Sent(r)
       && UserIdAt(b) == 8 + |IdField(r.appid)| && NameAt(b) == 4 + |r.Head()| {
      SeenIsEncoded(b, r, was);
    }
  }

  lemma SeenIsEncoded(b: seq<byte>, r: Route, was: PipeFields)
    requires |b| == PIPE_MAX && r.Ok()
    requires HeadDecoded(b, was).0 && RouteSeen(b, HeadDecoded(b, was).1) == Sent(r)
    requires UserIdAt(b) == 8 + |IdField(r.appid)| && NameAt(b) == 4 + |r.Head()|
    ensures StartsWith(b, Le32(PipeBody(b)) + r.Head())
  {
    hide *;
    Capacities();
    SeenParts(b, r, was);
    HeadAssembled(b, r, UserIdAt(b));
  }

  lemma SeenParts(b: seq<byte>, r: Route, was: PipeFields)
    requires |b| == PIPE_MAX && r.Ok()
    requires HeadDecoded(b, was).0 && RouteSeen(b, HeadDecoded(b, was).1) == Sent(r)
    requires UserIdAt(b) == 8 + |IdField(r.appid)| && NameAt(b) == 4 + |r.Head()|
    ensures FromLe(b[4..8]) == r.sessionId
    ensures IdStands(b, 8, r.appid) && IdStands(b, UserIdAt(b), r.userId)
  {
    hide *;
    Capacities();
    HeadAccepted(b, was);
    HeadIs(r);
    IdsOk(r);
    SeenIds(b, r, was);
    OffsetsAre(b);
    SizedIdStands(b, 8, r.appid);
    SizedIdStands(b, UserIdAt(b), r.userId);
  }

  lemma SeenIds(b: seq<byte>, r: Route, was: PipeFields)
    requires |b| == PIPE_MAX && HeadDecoded(b, was).0 && RouteSeen(b, HeadDecoded(b, was).1) == Sent(r)
    ensures FromLe(b[4..8]) == r.sessionId
    ensures (b[8] == 0 <==> r.appid == []) && (r.appid != [] ==> CString(b[8 + 1..]) == r.appid)
    ensures var u := UserIdAt(b); (b[u] == 0 <==> r.userId == []) && (r.userId != [] ==> CString(b[u + 1..]) == r.userId)
  {
    hide FromLe, CString, UserIdAt;
  }

  lemma OffsetsAre(b: seq<byte>)
    requires |b| == PIPE_MAX
    ensures UserIdAt(b) == 8 + 1 + (b[8] as int) && NameAt(b) == UserIdAt(b) + 1 + (b[UserIdAt(b)] as int)
  {}

  lemma SizedIdStands(b: seq<byte>, at: nat, id: seq<byte>)
    requires IdOk(id) && at + 256 <= |b| && Counted(b, at) && |IdField(id)| == 1 + (b[at] as int)
    requires (b[at] == 0 <==> id == []) && (id != [] ==> CString(b[at + 1..]) == id)
    ensures IdStands(b, at, id)
  {
    hide CString;
  }

  lemma HeadAssembled(b: seq<byte>, r: Route, u: nat)
    requires |b| == PIPE_MAX && r.Ok() && u == 8 + |IdField(r.appid)|
    requires FromLe(b[4..8]) == r.sessionId && IdStands(b, 8, r.appid) && IdStands(b, u, r.userId)
    ensures StartsWith(b, Le32(PipeBody(b)) + r.Head())
  {
    hide *;
    Capacities();
    IdsOk(r);
    HeadIs(r);
    BodyIs(b);
    IdIsEncoded(b, 8, r.appid);
    IdIsEncoded(b, u, r.userId);
    Le32OfFromLe(b[4..8]);
    JoinFour(b, Le32(PipeBody(b)), Le32(r.sessionId), IdField(r.appid), IdField(r.userId));
  }

  lemma IdsOk(r: Route)
    requires r.Ok()
    ensures IdOk(r.appid) && IdOk(r.userId)
  {}

  lemma HeadIs(r: Route)
    requires r.Ok()
    ensures r.Head() == Le32(r.sessionId) + IdField(r.appid) + IdField(r.userId)
  {
    hide Le32, IdField;
  }

  lemma BodyIs(b: seq<byte>)
    requires |b| == PIPE_MAX
    ensures PipeBody(b) < TWO32 && b[..4] == Le32(PipeBody(b))
  {
    Le32OfFromLe(b[..4]);
    hide Le32, FromLe;
  }

  lemma JoinFour(b: seq<byte>, h: seq<byte>, s: seq<byte>, x: seq<byte>, y: seq<byte>)
    requires |h| == |s| == 4 && 8 + |x| + |y| <= |b| && b[..4] == h && b[4..8] == s
    requires b[8..8 + |x|] == x && b[8 + |x|..8 + |x| + |y|] == y
    ensures StartsWith(b, h + (s + x + y))
  {
    var a := 8 + |x|;
    assert b[..a + |y|] == b[..4] + (b[4..8] + b[8..a] + b[a..a + |y|]);
  }

  lemma RouteNumbers(b: seq<byte>, r: Route, body: u32)
    requires |b| == PIPE_MAX && r.Ok() && StartsWith(b, Le32(body) + r.Head())
    ensures PipeBody(b) == body && FromLe(b[4..8]) == r.sessionId
  {
    RouteBytes(b, r, body);
    Le32RoundTrip(body);
    Le32RoundTrip(r.sessionId);
    hide Le16, Le32, FromLe, Route.Head;
  }

  lemma RouteOffsets(b: seq<byte>, r: Route, body: u32)
    requires |b| == PIPE_MAX && r.Ok() && StartsWith(b, Le32(body) + r.Head())
    ensures IdStands(b, 8, r.appid) && UserIdAt(b) == 8 + |IdField(r.appid)| && IdStands(b, UserIdAt(b), r.userId)
    ensures NameAt(b) == 4 + |r.Head()|
  {
    hide *;
    Capacities();
    IdsOk(r);
    var a := 8 + |IdField(r.appid)|;
    RouteBytes(b, r, body);
    IdParts(b, 8, r.appid);
    IdParts(b, a, r.userId);
    IdsAt(b, r, a);
  }

  lemma IdsAt(b: seq<byte>, r: Route, a: nat)
    requires |b| == PIPE_MAX && r.Ok() && a == 8 + |IdField(r.appid)| && IdStands(b, 8, r.appid) && IdStands(b, a, r.userId)
    ensures UserIdAt(b) == a && NameAt(b) == 4 + |r.Head()|
  {
    HeadIs(r);
    hide Le32, CString, Route.Head;
  }

  lemma RouteBytes(b: seq<byte>, r: Route, body: u32)
    requires |b| == PIPE_MAX && r.Ok() && StartsWith(b, Le32(body) + r.Head())
    ensures b[..4] == Le32(body) && b[4..8] == Le32(r.sessionId)
    ensures var a := 8 + |IdField(r.appid)|;
            b[8..a] == IdField(r.appid) && b[a..a + |IdField(r.userId)|] == IdField(r.userId)
  {
    hide *;
    Capacities();
    IdsOk(r);
    HeadIs(r);
    FourParts(b, Le32(body), Le32(r.sessionId), IdField(r.appid), IdField(r.userId));
  }

  lemma FourParts(b: seq<byte>, h: seq<byte>, s: seq<byte>, x: seq<byte>, y: seq<byte>)
    requires |h| == |s| == 4 && StartsWith(b, h + (s + x + y))
    ensures var a := 8 + |x|; b[..4] == h && b[4..8] == s && b[8..a] == x && b[a..a + |y|] == y
  {
    var a := 8 + |x|;
    assert h + (s + x + y) == h + s + x + y;
    PrefixParts(h + s + x, y, b, a, a + |y|);
    PrefixParts(h + s, x, b, 8, a);
    PrefixParts(h, s, b, 4, 8);
  }

  /** Relaying is transparent: a wrapped client frame comes out byte for byte, with the route it was given. */
  lemma RelayTransparent(b: seq<byte>, r: Route, u: seq<byte>, into: seq<byte>, was: PipeFields)
    requires |b| == PIPE_MAX && |u| == |into| == USER_MAX && r.Ok() && BodySize(u) <= USER_MAX - 2
    requires StartsWith(b, RelayWritten(r, u[2..2 + BodySize(u)]))
    ensures HeadOk(b) && RouteSeen(b, HeadDecoded(b, was).1) == Sent(r)
    ensures RelayFits(b) && RelayedInto(b, into)[..2 + BodySize(u)] == u[..2 + BodySize(u)]
    ensures RelayedInto(b, into)[2 + BodySize(u)..] == into[2 + BodySize(u)..]
    ensures PipeBody(b) <= 16898 && PipeSizePasses(b)
  {
    hide StartsWith, Le16, Le32, FromLe, Route.Head, Route.Ok, CString, HeadDecoded, IdField, HeadOk, RouteSeen, RelayWritten, Sent, RelayedInto;
    var ub, k := u[2..2 + BodySize(u)], 4 + |r.Head()|;
    RelayedRoute(b, r, ub, k);
    RouteRecovered(b, r, |r.Head()| + |ub|, was);
    RelayedPrefix(b, into, ub, k);
    Le16OfFromLe(u[..2]);
    assert u[..2 + |ub|] == u[..2] + ub;
  }

  lemma RelayedPrefix(b: seq<byte>, into: seq<byte>, ub: seq<byte>, k: nat)
    requires |b| == PIPE_MAX && |into| == USER_MAX && RelayFits(b) && k == NameAt(b) && UserSize(b) == |ub|
    requires b[k..k + |ub|] == ub
    ensures RelayedInto(b, into)[..2 + |ub|] == Le16(|ub|) + ub
    ensures RelayedInto(b, into)[2 + |ub|..] == into[2 + |ub|..]
  {
    hide Le16, Le32;
  }

  lemma RelayedRoute(b: seq<byte>, r: Route, ub: seq<byte>, k: nat)
    requires |b| == PIPE_MAX && r.Ok() && StartsWith(b, RelayWritten(r, ub)) && k == 4 + |r.Head()|
    ensures StartsWith(b, Le32(|r.Head()| + |ub|) + r.Head())
    ensures b[k..k + |ub|] == ub
  {
    hide Le16, Le32, Route.Head, Route.Ok, StartsWith;
    var h := Le32(|r.Head()| + |ub|) + r.Head();
    assert RelayWritten(r, ub) == h + ub;
    PrefixParts(h, ub, b, k, k + |ub|);
  }

  /** The receiver accepts a directly encoded frame exactly if its body is not a multiple of 65536 bytes. */
  lemma DirectSizeTest(b: seq<byte>, r: Route, m: Message)
    requires |b| == PIPE_MAX && DirectOk(r, m) && StartsWith(b, DirectWritten(r, m))
    ensures PipeSizePasses(b) <==> DirectBody(r, m) % TWO16 != 0
  {
    hide *;
    Capacities();
    DirectIs(r, m);
    PrefixOf(Le32(DirectBody(r, m)) + r.Head(), IdField(m.name) + m.payload, b);
    RouteNumbers(b, r, DirectBody(r, m));
    SizeTested(b, DirectBody(r, m));
  }

  lemma DirectIs(r: Route, m: Message)
    requires DirectOk(r, m)
    ensures r.Ok() && IdOk(m.name) && DirectBody(r, m) <= PIPE_MAX
    ensures DirectWritten(r, m) == (Le32(DirectBody(r, m)) + r.Head()) + (IdField(m.name) + m.payload)
    ensures DirectWritten(r, m) == (Le32(DirectBody(r, m)) + r.Head()) + IdField(m.name) + m.payload
  {
    hide Le32, IdField, Route.Head;
  }

  lemma SizeTested(b: seq<byte>, size: nat)
    requires |b| == PIPE_MAX && PipeBody(b) == size
    ensures PipeSizePasses(b) <==> size % TWO16 != 0
  {
    hide PipeBody;
  }

  const ANYWHERE := Route(0, [], [])
  const REFUSED := Message([1], Zeros(65523))

  /** A frame that every encoder bound allows and every receiver refuses. */
  lemma LegalFrameRefused()
    ensures DirectOk(ANYWHERE, REFUSED) && DirectBody(ANYWHERE, REFUSED) == TWO16
    ensures forall b :: |b| == PIPE_MAX && StartsWith(b, DirectWritten(ANYWHERE, REFUSED)) ==> !PipeSizePasses(b)
  {
    hide Zeros, Le32;
    assert |ANYWHERE.Head()| == 6 && |IdField([1])| == 3;
    forall b | |b| == PIPE_MAX && StartsWith(b, DirectWritten(ANYWHERE, REFUSED)) ensures !PipeSizePasses(b) {
      hide *;
    Capacities();
      DirectSizeTest(b, ANYWHERE, REFUSED);
    }
  }

  /** For exactly which sizes the test, which sees 16 bits, says whether a body fits behind the header. */
  lemma PipeSizeTestMeansFits(b: seq<byte>)
    requires |b| == PIPE_MAX
    ensures (PipeSizePasses(b) <==> 0 < PipeBody(b) <= PIPE_MAX - 4) <==>
            (PipeBody(b) <= PIPE_MAX - 4 <==> PipeBody(b) == 0 || PipeBody(b) % TWO16 != 0)
  {}

  /** What a buffer holds after an encoder: its bytes, then four that were there before. */
  lemma WithStaleChecksum(was: seq<byte>, w: seq<byte>)
    requires |w| + 4 <= |was|
    ensures Splice(was, 0, w)[..|w| + 4] == w + was[|w|..|w| + 4]
  {}

  /** Encoding a message directly gives the same frame as encoding it for a client and relaying that,
      exactly when the type name is not empty and the four checksum bytes, which nobody writes, held the
      same in both buffers; in fresh buffers they do. */
  lemma EncodingsCommute(r: Route, m: Message, pipe: seq<byte>, user: seq<byte>)
    requires r.Ok() && Encodable(m) && |pipe| == PIPE_MAX && |user| == USER_MAX
    ensures DirectOk(r, m)
    ensures var n := MessageBody(m);
            var u := Splice(user, 0, Written(m));
            var direct := Splice(pipe, 0, DirectWritten(r, m))[..4 + DirectBody(r, m)];
            && BodySize(u) == n
            && (direct == RelayWritten(r, u[2..2 + n]) <==>
                m.name != [] && pipe[DirectBody(r, m)..DirectBody(r, m) + 4] == user[n - 2..n + 2])
  {
    var n := MessageBody(m);
    var w, u := DirectWritten(r, m), Splice(user, 0, Written(m));
    UserBodyOf(user, m);
    WithStaleChecksum(pipe, w);
    var stale, left := pipe[|w|..|w| + 4], user[n - 2..n + 2];
    RelayOfWritten(r, m, left);
    hide Le16, Le32, FromLe, Route.Head, Splice, DirectWritten, RelayWritten, IdField;
    if m.name != [] {
      assert (w + stale)[|w|..] == stale && (w + left)[|w|..] == left;
    }
  }

  lemma UserBodyOf(user: seq<byte>, m: Message)
    requires Encodable(m) && |user| == USER_MAX
    ensures var u := Splice(user, 0, Written(m));
            && BodySize(u) == MessageBody(m)
            && u[2..2 + MessageBody(m)] == Written(m)[2..] + user[MessageBody(m) - 2..MessageBody(m) + 2]
  {
    var w, u := Written(m), Splice(user, 0, Written(m));
    HeaderOf(m);
    hide Le16, Le32, FromLe;
    WithStaleChecksum(user, w);
    assert u[..2] == w[..2] == Le16(MessageBody(m));
    assert u[2..2 + MessageBody(m)] == u[..|w| + 4][2..];
  }

  lemma RelayOfWritten(r: Route, m: Message, left: seq<byte>)
    requires r.Ok() && Encodable(m) && |left| == 4
    ensures DirectOk(r, m)
    ensures m.name != [] ==> RelayWritten(r, Written(m)[2..] + left) == DirectWritten(r, m) + left
    ensures m.name == [] ==> |RelayWritten(r, Written(m)[2..] + left)| != |DirectWritten(r, m)| + 4
  {
    hide Le16, Le32, Route.Head;
    if m.name != [] {
      assert Written(m)[2..] == IdField(m.name) + m.payload;
    }
  }

  /** The corrected payload length of the direct decoder: it should also subtract the route. */
  function PayloadSize(b: seq<byte>): int
    requires |b| == PIPE_MAX
  {
    var nameSize: int := b[NameAt(b)];
    UserSize(b) - 1 - nameSize - 4
  }

  /** The message a reader sees through a name and a payload pointer and a length. */
  function MessageAt(b: seq<byte>, name: int, data: int, size: int): Option<Message> {
    if 0 <= name <= |b| && 0 <= data && 0 <= size && data + size <= |b|
    then Some(Message(CString(b[name..]), b[data..data + size]))
    else None
  }

  /** The direct decoder and relaying followed by the client decoder accept the same frames and see the same
      name and payload; the direct decoder's length alone is too large, by exactly the size of the route. */
  lemma DecodersAgree(b: seq<byte>, into: seq<byte>, was: PipeFields, userWas: Fields)
    requires |b| == PIPE_MAX && |into| == USER_MAX && HeadOk(b) && RelayFits(b) && PayloadSize(b) >= 0
    ensures PipeDecoded(b, was).0 == Decoded(RelayedInto(b, into), userWas).0
    ensures PipeDecoded(b, was).0 ==>
              var f, g := PipeDecoded(b, was).1, Decoded(RelayedInto(b, into), userWas).1;
              var appidSize: int, userIdSize: int := b[8], b[UserIdAt(b)];
              && MessageAt(b, f.msgName, f.msgData, PayloadSize(b)).Some?
              && MessageAt(b, f.msgName, f.msgData, PayloadSize(b))
                 == MessageAt(RelayedInto(b, into), g.msgName, g.msgData, g.msgDataSize)
              && g.msgDataSize == PayloadSize(b)
              && f.msgDataSize == PayloadSize(b) + 6 + appidSize + userIdSize
  {
    hide *;
    Capacities();
    var u, n, k: int := RelayedInto(b, into), NameAt(b), b[NameAt(b)];
    ExcessIs(b);
    assert PipeDecoded(b, was).0 <==> k >= 2 && b[n + k] == 0 by { PipeFieldsOf(b, was); }
    assert Decoded(u, userWas).0 <==> k >= 2 && b[n + k] == 0 by { RelayedMessage(b, into); FieldsOf(u, userWas); }
    if PipeDecoded(b, was).0 {
      PipeFieldsOf(b, was);
      RelayedMessage(b, into);
      FieldsOf(u, userWas);
    }
  }

  lemma ExcessIs(b: seq<byte>)
    requires |b| == PIPE_MAX
    ensures var appidSize: int, userIdSize: int := b[8], b[UserIdAt(b)]; NameAt(b) - 4 == 6 + appidSize + userIdSize
  {}

  /** The relayed frame, seen through the offsets of either decoder. */
  lemma RelayedMessage(b: seq<byte>, into: seq<byte>)
    requires |b| == PIPE_MAX && |into| == USER_MAX && HeadOk(b) && RelayFits(b) && PayloadSize(b) >= 0
    ensures var u, n, k: int, size := RelayedInto(b, into), NameAt(b), b[NameAt(b)], PayloadSize(b);
            && SelfContained(u) && BodySize(u) == size + 5 + k
            && u[2] == k && u[2 + k] == b[n + k]
            && (k >= 2 && b[n + k] == 0 ==>
                  MessageAt(b, n + 1, n + 1 + k, size).Some? && MessageAt(b, n + 1, n + 1 + k, size) == MessageAt(u, 3, 3 + k, size))
  {
    var u, n, k: int, size := RelayedInto(b, into), NameAt(b), b[NameAt(b)], PayloadSize(b);
    RelayedBytes(b, into);
    assert UserSize(b) == size + 5 + k && n + UserSize(b) <= |b|;
    hide *;
    Capacities();
    assert u[2] == b[(n - 2) + 2] && u[2 + k] == b[(n - 2) + (2 + k)];
    if k >= 2 && b[n + k] == 0 {
      SameNameAndPayload(b, u, n, k, size);
    }
  }

  /** Decode finds m, under the corrected length, and leaves a length that is too long by excess. */
  ghost predicate DirectSees(b: seq<byte>, was: PipeFields, m: Message, excess: nat)
    requires |b| == PIPE_MAX
  {
    var (ok, f) := PipeDecoded(b, was);
    && ok && PayloadSize(b) == |m.payload| && MessageAt(b, f.msgName, f.msgData, PayloadSize(b)) == Some(m)
    && f.msgNameSize == NameAt(b) && f.msgDataSize == |m.payload| + excess
  }

  /** The client's Decode finds m. */
  ghost predicate ClientSees(u: seq<byte>, was: Fields, m: Message)
    requires |u| == USER_MAX
  {
    var (ok, g) := Decoded(u, was);
    ok && MessageAt(u, g.msgName, g.msgData, g.msgDataSize) == Some(m)
  }

  /** Decode reads back what the direct encoder wrote, whatever else the buffer holds: the route, the name
      and, under the corrected length, the payload. The code's length counts the route's bytes as well. */
  lemma DirectRoundTrip(b: seq<byte>, r: Route, m: Message, was: PipeFields)
    requires |b| == PIPE_MAX && DirectOk(r, m) && m.name != [] && StartsWith(b, DirectWritten(r, m))
    ensures NameAt(b) == 4 + |r.Head()| && RouteSeen(b, PipeDecoded(b, was).1) == Sent(r)
    ensures DirectSees(b, was, m, |r.Head()|)
  {
    hide *;
    Capacities();
    DirectIs(r, m);
    var n := 4 + |r.Head()|;
    DirectParts(b, r, m);
    RouteRecovered(b, r, DirectBody(r, m), was);
    RouteFieldsOf(b, was);
    DirectPayload(b, r, m, n);
    StandsSeen(b, m, n, was);
  }

  /** A named message that stands behind an accepted head is seen by Decode, with the length too long by the head. */
  lemma StandsSeen(b: seq<byte>, m: Message, n: nat, was: PipeFields)
    requires |b| == PIPE_MAX && HeadOk(b) && n == NameAt(b) && MessageStands(b, n, m) && m.name != [] && PayloadSize(b) == |m.payload|
    ensures DirectSees(b, was, m, n - 4)
  {
    var k := |m.name| + 1;
    StandsAt(b, m, n);
    PipeFieldsAt(b, was, n, k);
    hide CString, PipeDecoded, NameAt, PayloadSize, MessageAt;
  }

  lemma StandsAt(b: seq<byte>, m: Message, n: nat)
    requires MessageStands(b, n, m)
    ensures MessageAt(b, n + 1, n + 1 + (|m.name| + 1), |m.payload|) == Some(m)
  {
    hide CString;
  }

  lemma PipeFieldsAt(b: seq<byte>, was: PipeFields, n: nat, k: nat)
    requires |b| == PIPE_MAX && HeadOk(b) && PayloadSize(b) >= 0 && n == NameAt(b) && b[n] == k >= 2 && b[n + k] == 0
    ensures var (ok, f) := PipeDecoded(b, was);
            && ok && f.msgNameSize == n && f.msgName == n + 1 && f.msgData == n + 1 + k
            && f.msgDataSize == PayloadSize(b) + (n - 4)
  {
    PipeFieldsOf(b, was);
    hide *;
  }

  /** Where the fields of a frame encoded directly must stand, and how long they must say they are. */
  predicate DirectSizes(b: seq<byte>, r: Route, m: Message)
    requires |b| == PIPE_MAX && DirectOk(r, m)
  {
    && PipeBody(b) == DirectBody(r, m) && UserIdAt(b) == 8 + |IdField(r.appid)| && NameAt(b) == 4 + |r.Head()|
    && b[NameAt(b)] == |m.name| + 1
  }

  /** A frame starts with the direct encoding of a named message exactly if Decode accepts it, its sizes are those of
      the message, and route, name and payload are what a reader sees: decoding inverts encoding both ways. */
  lemma DirectIsWritten(b: seq<byte>, r: Route, m: Message, was: PipeFields)
    requires |b| == PIPE_MAX && DirectOk(r, m) && m.name != []
    ensures var (ok, f) := PipeDecoded(b, was);
            StartsWith(b, DirectWritten(r, m)) <==>
              ok && DirectSizes(b, r, m) && RouteSeen(b, f) == Sent(r) && MessageAt(b, f.msgName, f.msgData, |m.payload|) == Some(m)
  {
    var (ok, f) := PipeDecoded(b, was);
    assert r.Ok();
    if StartsWith(b, DirectWritten(r, m)) {
      DirectRoundTrip(b, r, m, was);
      DirectSized(b, r, m, was);
    }
    if ok && DirectSizes(b, r, m) && RouteSeen(b, f) == Sent(r) && MessageAt(b, f.msgName, f.msgData, |m.payload|) == Some(m) {
      DirectAssembled(b, r, m, was);
    }
    hide *;
  }

  lemma DirectSized(b: seq<byte>, r: Route, m: Message, was: PipeFields)
    requires |b| == PIPE_MAX && DirectOk(r, m) && m.name != [] && StartsWith(b, DirectWritten(r, m))
    ensures DirectSizes(b, r, m)
  {
    hide *;
    Capacities();
    DirectIs(r, m);
    DirectParts(b, r, m);
    RouteOffsets(b, r, DirectBody(r, m));
    RouteNumbers(b, r, DirectBody(r, m));
    NameCounted(b, 4 + |r.Head()|, m);
    SizesAre(b, r, m);
  }

  lemma NameCounted(b: seq<byte>, n: nat, m: Message)
    requires MessageStands(b, n, m)
    ensures n < |b| && b[n] == |m.name| + 1
  {}

  lemma SizesAre(b: seq<byte>, r: Route, m: Message)
    requires |b| == PIPE_MAX && DirectOk(r, m) && PipeBody(b) == DirectBody(r, m)
    requires UserIdAt(b) == 8 + |IdField(r.appid)| && NameAt(b) == 4 + |r.Head()| && b[4 + |r.Head()|] == |m.name| + 1
    ensures DirectSizes(b, r, m)
  {
    hide Route.Head, NameAt, UserIdAt, PipeBody, IdField, DirectOk, DirectBody;
  }

  lemma DirectAssembled(b: seq<byte>, r: Route, m: Message, was: PipeFields)
    requires |b| == PIPE_MAX && DirectOk(r, m) && m.name != [] && DirectSizes(b, r, m)
    requires var (ok, f) := PipeDecoded(b, was);
             ok && RouteSeen(b, f) == Sent(r) && MessageAt(b, f.msgName, f.msgData, |m.payload|) == Some(m)
    ensures StartsWith(b, DirectWritten(r, m))
  {
    assert r.Ok() && PipeBody(b) == DirectBody(r, m) && UserIdAt(b) == 8 + |IdField(r.appid)|;
    assert NameAt(b) == 4 + |r.Head()| && b[NameAt(b)] == |m.name| + 1;
    hide *;
    Capacities();
    assert StartsWith(b, Le32(PipeBody(b)) + r.Head()) by { DirectHead(b, r, was); }
    SeenMessage(b, NameAt(b), m, was);
    NameAppended(b, r, m);
  }

  lemma DirectHead(b: seq<byte>, r: Route, was: PipeFields)
    requires |b| == PIPE_MAX && r.Ok() && PipeDecoded(b, was).0 && RouteSeen(b, PipeDecoded(b, was).1) == Sent(r)
    requires UserIdAt(b) == 8 + |IdField(r.appid)| && NameAt(b) == 4 + |r.Head()|
    ensures StartsWith(b, Le32(PipeBody(b)) + r.Head())
  {
    hide *;
    Capacities();
    AcceptedName(b, was);
    RouteFieldsOf(b, was);
    SeenIsEncoded(b, r, was);
  }

  lemma NameAppended(b: seq<byte>, r: Route, m: Message)
    requires |b| == PIPE_MAX && DirectOk(r, m) && m.name != [] && PipeBody(b) == DirectBody(r, m)
    requires StartsWith(b, Le32(PipeBody(b)) + r.Head())
    requires MessageStands(b, 4 + |r.Head()|, m)
    ensures StartsWith(b, DirectWritten(r, m))
  {
    hide *;
    Capacities();
    DirectIs(r, m);
    var h := Le32(PipeBody(b)) + r.Head();
    MessageAppended(b, h, m);
  }

  lemma MessageAppended(b: seq<byte>, h: seq<byte>, m: Message)
    requires IdOk(m.name) && m.name != [] && |h| + 300 <= |b| && StartsWith(b, h) && MessageStands(b, |h|, m)
    ensures StartsWith(b, h + IdField(m.name) + m.payload)
  {
    hide CString;
    IdIsEncoded(b, |h|, m.name);
    assert |IdField(m.name)| == |m.name| + 2;
    hide IdField;
    JoinThree(b, h, IdField(m.name), m.payload);
  }

  lemma SeenMessage(b: seq<byte>, n: nat, m: Message, was: PipeFields)
    requires |b| == PIPE_MAX && n == NameAt(b) && PipeDecoded(b, was).0 && b[n] == |m.name| + 1
    requires MessageAt(b, PipeDecoded(b, was).1.msgName, PipeDecoded(b, was).1.msgData, |m.payload|) == Some(m)
    ensures MessageStands(b, n, m)
  {
    AcceptedName(b, was);
    hide CString, NameAt, PipeDecoded, HeadDecoded;
  }

  lemma AcceptedName(b: seq<byte>, was: PipeFields)
    requires |b| == PIPE_MAX && PipeDecoded(b, was).0
    ensures var n, k: int, f := NameAt(b), b[NameAt(b)], PipeDecoded(b, was).1;
            && HeadDecoded(b, was).0 && k >= 2 && b[n + k] == 0
            && f.msgName == n + 1 && f.msgData == n + 1 + k
  {
    hide HeadDecoded, FromLe;
  }

  lemma JoinThree(b: seq<byte>, h: seq<byte>, x: seq<byte>, y: seq<byte>)
    requires |h| + |x| + |y| <= |b| && StartsWith(b, h)
    requires b[|h|..|h| + |x|] == x && b[|h| + |x|..|h| + |x| + |y|] == y
    ensures StartsWith(b, h + x + y)
  {
    assert b[..|h| + |x| + |y|] == b[..|h|] + b[|h|..|h| + |x|] + b[|h| + |x|..|h| + |x| + |y|];
  }

  /** At n stand the name of m, counted, and then its payload. */
  predicate MessageStands(b: seq<byte>, n: nat, m: Message) {
    var k := |m.name| + 1;
    && n + 1 + k + |m.payload| <= |b|
    && b[n] == k && b[n + k] == 0 && CString(b[n + 1..]) == m.name
    && b[n + 1 + k..n + 1 + k + |m.payload|] == m.payload
  }

  lemma DirectPayload(b: seq<byte>, r: Route, m: Message, n: nat)
    requires |b| == PIPE_MAX && DirectOk(r, m) && m.name != [] && n == NameAt(b) == 4 + |r.Head()|
    requires PipeBody(b) == DirectBody(r, m) && MessageStands(b, n, m)
    ensures PayloadSize(b) == |m.payload|
  {
    hide FromLe, CString, Route.Head, NameAt, PipeBody;
  }

  /** Where the parts of a directly encoded frame stand. */
  lemma DirectParts(b: seq<byte>, r: Route, m: Message)
    requires |b| == PIPE_MAX && DirectOk(r, m) && m.name != [] && StartsWith(b, DirectWritten(r, m))
    ensures StartsWith(b, Le32(DirectBody(r, m)) + r.Head())
    ensures MessageStands(b, 4 + |r.Head()|, m)
  {
    hide *;
    Capacities();
    DirectIs(r, m);
    var h := Le32(DirectBody(r, m)) + r.Head();
    MessageParts(b, h, m);
  }

  lemma MessageParts(b: seq<byte>, h: seq<byte>, m: Message)
    requires IdOk(m.name) && m.name != [] && |h| + 256 <= |b| && StartsWith(b, h + IdField(m.name) + m.payload)
    ensures StartsWith(b, h) && MessageStands(b, |h|, m)
  {
    var f, n := IdField(m.name), |h|;
    assert |f| == |m.name| + 2;
    hide CString;
    PrefixParts(h + f, m.payload, b, n + |f|, n + |f| + |m.payload|);
    PrefixParts(h, f, b, n, n + |f|);
    IdParts(b, n, m.name);
  }

  /** A message encoded for a client and then relayed is an input that DecodersAgree speaks of, and there
      each decoding path gives the message back. */
  lemma RelayedMessageDecodes(b: seq<byte>, r: Route, m: Message, u: seq<byte>, into: seq<byte>, was: PipeFields, userWas: Fields)
    requires |b| == PIPE_MAX && |u| == |into| == USER_MAX && r.Ok() && Encodable(m) && m.name != []
    requires StartsWith(u, Written(m)) && StartsWith(b, RelayWritten(r, u[2..2 + MessageBody(m)]))
    ensures HeadOk(b) && RelayFits(b) && PayloadSize(b) == |m.payload| && NameAt(b) == 4 + |r.Head()|
    ensures DirectSees(b, was, m, |r.Head()|) && ClientSees(RelayedInto(b, into), userWas, m)
  {
    hide *;
    RelayedForClient(b, r, m, u, into, was, userWas);
    RelayedStands(b, r, m, u, was);
    StandsSeen(b, m, 4 + |r.Head()|, was);
  }

  lemma RelayedForClient(b: seq<byte>, r: Route, m: Message, u: seq<byte>, into: seq<byte>, was: PipeFields, userWas: Fields)
    requires |b| == PIPE_MAX && |u| == |into| == USER_MAX && r.Ok() && Encodable(m) && m.name != []
    requires StartsWith(u, Written(m)) && StartsWith(b, RelayWritten(r, u[2..2 + MessageBody(m)]))
    ensures HeadOk(b) && RelayFits(b) && PayloadSize(b) == |m.payload| && ClientSees(RelayedInto(b, into), userWas, m)
  {
    hide *;
    Capacities();
    EncodableFits(m);
    RoundTrip(u, m);
    RelayTransparent(b, r, u, into, was);
    RelayedEncoding(b, m, u, into, userWas);
  }

  lemma EncodableFits(m: Message)
    requires Encodable(m)
    ensures MessageBody(m) <= USER_MAX - 2 && IdOk(m.name)
  {}

  lemma RelayedStands(b: seq<byte>, r: Route, m: Message, u: seq<byte>, was: PipeFields)
    requires |b| == PIPE_MAX && |u| == USER_MAX && r.Ok() && Encodable(m) && m.name != []
    requires StartsWith(u, Written(m)) && StartsWith(b, RelayWritten(r, u[2..2 + MessageBody(m)]))
    ensures NameAt(b) == 4 + |r.Head()| && MessageStands(b, 4 + |r.Head()|, m)
  {
    hide *;
    Capacities();
    EncodableFits(m);
    var ub, rest := u[2..2 + MessageBody(m)], u[MessageBody(m) - 2..2 + MessageBody(m)];
    RelayedBody(u, m);
    RelayAsMessage(r, m, ub, rest);
    assert NameAt(b) == 4 + |r.Head()| by { RelayedHead(b, r, ub, was); }
    PrefixStands(b, Le32(|r.Head()| + |ub|) + r.Head(), m, rest);
  }

  lemma PrefixStands(b: seq<byte>, h: seq<byte>, m: Message, rest: seq<byte>)
    requires IdOk(m.name) && m.name != [] && |h| + 256 <= |b| && StartsWith(b, h + IdField(m.name) + m.payload + rest)
    ensures MessageStands(b, |h|, m)
  {
    hide *;
    PrefixOf(h + IdField(m.name) + m.payload, rest, b);
    MessageParts(b, h, m);
  }

  lemma RelayAsMessage(r: Route, m: Message, ub: seq<byte>, rest: seq<byte>)
    requires r.Ok() && IdOk(m.name) && ub == IdField(m.name) + m.payload + rest
    ensures RelayWritten(r, ub) == (Le32(|r.Head()| + |ub|) + r.Head()) + IdField(m.name) + m.payload + rest
  {
    hide Le32, Route.Head, IdField;
  }

  lemma RelayedBody(u: seq<byte>, m: Message)
    requires |u| == USER_MAX && Encodable(m) && m.name != [] && StartsWith(u, Written(m))
    ensures u[2..2 + MessageBody(m)] == IdField(m.name) + m.payload + u[MessageBody(m) - 2..2 + MessageBody(m)]
  {
    var w, n := Written(m), 2 + MessageBody(m);
    hide Le16;
    assert w[2..] == IdField(m.name) + m.payload;
    assert u[2..n] == u[..|w|][2..] + u[|w|..n];
  }

  lemma RelayedHead(b: seq<byte>, r: Route, ub: seq<byte>, was: PipeFields)
    requires |b| == PIPE_MAX && r.Ok() && |ub| <= USER_MAX && StartsWith(b, RelayWritten(r, ub))
    ensures NameAt(b) == 4 + |r.Head()|
  {
    hide *;
    Capacities();
    RelayedRoute(b, r, ub, 4 + |r.Head()|);
    RouteRecovered(b, r, |r.Head()| + |ub|, was);
  }

  lemma RelayedEncoding(b: seq<byte>, m: Message, u: seq<byte>, into: seq<byte>, userWas: Fields)
    requires |b| == PIPE_MAX && |u| == |into| == USER_MAX && RelayFits(b)
    requires Encodable(m) && m.name != [] && StartsWith(u, Written(m))
    requires RelayedInto(b, into)[..2 + MessageBody(m)] == u[..2 + MessageBody(m)]
    ensures PayloadSize(b) == |m.payload| && ClientSees(RelayedInto(b, into), userWas, m)
  {
    var x, w, n := RelayedInto(b, into), Written(m), 2 + MessageBody(m);
    RelayedBytes(b, into);
    hide RelayedInto, FromLe, CString, Written, NameAt;
    assert x[..|w|] == x[..n][..|w|] == u[..n][..|w|] == u[..|w|];
    RoundTrip(x, m);
    PartsOf(x, m);
    FieldsOf(x, userWas);
    FieldsOf(x, Fields(0, 0, 0, 0));
    assert x[2] == b[(NameAt(b) - 2) + 2];
  }

  lemma PipeFieldsOf(b: seq<byte>, was: PipeFields)
    requires |b| == PIPE_MAX && HeadOk(b) && PayloadSize(b) >= 0
    ensures var (ok, f), n, k: int := PipeDecoded(b, was), NameAt(b), b[NameAt(b)];
            && (ok <==> k >= 2 && b[n + k] == 0)
            && (ok ==> f.msgNameSize == n && f.msgName == n + 1 && f.msgData == n + 1 + k && f.msgDataSize == PayloadSize(b) + (n - 4))
            && (!ok ==> f == HeadDecoded(b, was).1.(msgNameSize := n, msgName := if k < 2 then was.msgName else n + 1))
  {
    HeadOkAlways(b, was);
    FromLeBound(b[..4]);
    Pow2Values();
    hide FromLe, HeadDecoded;
  }

  lemma RouteFieldsOf(b: seq<byte>, was: PipeFields)
    requires |b| == PIPE_MAX
    ensures RouteSeen(b, PipeDecoded(b, was).1) == RouteSeen(b, HeadDecoded(b, was).1)
  {
    var f, g := PipeDecoded(b, was).1, HeadDecoded(b, was).1;
    assert f.sessionId == g.sessionId && f.appid == g.appid && f.userId == g.userId;
    hide PipeDecoded, HeadDecoded;
  }

  lemma SameNameAndPayload(b: seq<byte>, u: seq<byte>, n: nat, k: nat, size: nat)
    requires 2 <= n && 0 < k && n + 1 + k + size <= |b| && 3 + k + size <= |u|
    requires forall i :: 3 <= i < 3 + k + size ==> u[i] == b[(n - 2) + i]
    requires b[n + k] == 0
    ensures MessageAt(b, n + 1, n + 1 + k, size).Some?
    ensures MessageAt(b, n + 1, n + 1 + k, size) == MessageAt(u, 3, 3 + k, size)
  {
    SameName(b, u, n, k);
    SameBytes(b, u, n - 2, 3 + k, 3 + k + size);
    hide CString;
  }

  lemma SameName(b: seq<byte>, u: seq<byte>, n: nat, k: nat)
    requires 2 <= n && 0 < k && n + k < |b| && 3 + k <= |u|
    requires forall i :: 3 <= i < 3 + k ==> u[i] == b[(n - 2) + i]
    requires b[n + k] == 0
    ensures CString(b[n + 1..]) == CString(u[3..])
  {
    SameBytes(b, u, n - 2, 3, 3 + k);
    CStringWithin(b[n + 1..], u[3..], k);
    hide CString;
  }

  lemma SameBytes(b: seq<byte>, u: seq<byte>, d: nat, i: nat, j: nat)
    requires i <= j <= |u| && d + j <= |b|
    requires forall k :: i <= k < j ==> u[k] == b[d + k]
    ensures b[d + i..d + j] == u[i..j] && b[d + i..][..j - i] == u[i..][..j - i]
  {}

  lemma RelayedBytes(b: seq<byte>, into: seq<byte>)
    requires |b| == PIPE_MAX && |into| == USER_MAX && RelayFits(b)
    ensures BodySize(RelayedInto(b, into)) == UserSize(b)
    ensures forall i :: 2 <= i < 2 + UserSize(b) ==> RelayedInto(b, into)[i] == b[(NameAt(b) - 2) + i]
  {
    var u, size := RelayedInto(b, into), UserSize(b);
    Le16RoundTrip(size);
    hide Le16, Le32, FromLe;
    assert u[..2] == Le16(size);
  }
}
