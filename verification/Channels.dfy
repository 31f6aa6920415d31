/** The framed message channel: two endpoints that queue, write, read and dispatch frames over a
    pair of byte streams, as a step system open to every interleaving, failure and close. */
module Channels {
  import opened Bytes
  import opened UserBuffers

  /** A message as the senders build them: encodable, and named, as protobuf types are. */
  type Outgoing = m: Message | Encodable(m) && m.name != [] witness Message([1], [])

  // ----- One endpoint -----

  datatype Job = WriteJob(frame: seq<byte>) | CloseJob

  /** An outstanding async_write and how much of its buffer the stream has taken. */
  datatype WriteOp = WriteOp(frame: seq<byte>, sent: nat)

  /** What the endpoint's outstanding async_read is filling, if there is one. */
  datatype Phase = Idle | Header(got: nat) | Body(got: nat) | Stopped

  /** What the endpoint does with decoded messages. A server session closes on a name that is not
      registered; a client only logs it. */
  datatype Policy = Policy(registered: set<seq<byte>>, closesOnUnknown: bool)

  datatype Endpoint = Endpoint(
    policy: Policy,
    jobs: seq<Job>,              // the io queue
    writeBufs: seq<seq<byte>>,   // the write deque
    writes: seq<WriteOp>,        // outstanding async writes
    open: bool,                  // the socket
    readBuf: seq<byte>,
    phase: Phase,
    posted: seq<Message>,        // handler jobs posted to the logic queue
    written: seq<Outgoing>,      // history: the messages passed to Write
    popped: seq<seq<byte>>,      // history: the frames whose write completed
    out: seq<byte>,              // history: the bytes the stream has taken
    writeFailed: bool,           // history: a write failed or was aborted
    onClose: nat,                // history: calls of the OnClose hook
    onClosed: nat,               // history: calls of the OnClosed hook
    taken: nat,                  // history: the bytes read from the peer's stream
    framesIn: nat                // history: the frames read whole
  )

  function NewEndpoint(policy: Policy): Endpoint {
    Endpoint(policy, [], [], [], true, Zeros(USER_MAX), Idle, [], [], [], [], false, 0, 0, 0, 0)
  }

  datatype Action =
    | Write(m: Outgoing)
    | Close
    | RunJob
    | Transfer(op: nat, count: nat)        // the stream takes count bytes of a write
    | WriteDone(op: nat)
    | WriteFail(op: nat, aborted: bool)
    | StartRead                            // DoReadHeader, called by the acceptor or the connector
    | Arrive(count: nat)                   // count bytes of the peer's stream are read
    | HeaderDone
    | BodyDone
    | ReadFail(aborted: bool)              // also a body refused because the user object is gone

  function StartWrite(e: Endpoint): Endpoint
    requires e.writeBufs != []
  {
    e.(writes := e.writes + [WriteOp(e.writeBufs[0], 0)])
  }

  /** Close: the hook at once, and a job to close the socket. */
  function PostClose(e: Endpoint): Endpoint { e.(onClose := e.onClose + 1, jobs := e.jobs + [CloseJob]) }

  function RanJob(e: Endpoint): Endpoint {
    if e.jobs == [] then e
    else
      var rest := e.(jobs := e.jobs[1..]);
      match e.jobs[0]
      case CloseJob => rest.(open := false, onClosed := e.onClosed + 1)
      case WriteJob(frame) =>
        var pushed := rest.(writeBufs := e.writeBufs + [frame]);
        if e.writeBufs == [] then StartWrite(pushed) else pushed
  }

  function Transferred(e: Endpoint, op: nat, count: nat): Endpoint {
    if e.open && op < |e.writes| && e.writes[op].sent + count <= |e.writes[op].frame| then
      var w := e.writes[op];
      e.(writes := e.writes[op := w.(sent := w.sent + count)], out := e.out + w.frame[w.sent..w.sent + count])
    else e
  }

  function Without<T>(s: seq<T>, i: nat): seq<T>
    requires i < |s|
  {
    s[..i] + s[i + 1..]
  }

  function WriteCompleted(e: Endpoint, op: nat): Endpoint {
    if op < |e.writes| && e.writes[op].sent == |e.writes[op].frame| && e.writeBufs != [] then
      var popped := e.(writes := Without(e.writes, op), writeBufs := e.writeBufs[1..], popped := e.popped + [e.writeBufs[0]]);
      if popped.writeBufs == [] then popped else StartWrite(popped)
    else e
  }

  function WriteErred(e: Endpoint, op: nat, aborted: bool): Endpoint {
    if op < |e.writes| then
      var failed := e.(writes := Without(e.writes, op), writeFailed := true);
      if aborted then failed else PostClose(failed)
    else e
  }

  /** Bytes read into the buffer at the place the outstanding read has reached. */
  function Received(e: Endpoint, bytes: seq<byte>): Endpoint {
    match e.phase
    case Header(got) =>
      if e.open && got + |bytes| <= 2 <= |e.readBuf| then
        e.(readBuf := Splice(e.readBuf, got, bytes), phase := Header(got + |bytes|), taken := e.taken + |bytes|)
      else e
    case Body(got) =>
      if e.open && 2 + got + |bytes| <= |e.readBuf| && got + |bytes| <= BodySize(e.readBuf) then
        e.(readBuf := Splice(e.readBuf, 2 + got, bytes), phase := Body(got + |bytes|), taken := e.taken + |bytes|)
      else e
    case _ => e
  }

  function ReadErred(e: Endpoint, aborted: bool): Endpoint {
    if e.phase.Header? || e.phase.Body? then
      var stopped := e.(phase := Stopped);
      if aborted then stopped else PostClose(stopped)
    else e
  }

  function HeaderCompleted(e: Endpoint): Endpoint {
    if e.phase == Header(2) && |e.readBuf| == USER_MAX then
      if SizePasses(e.readBuf) then e.(phase := Body(0)) else ReadErred(e, false)
    else e
  }

  /** OnReadBody: decode, look the name up, copy the payload out and post the handler job. The payload of an
      unregistered message is not looked at; a registered one that runs past the buffer stalls the model. */
  function BodyCompleted(e: Endpoint): Endpoint {
    if |e.readBuf| == USER_MAX && e.phase == Body(BodySize(e.readBuf)) then
      match NameOf(e.readBuf)
      case None => ReadErred(e, false)
      case Some(name) =>
        var read := e.(framesIn := e.framesIn + 1);
        if name in e.policy.registered then
          if Parsed(e.readBuf).Some? then read.(posted := e.posted + [Parsed(e.readBuf).value], phase := Header(0)) else e
        else if e.policy.closesOnUnknown then ReadErred(read, false)
        else read.(phase := Header(0))
    else e
  }

  /** One step of an endpoint whose peer's stream so far is incoming. A step that is not enabled changes nothing. */
  function Act(e: Endpoint, incoming: seq<byte>, action: Action): Endpoint {
    match action
    case Write(m) => e.(written := e.written + [m], jobs := e.jobs + [WriteJob(Frame(m))])
    case Close => PostClose(e)
    case RunJob => RanJob(e)
    case Transfer(op, count) => Transferred(e, op, count)
    case WriteDone(op) => WriteCompleted(e, op)
    case WriteFail(op, aborted) => WriteErred(e, op, aborted)
    case StartRead => if e.phase == Idle then e.(phase := Header(0)) else e
    case Arrive(count) => if e.taken + count <= |incoming| then Received(e, incoming[e.taken..e.taken + count]) else e
    case HeaderDone => HeaderCompleted(e)
    case BodyDone => BodyCompleted(e)
    case ReadFail(aborted) => ReadErred(e, aborted)
  }

  // ----- Two endpoints -----

  datatype Net = Net(a: Endpoint, b: Endpoint)

  datatype Event = AtA(act: Action) | AtB(act: Action)

  function Step(n: Net, ev: Event): Net {
    match ev
    case AtA(act) => n.(a := Act(n.a, n.b.out, act))
    case AtB(act) => n.(b := Act(n.b, n.a.out, act))
  }

  function Run(n: Net, evs: seq<Event>): Net
    decreases |evs|
  {
    if evs == [] then n else Run(Step(n, evs[0]), evs[1..])
  }

  function NewNet(pa: Policy, pb: Policy): Net { Net(NewEndpoint(pa), NewEndpoint(pb)) }

  // ----- Frames and streams -----

  function Concat(fs: seq<seq<byte>>): seq<byte> {
    if fs == [] then [] else fs[0] + Concat(fs[1..])
  }

  lemma AppendAssociative(x: seq<byte>, y: seq<byte>, z: seq<byte>)
    ensures x + (y + z) == (x + y) + z
  {}

  lemma {:induction false} ConcatAppend(a: seq<seq<byte>>, b: seq<seq<byte>>)
    ensures Concat(a + b) == Concat(a) + Concat(b)
  {
    if a == [] {
      assert a + b == b;
    } else {
      ConcatAppend(a[1..], b);
      assert (a + b)[0] == a[0] && (a + b)[1..] == a[1..] + b;
      assert Concat(a + b) == a[0] + Concat(a[1..] + b);
      assert Concat(a) == a[0] + Concat(a[1..]);
      hide Concat;
      AppendAssociative(a[0], Concat(a[1..]), Concat(b));
    }
  }

  function Frames(ms: seq<Outgoing>): (fs: seq<seq<byte>>)
    ensures |fs| == |ms|
  {
    seq(|ms|, i requires 0 <= i < |ms| => Frame(ms[i]))
  }

  function Stream(ms: seq<Outgoing>): seq<byte> { Concat(Frames(ms)) }

  /** The frames of the write jobs still queued. */
  function Queued(jobs: seq<Job>): seq<seq<byte>> {
    if jobs == [] then []
    else (match jobs[0] case WriteJob(f) => [f] case CloseJob => []) + Queued(jobs[1..])
  }

  lemma {:induction false} QueuedSnoc(jobs: seq<Job>, j: Job)
    ensures Queued(jobs + [j]) == Queued(jobs) + (match j case WriteJob(f) => [f] case CloseJob => [])
  {
    if jobs != [] {
      QueuedSnoc(jobs[1..], j);
      assert (jobs + [j])[1..] == jobs[1..] + [j];
    } else {
      assert jobs + [j] == [j];
    }
  }

  // ----- The writer's invariant -----

  /** How much of the front frame the stream has taken. */
  function FrontSent(e: Endpoint): int { |e.out| - |Concat(e.popped)| }

  ghost predicate WriterInv(e: Endpoint) {
    && Frames(e.written) == e.popped + e.writeBufs + Queued(e.jobs)
    && 0 <= FrontSent(e) <= (if e.writeBufs == [] then 0 else |e.writeBufs[0]|)
    && e.out == Concat(e.popped) + (if e.writeBufs == [] then [] else e.writeBufs[0][..FrontSent(e)])
    && (e.writes == [] || (e.writeBufs != [] && e.writes == [WriteOp(e.writeBufs[0], FrontSent(e))]))
    && (e.writes == [] ==> e.writeBufs == [] || e.writeFailed)
  }

  /** Steps that leave the writing side alone, but for a close job. */
  ghost predicate SameWriter(e: Endpoint, x: Endpoint) {
    && x.written == e.written && x.popped == e.popped && x.writeBufs == e.writeBufs
    && x.writes == e.writes && x.out == e.out && x.writeFailed == e.writeFailed
    && Queued(x.jobs) == Queued(e.jobs)
  }

  lemma CloseSame(e: Endpoint)
    ensures SameWriter(e, PostClose(e))
  {
    QueuedSnoc(e.jobs, CloseJob);
  }

  lemma ReadErredSame(e: Endpoint, aborted: bool)
    ensures SameWriter(e, ReadErred(e, aborted))
  {
    CloseSame(e.(phase := Stopped));
  }

  lemma ReceivedSame(e: Endpoint, bytes: seq<byte>)
    ensures SameWriter(e, Received(e, bytes))
  {}

  lemma BodyCompletedSame(e: Endpoint)
    ensures SameWriter(e, BodyCompleted(e))
  {
    hide Parsed, NameOf, ReadErred;
    ReadErredSame(e, false);
    ReadErredSame(e.(framesIn := e.framesIn + 1), false);
  }

  lemma ReadingKeepsWriter(e: Endpoint, incoming: seq<byte>, action: Action)
    requires !action.Write? && !action.RunJob? && !action.Transfer? && !action.WriteDone? && !action.WriteFail?
    ensures SameWriter(e, Act(e, incoming, action))
  {
    hide Received, BodyCompleted, ReadErred, PostClose;
    match action
    case Close => CloseSame(e);
    case StartRead =>
    case Arrive(count) => if e.taken + count <= |incoming| { ReceivedSame(e, incoming[e.taken..e.taken + count]); }
    case HeaderDone => ReadErredSame(e, false);
    case BodyDone => BodyCompletedSame(e);
    case ReadFail(aborted) => ReadErredSame(e, aborted);
    case _ =>
  }

  lemma WritingKept(e: Endpoint, m: Outgoing)
    requires WriterInv(e)
    ensures WriterInv(Act(e, [], Write(m)))
  {
    hide Frame, Concat, Queued;
    QueuedSnoc(e.jobs, WriteJob(Frame(m)));
    assert Frames(e.written + [m]) == Frames(e.written) + [Frame(m)];
  }

  lemma JobKept(e: Endpoint)
    requires WriterInv(e)
    ensures WriterInv(RanJob(e))
  {
    hide Frame, Concat;
    if e.jobs != [] && e.jobs[0].WriteJob? {
      var f, rest := e.jobs[0].frame, Queued(e.jobs[1..]);
      assert e.popped + (e.writeBufs + [f]) + rest == e.popped + e.writeBufs + ([f] + rest);
      assert (e.writeBufs + [f])[0] == if e.writeBufs == [] then f else e.writeBufs[0];
    }
  }

  lemma TransferKept(e: Endpoint, op: nat, count: nat)
    requires WriterInv(e)
    ensures WriterInv(Transferred(e, op, count))
  {
    hide Frame, Concat, Queued;
    if Transferred(e, op, count) != e {
      var f, k := e.writeBufs[0], FrontSent(e);
      assert f[..k] + f[k..k + count] == f[..k + count];
    }
  }

  lemma DoneKept(e: Endpoint, op: nat)
    requires WriterInv(e)
    ensures WriterInv(WriteCompleted(e, op))
  {
    hide Frame, Queued;
    if WriteCompleted(e, op) != e {
      var f, rest := e.writeBufs[0], e.writeBufs[1..];
      ConcatAppend(e.popped, [f]);
      assert Concat([f]) == f;
      assert e.writeBufs == [f] + rest;
      assert e.popped + [f] + rest == e.popped + e.writeBufs;
    }
  }

  lemma FailKept(e: Endpoint, op: nat, aborted: bool)
    requires WriterInv(e)
    ensures WriterInv(WriteErred(e, op, aborted))
  {
    hide Frame, Concat;
    QueuedSnoc(e.jobs, CloseJob);
  }

  lemma SameWriterKept(e: Endpoint, x: Endpoint)
    requires WriterInv(e) && SameWriter(e, x)
    ensures WriterInv(x)
  {}

  lemma WriterKept(e: Endpoint, incoming: seq<byte>, action: Action)
    requires WriterInv(e)
    ensures WriterInv(Act(e, incoming, action))
  {
    hide WriterInv, SameWriter, Frame;
    match action
    case Write(m) => WritingKept(e, m);
    case RunJob => JobKept(e);
    case Transfer(op, count) => TransferKept(e, op, count);
    case WriteDone(op) => DoneKept(e, op);
    case WriteFail(op, aborted) => FailKept(e, op, aborted);
    case _ =>
      ReadingKeepsWriter(e, incoming, action);
      SameWriterKept(e, Act(e, incoming, action));
  }

  /** The bytes on the stream are always a prefix of the frames written, in order: none skipped, none torn. */
  lemma OutIsPrefix(e: Endpoint)
    requires WriterInv(e)
    ensures StartsWith(Stream(e.written), e.out)
  {
    var rest := e.writeBufs + Queued(e.jobs);
    assert Frames(e.written) == e.popped + rest;
    ConcatAppend(e.popped, rest);
    if e.writeBufs != [] {
      assert Concat(rest) == e.writeBufs[0] + Concat(rest[1..]);
    }
  }

  // ----- The reader's invariant -----

  /** The messages whose name is registered, in order. */
  function Accepted(registered: set<seq<byte>>, ms: seq<Message>): seq<Message> {
    if ms == [] then []
    else
      var last := ms[|ms| - 1];
      Accepted(registered, ms[..|ms| - 1]) + if last.name in registered then [last] else []
  }

  /** How far into its frame the reader is, for a read that is outstanding or has just completed. */
  ghost predicate Reading(e: Endpoint, ms: seq<Outgoing>, got: nat) {
    && |e.readBuf| == USER_MAX
    && e.framesIn <= |ms|
    && e.taken == |Stream(ms[..e.framesIn])| + got
    && (got > 0 ==> e.framesIn < |ms| && got <= |Frame(ms[e.framesIn])| && e.readBuf[..got] == Frame(ms[e.framesIn])[..got])
  }

  ghost predicate PhaseInv(e: Endpoint, ms: seq<Outgoing>) {
    match e.phase
    case Idle => Reading(e, ms, 0) && e.framesIn == 0
    case Header(got) => got <= 2 && Reading(e, ms, got)
    case Body(got) => Reading(e, ms, 2 + got)
    case Stopped => true
  }

  /** Reading from a peer that has written ms and whose stream has taken out. */
  ghost predicate ReaderInv(e: Endpoint, ms: seq<Outgoing>, out: seq<byte>) {
    && PhaseInv(e, ms)
    && |e.readBuf| == USER_MAX && e.framesIn <= |ms| && e.taken <= |out|
    && e.posted == Accepted(e.policy.registered, ms[..e.framesIn])
    && KnownNames(e, ms)
  }

  /** A server has read no unregistered name, except perhaps the one it stopped at. */
  ghost predicate KnownNames(e: Endpoint, ms: seq<Outgoing>)
    requires e.framesIn <= |ms|
  {
    e.policy.closesOnUnknown ==>
      forall i :: 0 <= i < e.framesIn - (if e.phase.Stopped? then 1 else 0) ==> ms[i].name in e.policy.registered
  }

  lemma StreamSplit(ms: seq<Outgoing>, k: nat)
    requires k <= |ms|
    ensures Stream(ms) == Stream(ms[..k]) + Stream(ms[k..])
    ensures k < |ms| ==> Stream(ms[k..]) == Frame(ms[k]) + Stream(ms[k + 1..])
  {
    hide Frame;
    assert Frames(ms) == Frames(ms[..k]) + Frames(ms[k..]);
    ConcatAppend(Frames(ms[..k]), Frames(ms[k..]));
    if k < |ms| {
      assert Frames(ms[k..])[1..] == Frames(ms[k + 1..]);
    }
  }

  /** Bytes from the middle of a stream, as bytes of the frame they belong to. */
  lemma StreamSlice(ms: seq<Outgoing>, k: nat, x: nat, y: nat)
    requires k < |ms| && x <= y <= |Frame(ms[k])|
    ensures var base := |Stream(ms[..k])|;
            && base + |Frame(ms[k])| <= |Stream(ms)|
            && Stream(ms)[base + x..base + y] == Frame(ms[k])[x..y]
            && |Stream(ms[..k + 1])| == base + |Frame(ms[k])|
  {
    StreamSplit(ms, k);
    StreamSplit(ms[..k + 1], k);
    assert ms[..k + 1][..k] == ms[..k] && ms[..k + 1][k + 1..] == [];
    assert Stream([]) == [];
    hide Frame, Stream, Concat, Frames;
    var a, f, z := Stream(ms[..k]), Frame(ms[k]), Stream(ms[k + 1..]);
    assert Stream(ms) == a + (f + z);
    SliceBetween(a, f, z, x, y);
  }

  lemma SliceBetween(a: seq<byte>, f: seq<byte>, z: seq<byte>, x: nat, y: nat)
    requires x <= y <= |f|
    ensures (a + (f + z))[|a| + x..|a| + y] == f[x..y]
  {}

  /** Steps that leave the reading side alone. */
  ghost predicate SameReader(e: Endpoint, x: Endpoint) {
    && x.policy == e.policy && x.readBuf == e.readBuf && x.phase == e.phase && x.posted == e.posted
    && x.taken == e.taken && x.framesIn == e.framesIn
  }

  lemma WritingKeepsReader(e: Endpoint, incoming: seq<byte>, action: Action)
    requires !action.StartRead? && !action.Arrive? && !action.HeaderDone? && !action.BodyDone? && !action.ReadFail?
    ensures SameReader(e, Act(e, incoming, action))
  {}

  lemma SameReaderKept(e: Endpoint, x: Endpoint, ms: seq<Outgoing>, out: seq<byte>)
    requires ReaderInv(e, ms, out) && SameReader(e, x)
    ensures ReaderInv(x, ms, out)
  {}

  lemma SliceOfPrefix(x: seq<byte>, out: seq<byte>, i: nat, j: nat)
    requires StartsWith(x, out) && i <= j <= |out|
    ensures out[i..j] == x[i..j]
  {}

  /** Bytes that arrive are the next bytes of the frame being read. */
  lemma NextBytes(e: Endpoint, ms: seq<Outgoing>, out: seq<byte>, got: nat, count: nat)
    requires Reading(e, ms, got) && StartsWith(Stream(ms), out) && e.taken + count <= |out| && count > 0
    requires if got < 2 then got + count <= 2 else e.framesIn < |ms| && got + count <= |Frame(ms[e.framesIn])|
    ensures e.framesIn < |ms| && got + count <= |Frame(ms[e.framesIn])|
    ensures out[e.taken..e.taken + count] == Frame(ms[e.framesIn])[got..got + count]
  {
    assert ms[..|ms|] == ms;
    StreamSlice(ms, e.framesIn, got, got + count);
    SliceOfPrefix(Stream(ms), out, e.taken, e.taken + count);
    hide Frame, Stream, StartsWith;
  }

  lemma ArrivalExtends(e: Endpoint, x: Endpoint, ms: seq<Outgoing>, out: seq<byte>, got: nat, count: nat)
    requires Reading(e, ms, got) && StartsWith(Stream(ms), out) && e.taken + count <= |out| && count > 0
    requires if got < 2 then got + count <= 2 else e.framesIn < |ms| && got + count <= |Frame(ms[e.framesIn])|
    requires got + count <= USER_MAX && x.readBuf == Splice(e.readBuf, got, out[e.taken..e.taken + count])
    requires x.taken == e.taken + count && x.framesIn == e.framesIn
    ensures Reading(x, ms, got + count)
  {
    NextBytes(e, ms, out, got, count);
    var f, bytes := Frame(ms[e.framesIn]), out[e.taken..e.taken + count];
    hide Frame, Stream, StartsWith;
    assert f[..got] + f[got..got + count] == f[..got + count];
    assert x.readBuf[..got + count] == e.readBuf[..got] + bytes;
  }

  lemma HeaderRead(e: Endpoint, ms: seq<Outgoing>, got: nat)
    requires Reading(e, ms, got) && got >= 2
    ensures BodySize(e.readBuf) == MessageBody(ms[e.framesIn])
  {
    var f := Frame(ms[e.framesIn]);
    assert e.readBuf[..2] == e.readBuf[..got][..2] == f[..got][..2] == f[..2];
    assert f[..2] == Le16(MessageBody(ms[e.framesIn]));
    HeaderOf(ms[e.framesIn]);
    hide Le16, FromLe, Frame;
  }

  lemma ArriveKept(e: Endpoint, ms: seq<Outgoing>, out: seq<byte>, count: nat)
    requires ReaderInv(e, ms, out) && StartsWith(Stream(ms), out)
    ensures ReaderInv(if e.taken + count <= |out| then Received(e, out[e.taken..e.taken + count]) else e, ms, out)
  {
    if e.taken + count <= |out| {
      if count == 0 {
        assert out[e.taken..e.taken] == [];
        NothingArrives(e);
      } else if e.phase.Header? {
        HeaderArrives(e, ms, out, count);
      } else if e.phase.Body? {
        BodyArrives(e, ms, out, count);
      }
    }
    hide ReaderInv, StartsWith, Stream, Received;
  }

  lemma NothingArrives(e: Endpoint)
    ensures Received(e, []) == e
  {
    if e.phase.Header? && e.phase.got <= 2 <= |e.readBuf| {
      assert Splice(e.readBuf, e.phase.got, []) == e.readBuf;
    } else if e.phase.Body? && 2 + e.phase.got <= |e.readBuf| {
      assert Splice(e.readBuf, 2 + e.phase.got, []) == e.readBuf;
    }
  }

  lemma HeaderArrives(e: Endpoint, ms: seq<Outgoing>, out: seq<byte>, count: nat)
    requires ReaderInv(e, ms, out) && StartsWith(Stream(ms), out) && e.phase.Header? && count > 0
    requires e.taken + count <= |out|
    ensures ReaderInv(Received(e, out[e.taken..e.taken + count]), ms, out)
  {
    var x := Received(e, out[e.taken..e.taken + count]);
    if x != e {
      ArrivalExtends(e, x, ms, out, e.phase.got, count);
    }
    hide Frame, Stream, Accepted, StartsWith, Splice, FromLe, Reading;
  }

  lemma BodyArrives(e: Endpoint, ms: seq<Outgoing>, out: seq<byte>, count: nat)
    requires ReaderInv(e, ms, out) && StartsWith(Stream(ms), out) && e.phase.Body? && count > 0
    requires e.taken + count <= |out|
    ensures ReaderInv(Received(e, out[e.taken..e.taken + count]), ms, out)
  {
    HeaderRead(e, ms, 2 + e.phase.got);
    var x := Received(e, out[e.taken..e.taken + count]);
    if x != e {
      ArrivalExtends(e, x, ms, out, 2 + e.phase.got, count);
    }
    hide Frame, Stream, Accepted, StartsWith, Splice, FromLe, Reading;
  }

  /** A completed body decodes to exactly the message its frame was made of. */
  lemma BodyRead(e: Endpoint, ms: seq<Outgoing>)
    requires e.phase.Body? && PhaseInv(e, ms) && e.phase.got == BodySize(e.readBuf)
    ensures Parsed(e.readBuf).Some? && Parsed(e.readBuf).value == ms[e.framesIn]
  {
    var m := ms[e.framesIn];
    HeaderRead(e, ms, 2 + e.phase.got);
    var w, f := Written(m), Frame(m);
    assert e.readBuf[..|w|] == e.readBuf[..|f|][..|w|] == f[..|w|] == w;
    RoundTrip(e.readBuf, m);
  }

  lemma BodyKept(e: Endpoint, ms: seq<Outgoing>, out: seq<byte>)
    requires ReaderInv(e, ms, out)
    ensures ReaderInv(BodyCompleted(e), ms, out)
  {
    if BodyCompleted(e) != e {
      BodyRead(e, ms);
      ParsedHasName(e.readBuf);
      hide Frame, Stream, Parsed, NameOf, FromLe, ReaderInv, PhaseInv;
      FrameTaken(e, BodyCompleted(e), ms, out);
    }
  }

  /** After a whole frame the reader stands at the next one. */
  lemma FrameTaken(e: Endpoint, x: Endpoint, ms: seq<Outgoing>, out: seq<byte>)
    requires ReaderInv(e, ms, out) && e.phase.Body? && e.phase.got == BodySize(e.readBuf)
    requires x.policy == e.policy && x.readBuf == e.readBuf && x.taken == e.taken && x.framesIn == e.framesIn + 1
    requires var m := ms[e.framesIn];
             && x.posted == e.posted + (if m.name in e.policy.registered then [m] else [])
             && (x.phase == Stopped ||
                 (x.phase == Header(0) && (m.name in e.policy.registered || !e.policy.closesOnUnknown)))
    ensures ReaderInv(x, ms, out)
  {
    HeaderRead(e, ms, 2 + e.phase.got);
    StreamSlice(ms, e.framesIn, 0, 0);
    assert ms[..e.framesIn + 1][..e.framesIn] == ms[..e.framesIn];
    hide Frame, Stream, FromLe;
  }

  lemma HeaderKept(e: Endpoint, ms: seq<Outgoing>, out: seq<byte>)
    requires ReaderInv(e, ms, out)
    ensures ReaderInv(HeaderCompleted(e), ms, out)
  {
    if e.phase == Header(2) {
      hide Frame, Stream, Accepted;
      HeaderRead(e, ms, 2);
    }
  }

  lemma StartKept(e: Endpoint, ms: seq<Outgoing>, out: seq<byte>, incoming: seq<byte>)
    requires ReaderInv(e, ms, out)
    ensures ReaderInv(Act(e, incoming, StartRead), ms, out)
  {
    hide Frame, Stream, Accepted;
  }

  lemma ReadFailKept(e: Endpoint, ms: seq<Outgoing>, out: seq<byte>, aborted: bool)
    requires ReaderInv(e, ms, out)
    ensures ReaderInv(ReadErred(e, aborted), ms, out)
  {
    hide Frame, Stream, Accepted;
  }

  lemma ReaderKept(e: Endpoint, ms: seq<Outgoing>, out: seq<byte>, action: Action)
    requires ReaderInv(e, ms, out) && StartsWith(Stream(ms), out)
    ensures ReaderInv(Act(e, out, action), ms, out)
  {
    hide ReaderInv, StartsWith, Stream, Received, HeaderCompleted, BodyCompleted, ReadErred;
    match action
    case StartRead => StartKept(e, ms, out, out);
    case Arrive(count) => ArriveKept(e, ms, out, count);
    case HeaderDone => HeaderKept(e, ms, out);
    case BodyDone => BodyKept(e, ms, out);
    case ReadFail(aborted) => ReadFailKept(e, ms, out, aborted);
    case _ =>
      WritingKeepsReader(e, out, action);
      SameReaderKept(e, Act(e, out, action), ms, out);
  }

  /** What the peer's own steps do to what it has written and sent: both only grow. */
  lemma PeerGrows(e: Endpoint, incoming: seq<byte>, action: Action)
    ensures var x := Act(e, incoming, action);
            e.written <= x.written && e.out <= x.out
  {
    hide Frame, SameWriter;
    match action
    case Write(m) =>
    case RunJob =>
    case Transfer(op, count) =>
    case WriteDone(op) =>
    case WriteFail(op, aborted) =>
    case _ => ReadingChangesNoWrites(e, incoming, action);
  }

  lemma ReadingChangesNoWrites(e: Endpoint, incoming: seq<byte>, action: Action)
    requires !action.Write? && !action.RunJob? && !action.Transfer? && !action.WriteDone? && !action.WriteFail?
    ensures Act(e, incoming, action).written == e.written && Act(e, incoming, action).out == e.out
  {
    ReadingKeepsWriter(e, incoming, action);
    hide Act;
  }

  lemma ReaderUnderGrowth(e: Endpoint, ms: seq<Outgoing>, out: seq<byte>, more: seq<Outgoing>, longer: seq<byte>)
    requires ReaderInv(e, ms, out) && ms <= more && out <= longer
    ensures ReaderInv(e, more, longer)
  {
    hide Frame, Stream, Accepted;
    assert more[..e.framesIn] == ms[..e.framesIn];
    assert forall i :: 0 <= i < |ms| ==> more[i] == ms[i];
  }

  // ----- Every run -----

  /** Everything r reads comes from s. */
  ghost predicate Flow(s: Endpoint, r: Endpoint) {
    WriterInv(s) && ReaderInv(r, s.written, s.out)
  }

  ghost predicate NetInv(n: Net) { Flow(n.a, n.b) && Flow(n.b, n.a) }

  lemma StartsInv(pa: Policy, pb: Policy)
    ensures NetInv(NewNet(pa, pb))
  {
    assert Frames([]) == [];
  }

  lemma ActKeepsFlows(e: Endpoint, peer: Endpoint, action: Action)
    requires Flow(e, peer) && Flow(peer, e)
    ensures var x := Act(e, peer.out, action); Flow(x, peer) && Flow(peer, x)
  {
    hide WriterInv, ReaderInv, Act, StartsWith, Stream;
    var x := Act(e, peer.out, action);
    WriterKept(e, peer.out, action);
    PeerGrows(e, peer.out, action);
    ReaderUnderGrowth(peer, e.written, e.out, x.written, x.out);
    OutIsPrefix(peer);
    ReaderKept(e, peer.written, peer.out, action);
  }

  lemma {:induction false} RunKeeps(n: Net, evs: seq<Event>)
    requires NetInv(n)
    ensures NetInv(Run(n, evs))
    decreases |evs|
  {
    if evs != [] {
      hide Act, Flow;
      match evs[0] {
        case AtA(act) => ActKeepsFlows(n.a, n.b, act);
        case AtB(act) => ActKeepsFlows(n.b, n.a, act);
      }
      RunKeeps(Step(n, evs[0]), evs[1..]);
    }
  }

  // ----- What every run of the channel guarantees -----

  /** The messages r has handled, against those s has written. */
  ghost predicate InOrder(s: Endpoint, r: Endpoint) {
    && r.framesIn <= |s.written|
    && r.posted == Accepted(r.policy.registered, s.written[..r.framesIn])
    && (r.policy.closesOnUnknown ==> r.posted <= s.written)
  }

  /** At most one write is outstanding, it is for the front of the deque, and unless a write failed
      there is one exactly when the deque is not empty. */
  ghost predicate WriterSafe(e: Endpoint) {
    && |e.writes| <= 1
    && (e.writes != [] ==> e.writeBufs != [] && e.writes[0].frame == e.writeBufs[0])
    && (!e.writeFailed ==> (e.writes != [] <==> e.writeBufs != []))
    && StartsWith(Stream(e.written), e.out)
  }

  /** The reader's own checks never reject what a peer's encoder wrote, and a body always fits the buffer. */
  ghost predicate NeverRejects(s: Endpoint, r: Endpoint) {
    && |r.readBuf| == USER_MAX
    && (r.phase == Header(2) ==> 0 < BodySize(r.readBuf) <= USER_MAX - 2)
    && (r.phase.Body? ==> r.phase.got <= BodySize(r.readBuf) <= USER_MAX - 2)
    && (r.phase == Body(BodySize(r.readBuf)) ==>
          r.framesIn < |s.written| && Parsed(r.readBuf).Some? && Parsed(r.readBuf).value == s.written[r.framesIn])
  }

  lemma {:induction false} AcceptedAll(registered: set<seq<byte>>, ms: seq<Message>)
    requires forall i :: 0 <= i < |ms| ==> ms[i].name in registered
    ensures Accepted(registered, ms) == ms
    decreases |ms|
  {
    if ms != [] {
      AcceptedAll(registered, ms[..|ms| - 1]);
      assert ms == ms[..|ms| - 1] + [ms[|ms| - 1]];
    }
  }

  lemma AcceptedPrefix(registered: set<seq<byte>>, ms: seq<Message>, k: nat)
    requires k <= |ms| && forall i :: 0 <= i < k - 1 ==> ms[i].name in registered
    ensures Accepted(registered, ms[..k]) <= ms
  {
    if k > 0 {
      AcceptedAll(registered, ms[..k - 1]);
      assert ms[..k][..k - 1] == ms[..k - 1];
      assert ms[..k] == ms[..k - 1] + [ms[k - 1]];
    }
  }

  lemma FlowInOrder(s: Endpoint, r: Endpoint)
    requires Flow(s, r)
    ensures InOrder(s, r)
  {
    hide Frame, Stream, WriterInv, PhaseInv, Accepted;
    if r.policy.closesOnUnknown {
      AcceptedPrefix(r.policy.registered, s.written, r.framesIn);
    }
  }

  lemma FlowWriterSafe(s: Endpoint, r: Endpoint)
    requires Flow(s, r)
    ensures WriterSafe(s)
  {
    OutIsPrefix(s);
    hide Stream, StartsWith, ReaderInv, Frame;
  }

  lemma FlowNeverRejects(s: Endpoint, r: Endpoint)
    requires Flow(s, r)
    ensures NeverRejects(s, r)
  {
    if r.phase == Header(2) { HeaderRead(r, s.written, 2); }
    if r.phase.Body? {
      HeaderRead(r, s.written, 2 + r.phase.got);
      if r.phase.got == BodySize(r.readBuf) { BodyRead(r, s.written); }
    }
    hide Stream, StartsWith, WriterInv, Frame, FromLe, Parsed, Accepted;
  }

  /** Over every interleaving of posts, partial writes, arrivals, completions, failures and closes, in both
      directions at once: what is handled is what was written, in order, without loss, duplication or merging. */
  lemma ChannelDelivers(pa: Policy, pb: Policy, evs: seq<Event>)
    ensures var n := Run(NewNet(pa, pb), evs);
            && InOrder(n.a, n.b) && WriterSafe(n.a) && NeverRejects(n.a, n.b)
            && InOrder(n.b, n.a) && WriterSafe(n.b) && NeverRejects(n.b, n.a)
  {
    var n := Run(NewNet(pa, pb), evs);
    StartsInv(pa, pb);
    RunKeeps(NewNet(pa, pb), evs);
    hide Flow, InOrder, WriterSafe, NeverRejects, Run, NewNet;
    FlowInOrder(n.a, n.b);
    FlowWriterSafe(n.a, n.b);
    FlowNeverRejects(n.a, n.b);
    FlowInOrder(n.b, n.a);
    FlowWriterSafe(n.b, n.a);
    FlowNeverRejects(n.b, n.a);
  }

  /** Once every written byte has been read and handled, every registered message has been handled. */
  lemma FlowComplete(s: Endpoint, r: Endpoint)
    requires Flow(s, r) && r.phase == Header(0) && r.taken >= |Stream(s.written)|
    ensures r.posted == Accepted(r.policy.registered, s.written)
  {
    var ms, k := s.written, r.framesIn;
    if k < |ms| { StreamSlice(ms, k, 0, 0); }
    assert ms[..|ms|] == ms;
    hide Frame, Stream, WriterInv, Accepted;
  }

  /** If r has read and handled all the bytes that s has written, it has handled all the registered messages, in order. */
  ghost predicate Complete(s: Endpoint, r: Endpoint) {
    r.phase == Header(0) && r.taken >= |Stream(s.written)| ==>
      && r.posted == Accepted(r.policy.registered, s.written)
      && ((forall m :: m in s.written ==> m.name in r.policy.registered) ==> r.posted == s.written)
  }

  lemma ChannelComplete(pa: Policy, pb: Policy, evs: seq<Event>)
    ensures var n := Run(NewNet(pa, pb), evs); Complete(n.a, n.b) && Complete(n.b, n.a)
  {
    var n := Run(NewNet(pa, pb), evs);
    StartsInv(pa, pb);
    RunKeeps(NewNet(pa, pb), evs);
    hide Flow, Run, NewNet;
    FlowCompletes(n.a, n.b);
    FlowCompletes(n.b, n.a);
  }

  lemma FlowCompletes(s: Endpoint, r: Endpoint)
    requires Flow(s, r)
    ensures Complete(s, r)
  {
    hide Flow, Stream, Accepted;
    if r.phase == Header(0) && r.taken >= |Stream(s.written)| {
      FlowComplete(s, r);
      if forall m :: m in s.written ==> m.name in r.policy.registered {
        AcceptedAll(r.policy.registered, s.written);
      }
    }
  }

  // ----- Closing -----

  function CloseJobs(jobs: seq<Job>): nat {
    if jobs == [] then 0 else (if jobs[0].CloseJob? then 1 else 0) + CloseJobs(jobs[1..])
  }

  lemma {:induction false} CloseJobsSnoc(jobs: seq<Job>, j: Job)
    ensures CloseJobs(jobs + [j]) == CloseJobs(jobs) + if j.CloseJob? then 1 else 0
  {
    if jobs == [] {
      assert jobs + [j] == [j];
    } else {
      CloseJobsSnoc(jobs[1..], j);
      assert (jobs + [j])[1..] == jobs[1..] + [j];
    }
  }

  /** Each call of Close is a call of OnClose, and a later call of OnClosed or a job still queued; the socket
      is open until the first OnClosed. */
  ghost predicate ClosesOnce(e: Endpoint) {
    && e.onClose == e.onClosed + CloseJobs(e.jobs)
    && (e.open <==> e.onClosed == 0)
  }

  /** x is e, or e after a Close, as far as closing is concerned. */
  ghost predicate MayClose(e: Endpoint, x: Endpoint) {
    && x.open == e.open && x.onClosed == e.onClosed
    && ((x.onClose == e.onClose && x.jobs == e.jobs) || (x.onClose == e.onClose + 1 && x.jobs == e.jobs + [CloseJob]))
  }

  lemma MayCloseKept(e: Endpoint, x: Endpoint)
    requires ClosesOnce(e) && MayClose(e, x)
    ensures ClosesOnce(x)
  {
    CloseJobsSnoc(e.jobs, CloseJob);
  }

  lemma OthersMayClose(e: Endpoint, incoming: seq<byte>, action: Action)
    requires !action.Write? && !action.RunJob?
    ensures MayClose(e, Act(e, incoming, action))
  {
    hide Parsed, NameOf, FromLe, Splice;
    match action
    case BodyDone => BodyMayClose(e);
    case _ => hide BodyCompleted;
  }

  lemma BodyMayClose(e: Endpoint)
    ensures MayClose(e, BodyCompleted(e))
  {
    hide Parsed, NameOf, FromLe;
  }

  lemma ClosingKept(e: Endpoint, incoming: seq<byte>, action: Action)
    requires ClosesOnce(e)
    ensures ClosesOnce(Act(e, incoming, action))
  {
    hide Frame;
    match action
    case Write(m) => CloseJobsSnoc(e.jobs, WriteJob(Frame(m)));
    case RunJob =>
    case _ =>
      OthersMayClose(e, incoming, action);
      MayCloseKept(e, Act(e, incoming, action));
      hide Act, MayClose;
  }

  lemma {:induction false} RunKeepsClosing(n: Net, evs: seq<Event>)
    requires ClosesOnce(n.a) && ClosesOnce(n.b)
    ensures ClosesOnce(Run(n, evs).a) && ClosesOnce(Run(n, evs).b)
    decreases |evs|
  {
    if evs != [] {
      match evs[0] {
        case AtA(act) => ClosingKept(n.a, n.b.out, act);
        case AtB(act) => ClosingKept(n.b, n.a.out, act);
      }
      hide Act, ClosesOnce;
      RunKeepsClosing(Step(n, evs[0]), evs[1..]);
    }
  }

  /** In every run, however often and from wherever Close is called, each call runs both hooks in turn. */
  lemma EveryCloseCloses(pa: Policy, pb: Policy, evs: seq<Event>)
    ensures var n := Run(NewNet(pa, pb), evs); ClosesOnce(n.a) && ClosesOnce(n.b)
  {
    RunKeepsClosing(NewNet(pa, pb), evs);
  }

  /** The steps that must close a session: a call of Close, a write or a read that fails without being aborted, a header
      that fails the size test, a body that does not decode, and a name that the policy refuses. */
  predicate MustClose(e: Endpoint, action: Action) {
    match action
    case Close => true
    case WriteFail(op, aborted) => op < |e.writes| && !aborted
    case ReadFail(aborted) => (e.phase.Header? || e.phase.Body?) && !aborted
    case HeaderDone => RefusesHeader(e)
    case BodyDone => RefusesBody(e)
    case _ => false
  }

  predicate RefusesHeader(e: Endpoint) {
    e.phase == Header(2) && |e.readBuf| == USER_MAX && (BodySize(e.readBuf) == 0 || BodySize(e.readBuf) > USER_MAX)
  }

  predicate RefusesBody(e: Endpoint) {
    && |e.readBuf| == USER_MAX && e.phase == Body(BodySize(e.readBuf))
    && match NameOf(e.readBuf)
       case None => true
       case Some(name) => e.policy.closesOnUnknown && name !in e.policy.registered
  }

  /** A session closes in exactly those steps, once each, and a refusal or a read error, aborted or not, ends its reading. */
  lemma ClosesExactly(e: Endpoint, incoming: seq<byte>, action: Action)
    ensures var x := Act(e, incoming, action);
            && x.onClose == e.onClose + (if MustClose(e, action) then 1 else 0)
            && (MustClose(e, action) ==> x.jobs == e.jobs + [CloseJob])
            && (action.ReadFail? && (e.phase.Header? || e.phase.Body?) ==> x.phase == Stopped)
            && (MustClose(e, action) && (action.HeaderDone? || action.BodyDone?) ==> x.phase == Stopped)
            && (action.WriteFail? && action.op < |e.writes| ==> x.writeFailed && x.writes == Without(e.writes, action.op) && x.writeBufs == e.writeBufs)
  {
    hide NameOf, Parsed, FromLe, Splice, Frame;
  }

  /** How many steps of a run must close the endpoint a, or else b. */
  function Closings(n: Net, evs: seq<Event>, atA: bool): nat
    decreases |evs|
  {
    if evs == [] then 0
    else
      (match evs[0]
       case AtA(act) => if atA && MustClose(n.a, act) then 1 else 0
       case AtB(act) => if !atA && MustClose(n.b, act) then 1 else 0)
      + Closings(Step(n, evs[0]), evs[1..], atA)
  }

  lemma {:induction false} RunCloses(n: Net, evs: seq<Event>)
    ensures Run(n, evs).a.onClose == n.a.onClose + Closings(n, evs, true)
    ensures Run(n, evs).b.onClose == n.b.onClose + Closings(n, evs, false)
    decreases |evs|
  {
    if evs != [] {
      match evs[0] {
        case AtA(act) => ClosesExactly(n.a, n.b.out, act);
        case AtB(act) => ClosesExactly(n.b, n.a.out, act);
      }
      hide Act, MustClose;
      RunCloses(Step(n, evs[0]), evs[1..]);
    }
  }

  /** In every run each endpoint has closed once for each step that must close it and for nothing else, and once its
      jobs have all run its socket is open exactly if there was no such step. */
  lemma ClosedForCause(pa: Policy, pb: Policy, evs: seq<Event>)
    ensures var start := NewNet(pa, pb);
            var n := Run(start, evs);
            && n.a.onClose == Closings(start, evs, true) && n.b.onClose == Closings(start, evs, false)
            && (n.a.jobs == [] ==> (n.a.open <==> Closings(start, evs, true) == 0))
            && (n.b.jobs == [] ==> (n.b.open <==> Closings(start, evs, false) == 0))
  {
    RunCloses(NewNet(pa, pb), evs);
    EveryCloseCloses(pa, pb, evs);
    hide Run, Closings;
  }

  /** What is over stays over: a closed socket moves no byte, a reading that has stopped reads and handles nothing more,
      and after a failed write the frame that failed is never given up for a later one. */
  ghost predicate StaysOver(e: Endpoint, x: Endpoint) {
    && (!e.open ==> !x.open && x.out == e.out && x.taken == e.taken)
    && (e.phase == Stopped ==> x.phase == Stopped && x.taken == e.taken && x.posted == e.posted && x.framesIn == e.framesIn)
    && (e.writeFailed && e.writes == [] && e.writeBufs != [] ==>
          x.writeFailed && x.writes == [] && x.writeBufs != [] && x.writeBufs[0] == e.writeBufs[0] && x.out == e.out && x.popped == e.popped)
  }

  lemma StepStaysOver(e: Endpoint, incoming: seq<byte>, action: Action)
    ensures StaysOver(e, Act(e, incoming, action))
  {
    hide NameOf, Parsed, FromLe, Splice, Frame;
    match action
    case Arrive(count) => hide BodyCompleted, HeaderCompleted;
    case BodyDone => BodyStaysOver(e);
    case _ => hide BodyCompleted, Received;
  }

  lemma BodyStaysOver(e: Endpoint)
    ensures StaysOver(e, BodyCompleted(e))
  {
    hide NameOf, Parsed, FromLe;
  }

  lemma {:induction false} OverForEver(n: Net, evs: seq<Event>)
    ensures StaysOver(n.a, Run(n, evs).a) && StaysOver(n.b, Run(n, evs).b)
    decreases |evs|
  {
    if evs != [] {
      match evs[0] {
        case AtA(act) => StepStaysOver(n.a, n.b.out, act);
        case AtB(act) => StepStaysOver(n.b, n.a.out, act);
      }
      hide Act;
      OverForEver(Step(n, evs[0]), evs[1..]);
    }
  }

  /** A header that passes starts a body read beyond the end of the buffer exactly if it says 16383 or 16384,
      and there are such headers; by NeverRejects a peer's encoder sends none. The model stalls in such a read. */
  lemma BodyReadOverruns(e: Endpoint)
    requires e.phase == Header(2) && |e.readBuf| == USER_MAX
    ensures var n := BodySize(e.readBuf);
            HeaderCompleted(e).phase == Body(0) && 2 + n > USER_MAX <==> n == 16383 || n == 16384
    ensures forall n :: n == 16383 || n == 16384 ==> BodySize(Splice(e.readBuf, 0, Le16(n))) == n
  {
    forall n | n == 16383 || n == 16384 ensures BodySize(Splice(e.readBuf, 0, Le16(n))) == n {
      Le16RoundTrip(n);
      assert Splice(e.readBuf, 0, Le16(n))[..2] == Le16(n);
    }
    hide FromLe, Le16, Splice;
  }

  // ----- Progress: with no failure and no close, everything written is handled -----

  ghost predicate Healthy(s: Endpoint, r: Endpoint) {
    && s.open && !s.writeFailed && CloseJob !in s.jobs
    && r.open && (r.phase.Header? || r.phase.Body?)
    && (r.policy.closesOnUnknown ==> forall m :: m in s.written ==> m.name in r.policy.registered)
  }

  /** The work left: jobs to run, frames to complete, bytes to send and to read, headers and bodies to handle. */
  ghost function Work(s: Endpoint, r: Endpoint): int {
    |s.jobs| + (|s.written| - |s.popped|) + (|Stream(s.written)| - |s.out|)
    + (|Stream(s.written)| - r.taken) + 2 * (|s.written| - r.framesIn) - (if r.phase.Body? then 1 else 0)
  }

  lemma WorkLeft(s: Endpoint, r: Endpoint)
    requires Flow(s, r)
    ensures Work(s, r) >= 0
  {
    OutIsPrefix(s);
    hide Stream, Frame, Accepted;
  }

  /** Each effective step of the sender's machinery leaves less work, and the direction healthy. */
  lemma SenderWorks(s: Endpoint, r: Endpoint, action: Action)
    requires Flow(s, r) && Healthy(s, r)
    requires action.RunJob? || action.Transfer? || action.WriteDone?
    ensures var x := Act(s, r.out, action);
            Healthy(x, r) && x.written == s.written && (x != s ==> Work(x, r) < Work(s, r))
  {
    hide Stream, Frame, ReaderInv;
    var x := Act(s, r.out, action);
    assert forall j :: j in x.jobs ==> j in s.jobs;
    if action.Transfer? { NothingTransfers(s, action.op); }
  }

  lemma NothingTransfers(e: Endpoint, op: nat)
    ensures Transferred(e, op, 0) == e
  {
    if op < |e.writes| && e.writes[op].sent <= |e.writes[op].frame| {
      assert e.writes[op := e.writes[op]] == e.writes;
    }
  }

  lemma ArriveWorks(s: Endpoint, r: Endpoint, count: nat)
    requires Flow(s, r) && Healthy(s, r)
    ensures var x := Act(r, s.out, Arrive(count));
            Healthy(s, x) && x.out == r.out && (x != r ==> Work(s, x) < Work(s, r))
  {
    hide Stream, Frame, WriterInv, FromLe, Splice;
    NothingArrives(r);
    if count == 0 { assert s.out[r.taken..r.taken] == []; }
  }

  lemma HeaderWorks(s: Endpoint, r: Endpoint)
    requires Flow(s, r) && Healthy(s, r)
    ensures var x := HeaderCompleted(r);
            Healthy(s, x) && x.out == r.out && (x != r ==> Work(s, x) < Work(s, r))
  {
    FlowNeverRejects(s, r);
    hide Stream, Frame, Flow, FromLe;
  }

  lemma BodyWorks(s: Endpoint, r: Endpoint)
    requires Flow(s, r) && Healthy(s, r)
    ensures var x := BodyCompleted(r);
            Healthy(s, x) && x.out == r.out && (x != r ==> Work(s, x) < Work(s, r))
  {
    FlowNeverRejects(s, r);
    if Parsed(r.readBuf).Some? { ParsedHasName(r.readBuf); }
    hide Stream, Frame, Flow, FromLe, Parsed, NameOf;
  }

  lemma ReceiverWorks(s: Endpoint, r: Endpoint, action: Action)
    requires Flow(s, r) && Healthy(s, r)
    requires action.Arrive? || action.HeaderDone? || action.BodyDone?
    ensures var x := Act(r, s.out, action);
            Healthy(s, x) && x.out == r.out && (x != r ==> Work(s, x) < Work(s, r))
  {
    hide Flow, Healthy, Work, HeaderCompleted, BodyCompleted, Received;
    match action
    case Arrive(count) => ArriveWorks(s, r, count);
    case HeaderDone => HeaderWorks(s, r);
    case BodyDone => BodyWorks(s, r);
  }

  /** While a written message is still unhandled, some step of the machinery is effective. */
  lemma NotStuck(s: Endpoint, r: Endpoint) returns (atSender: bool, action: Action)
    requires Flow(s, r) && Healthy(s, r)
    requires r.posted != Accepted(r.policy.registered, s.written)
    ensures atSender ==> (action.RunJob? || action.Transfer? || action.WriteDone?) && Act(s, r.out, action) != s
    ensures !atSender ==> (action.Arrive? || action.HeaderDone? || action.BodyDone?) && Act(r, s.out, action) != r
  {
    if s.jobs != [] {
      atSender, action := true, RunJob;
    } else if s.writes != [] {
      atSender := true;
      var op := s.writes[0];
      action := if op.sent == |op.frame| then WriteDone(0) else Transfer(0, |op.frame| - op.sent);
      hide Stream, Frame, ReaderInv;
    } else {
      atSender := false;
      AllSent(s, r);
      action := ReaderNext(s, r);
    }
  }

  lemma AllSent(s: Endpoint, r: Endpoint)
    requires Flow(s, r) && Healthy(s, r) && s.jobs == [] && s.writes == []
    ensures s.out == Stream(s.written)
  {
    assert s.popped + [] + [] == s.popped;
    hide Frame, ReaderInv, Concat;
  }

  lemma ReaderNext(s: Endpoint, r: Endpoint) returns (action: Action)
    requires Flow(s, r) && Healthy(s, r) && s.out == Stream(s.written)
    requires r.posted != Accepted(r.policy.registered, s.written)
    ensures (action.Arrive? || action.HeaderDone? || action.BodyDone?) && Act(r, s.out, action) != r
  {
    MoreToRead(s, r);
    FlowNeverRejects(s, r);
    if Parsed(r.readBuf).Some? { ParsedHasName(r.readBuf); }
    hide Stream, Frame, Flow, FromLe, Splice, Parsed, NameOf;
    if r.phase == Header(2) {
      action := HeaderDone;
    } else if r.phase == Body(BodySize(r.readBuf)) {
      action := BodyDone;
    } else {
      action := Arrive(1);
      assert r.open && |r.readBuf| == USER_MAX && r.taken < |s.out|;
      assert (r.phase.Header? && r.phase.got < 2) || (r.phase.Body? && r.phase.got < BodySize(r.readBuf) <= USER_MAX - 2);
      hide *;
      ArriveEffective(r, s.out);
    }
  }

  lemma ArriveEffective(r: Endpoint, out: seq<byte>)
    requires r.open && |r.readBuf| == USER_MAX && r.taken < |out|
    requires (r.phase.Header? && r.phase.got < 2) || (r.phase.Body? && r.phase.got < BodySize(r.readBuf) <= USER_MAX - 2)
    ensures Act(r, out, Arrive(1)) != r
  {
    hide FromLe, Splice;
  }

  lemma MoreToRead(s: Endpoint, r: Endpoint)
    requires Flow(s, r) && Healthy(s, r) && s.out == Stream(s.written)
    requires r.posted != Accepted(r.policy.registered, s.written)
    ensures r.phase.Header? ==> r.phase.got <= 2
    ensures r.phase == Header(2) || r.phase == Body(BodySize(r.readBuf)) || r.taken < |s.out|
  {
    var ms, k := s.written, r.framesIn;
    assert ms[..|ms|] == ms;
    StreamSlice(ms, k, 0, 0);
    if r.phase.Body? { HeaderRead(r, ms, 2 + r.phase.got); }
    hide Stream, WriterInv, FromLe, Accepted;
  }

  ghost predicate Handled(s: Endpoint, r: Endpoint) { r.posted == Accepted(r.policy.registered, s.written) }

  /** While something is unhandled in one direction, a step brings that direction on and leaves the other's work alone. */
  lemma Progress(s: Endpoint, r: Endpoint) returns (atSender: bool, action: Action)
    requires Flow(s, r) && Flow(r, s) && Healthy(s, r) && !Handled(s, r)
    ensures var x, y := if atSender then Act(s, r.out, action) else s, if atSender then r else Act(r, s.out, action);
            && Flow(x, y) && Flow(y, x) && Healthy(x, y) && x.written == s.written && y.written == r.written
            && x.policy == s.policy && y.policy == r.policy
            && Work(x, y) < Work(s, r) && (Healthy(r, s) ==> Healthy(y, x) && Work(y, x) == Work(r, s))
  {
    atSender, action := NotStuck(s, r);
    hide Flow, Healthy, Work, Accepted, Act;
    if atSender {
      SenderWorks(s, r, action);
      SenderLeavesOther(s, r, action);
      ActKeepsFlows(s, r, action);
      PolicyFixed(s, r.out, action);
    } else {
      ReceiverWorks(s, r, action);
      ReceiverLeavesOther(s, r, action);
      ActKeepsFlows(r, s, action);
      PolicyFixed(r, s.out, action);
    }
  }

  lemma SenderLeavesOther(s: Endpoint, r: Endpoint, action: Action)
    requires Healthy(s, r) && (action.RunJob? || action.Transfer? || action.WriteDone?)
    ensures var x := Act(s, r.out, action);
            Healthy(r, s) ==> Healthy(r, x) && Work(r, x) == Work(r, s)
  {
    assert s.jobs != [] ==> s.jobs[0] in s.jobs;
    hide Stream;
  }

  lemma ReceiverLeavesOther(s: Endpoint, r: Endpoint, action: Action)
    requires Flow(s, r) && Healthy(s, r) && (action.Arrive? || action.HeaderDone? || action.BodyDone?)
    ensures var y := Act(r, s.out, action);
            y.written == r.written && (Healthy(r, s) ==> Healthy(y, s) && Work(y, s) == Work(r, s))
  {
    FlowNeverRejects(s, r);
    ReadingChangesNoWrites(r, s.out, action);
    if Parsed(r.readBuf).Some? { ParsedHasName(r.readBuf); }
    hide Flow, Stream, Parsed, NameOf, FromLe, Splice;
  }

  /** From any reachable state, finitely many steps of the two machines handle everything written in each
      direction that is healthy, alone or both. */
  lemma {:induction false} Drains(n: Net, toB: bool, toA: bool) returns (evs: seq<Event>)
    requires NetInv(n) && (toB ==> Healthy(n.a, n.b)) && (toA ==> Healthy(n.b, n.a))
    ensures Run(n, evs).a.written == n.a.written && Run(n, evs).b.written == n.b.written
    ensures toB ==> Run(n, evs).b.posted == Accepted(n.b.policy.registered, n.a.written)
    ensures toA ==> Run(n, evs).a.posted == Accepted(n.a.policy.registered, n.b.written)
    decreases (if toB then Work(n.a, n.b) else 0) + (if toA then Work(n.b, n.a) else 0)
  {
    WorkLeft(n.a, n.b);
    WorkLeft(n.b, n.a);
    hide Flow, Healthy, Work, Accepted, Act;
    evs := [];
    if (toB && !Handled(n.a, n.b)) || (toA && !Handled(n.b, n.a)) {
      var ev: Event;
      if toB && !Handled(n.a, n.b) {
        var atSender, action := Progress(n.a, n.b);
        ev := if atSender then AtA(action) else AtB(action);
      } else {
        var atSender, action := Progress(n.b, n.a);
        ev := if atSender then AtB(action) else AtA(action);
      }
      var next := Step(n, ev);
      WorkLeft(next.a, next.b);
      WorkLeft(next.b, next.a);
      var rest := Drains(next, toB, toA);
      evs := [ev] + rest;
      assert evs[1..] == rest;
    }
  }

  /** A step of the two machines themselves: nothing is posted, closed or started, and nothing fails. */
  predicate OfMachine(ev: Event) {
    ev.act.RunJob? || ev.act.Transfer? || ev.act.WriteDone? || ev.act.Arrive? || ev.act.HeaderDone? || ev.act.BodyDone?
  }

  predicate AllEffective(n: Net, evs: seq<Event>)
    decreases |evs|
  {
    evs == [] || (OfMachine(evs[0]) && Step(n, evs[0]) != n && AllEffective(Step(n, evs[0]), evs[1..]))
  }

  ghost predicate BothHealthy(n: Net) { NetInv(n) && Healthy(n.a, n.b) && Healthy(n.b, n.a) }

  ghost function NetWork(n: Net): int { Work(n.a, n.b) + Work(n.b, n.a) }

  lemma EffectiveWorks(e: Endpoint, peer: Endpoint, action: Action)
    requires Flow(e, peer) && Flow(peer, e) && Healthy(e, peer) && Healthy(peer, e) && OfMachine(AtA(action))
    ensures var x := Act(e, peer.out, action);
            && Flow(x, peer) && Flow(peer, x) && Healthy(x, peer) && Healthy(peer, x)
            && x.written == e.written && x.policy == e.policy
            && (x != e ==> Work(x, peer) + Work(peer, x) < Work(e, peer) + Work(peer, e))
  {
    hide Flow, Healthy, Work, Act;
    ActKeepsFlows(e, peer, action);
    PolicyFixed(e, peer.out, action);
    if action.RunJob? || action.Transfer? || action.WriteDone? {
      SenderWorks(e, peer, action);
      SenderLeavesOther(e, peer, action);
    } else {
      ReceiverWorks(peer, e, action);
      ReceiverLeavesOther(peer, e, action);
    }
  }

  lemma {:induction false} ScheduleWorks(n: Net, evs: seq<Event>)
    requires BothHealthy(n) && AllEffective(n, evs)
    ensures var x := Run(n, evs);
            && BothHealthy(x) && NetWork(x) + |evs| <= NetWork(n)
            && x.a.written == n.a.written && x.b.written == n.b.written
            && x.a.policy == n.a.policy && x.b.policy == n.b.policy
    decreases |evs|
  {
    if evs != [] {
      hide Flow, Healthy, Work, Act;
      match evs[0] {
        case AtA(act) => EffectiveWorks(n.a, n.b, act);
        case AtB(act) => EffectiveWorks(n.b, n.a, act);
      }
      hide OfMachine;
      ScheduleWorks(Step(n, evs[0]), evs[1..]);
    }
  }

  /** No schedule of effective steps is longer than the work there was, and every one that cannot go on has handled
      everything written in both directions. */
  lemma EverySchedule(n: Net, evs: seq<Event>)
    requires BothHealthy(n) && AllEffective(n, evs)
    ensures |evs| <= NetWork(n)
    ensures var x := Run(n, evs);
            (forall ev :: OfMachine(ev) ==> Step(x, ev) == x) ==>
              && x.b.posted == Accepted(n.b.policy.registered, n.a.written)
              && x.a.posted == Accepted(n.a.policy.registered, n.b.written)
  {
    var x := Run(n, evs);
    ScheduleWorks(n, evs);
    WorkLeft(x.a, x.b);
    WorkLeft(x.b, x.a);
    hide Flow, Healthy, Work, Act, Accepted, Run, AllEffective, Step, OfMachine;
    if !Handled(x.a, x.b) || !Handled(x.b, x.a) {
      var _ := SomeStep(x);
    }
  }

  lemma SomeStep(n: Net) returns (ev: Event)
    requires BothHealthy(n) && (!Handled(n.a, n.b) || !Handled(n.b, n.a))
    ensures OfMachine(ev) && Step(n, ev) != n
  {
    hide Flow, Healthy, Act, Accepted;
    if !Handled(n.a, n.b) {
      var atSender, action := NotStuck(n.a, n.b);
      ev := if atSender then AtA(action) else AtB(action);
    } else {
      var atSender, action := NotStuck(n.b, n.a);
      ev := if atSender then AtB(action) else AtA(action);
    }
  }

  lemma PolicyFixed(e: Endpoint, incoming: seq<byte>, action: Action)
    ensures Act(e, incoming, action).policy == e.policy
  {
    hide Parsed, NameOf, Frame, Splice, FromLe;
  }

  // ----- From the very start: everything written on a connection can be delivered -----

  /** Healthy in both directions, with what the two ends have written and know. */
  ghost predicate HealthyWith(n: Net, pa: Policy, pb: Policy, atA: seq<Outgoing>, atB: seq<Outgoing>) {
    BothHealthy(n) && n.a.policy == pa && n.b.policy == pb && n.a.written == atA && n.b.written == atB
  }

  /** Once the acceptor and the connector have started the reading, both directions are healthy. */
  lemma ReadingStarts(pa: Policy, pb: Policy)
    ensures HealthyWith(Run(NewNet(pa, pb), [AtA(StartRead), AtB(StartRead)]), pa, pb, [], [])
  {
    var evs, n := [AtA(StartRead), AtB(StartRead)], NewNet(pa, pb);
    StartsInv(pa, pb);
    RunKeeps(n, evs);
    assert evs[1..] == [AtB(StartRead)] && evs[1..][1..] == [];
    assert Run(n, evs) == Step(Step(n, evs[0]), evs[1]);
    hide NetInv;
  }

  function WriteAt(m: Outgoing, atA: bool): Event { if atA then AtA(Write(m)) else AtB(Write(m)) }

  function Writes(ms: seq<Outgoing>, atA: bool): seq<Event> {
    if ms == [] then [] else [WriteAt(ms[0], atA)] + Writes(ms[1..], atA)
  }

  lemma WriteStaysHealthy(e: Endpoint, peer: Endpoint, m: Outgoing)
    requires Flow(e, peer) && Flow(peer, e) && Healthy(e, peer) && Healthy(peer, e) && m.name in peer.policy.registered
    ensures var x := Act(e, peer.out, Write(m));
            && Flow(x, peer) && Flow(peer, x) && Healthy(x, peer) && Healthy(peer, x)
            && x.written == e.written + [m] && x.policy == e.policy
  {
    ActKeepsFlows(e, peer, Write(m));
    hide Flow, Frame;
  }

  lemma NetWrite(n: Net, m: Outgoing, atA: bool)
    requires BothHealthy(n) && m.name in (if atA then n.b else n.a).policy.registered
    ensures HealthyWith(Step(n, WriteAt(m, atA)), n.a.policy, n.b.policy,
                        n.a.written + (if atA then [m] else []), n.b.written + (if atA then [] else [m]))
  {
    hide Flow, Healthy, Act;
    if atA { WriteStaysHealthy(n.a, n.b, m); } else { WriteStaysHealthy(n.b, n.a, m); }
  }

  lemma {:induction false} WritesHealthy(n: Net, ms: seq<Outgoing>, atA: bool)
    requires BothHealthy(n) && forall m :: m in ms ==> m.name in (if atA then n.b else n.a).policy.registered
    ensures HealthyWith(Run(n, Writes(ms, atA)), n.a.policy, n.b.policy,
                        n.a.written + (if atA then ms else []), n.b.written + (if atA then [] else ms))
    decreases |ms|
  {
    hide Step, BothHealthy;
    if ms == [] {
      assert n.a.written + [] == n.a.written && n.b.written + [] == n.b.written;
    } else {
      var evs := Writes(ms, atA);
      assert evs[1..] == Writes(ms[1..], atA);
      NetWrite(n, ms[0], atA);
      WritesHealthy(Step(n, evs[0]), ms[1..], atA);
      assert n.a.written + [ms[0]] + ms[1..] == n.a.written + ms && n.b.written + [ms[0]] + ms[1..] == n.b.written + ms;
      assert n.a.written + [] + [] == n.a.written + [] && n.b.written + [] + [] == n.b.written + [];
    }
  }

  lemma {:induction false} RunAppend(n: Net, evs: seq<Event>, more: seq<Event>)
    ensures Run(n, evs + more) == Run(Run(n, evs), more)
    decreases |evs|
  {
    hide Step;
    if evs == [] {
      assert evs + more == more;
    } else {
      RunAppend(Step(n, evs[0]), evs[1..], more);
      assert (evs + more)[1..] == evs[1..] + more;
    }
  }

  /** Whatever two new endpoints want to send each other, in names the other knows, some run delivers exactly that to
      both; by EverySchedule, after the same posts every schedule that goes on as long as it can does. */
  lemma EverythingDelivered(pa: Policy, pb: Policy, toB: seq<Outgoing>, toA: seq<Outgoing>) returns (evs: seq<Event>)
    requires (forall m :: m in toB ==> m.name in pb.registered) && (forall m :: m in toA ==> m.name in pa.registered)
    ensures var n := Run(NewNet(pa, pb), evs);
            n.a.written == toB && n.b.posted == toB && n.b.written == toA && n.a.posted == toA
  {
    hide BothHealthy, Healthy, NetInv, Run, Accepted;
    var starts, start := [AtA(StartRead), AtB(StartRead)], NewNet(pa, pb);
    ReadingStarts(pa, pb);
    var n := Run(start, starts);
    WritesHealthy(n, toB, true);
    var x := Run(n, Writes(toB, true));
    WritesHealthy(x, toA, false);
    var y := Run(x, Writes(toA, false));
    assert HealthyWith(y, pa, pb, toB, toA) by {
      assert [] + toB + [] == toB && [] + [] + toA == toA;
    }
    assert NetInv(y) && Healthy(y.a, y.b) && Healthy(y.b, y.a) by { HealthyParts(y); }
    var rest := Drains(y, true, true);
    AcceptedAll(pb.registered, toB);
    AcceptedAll(pa.registered, toA);
    RunAppend(start, starts, Writes(toB, true));
    RunAppend(start, starts + Writes(toB, true), Writes(toA, false));
    RunAppend(start, starts + Writes(toB, true) + Writes(toA, false), rest);
    evs := starts + Writes(toB, true) + Writes(toA, false) + rest;
  }

  lemma HealthyParts(n: Net)
    requires BothHealthy(n)
    ensures NetInv(n) && Healthy(n.a, n.b) && Healthy(n.b, n.a)
  {
    hide NetInv, Healthy;
  }
}
