/** The session (and pipe) object itself: its deque, queue and read buffer changed in place by the
    handlers, each proved to do exactly what the step system of Channels says. */
module Sessions {
  import opened Bytes
  import opened UserBuffers
  import opened Channels
  import KeepAlive

  class Session {
    const policy: Policy
    const readBuf: UserBuffer
    const clock: KeepAlive.SessionClock   // a server session's last_alive_time_
    var jobs: seq<Job>
    var writeBufs: seq<seq<byte>>
    var writes: seq<WriteOp>
    var open: bool
    var phase: Phase
    var posted: seq<Message>
    ghost var written: seq<Outgoing>
    ghost var popped: seq<seq<byte>>
    ghost var out: seq<byte>
    ghost var writeFailed: bool
    ghost var onClose: nat
    ghost var onClosed: nat
    ghost var taken: nat
    ghost var framesIn: nat

    ghost predicate Valid()
      reads this, readBuf
    {
      readBuf.Valid()
    }

    ghost function State(): Endpoint
      reads this, readBuf, readBuf.buf
    {
      Endpoint(policy, jobs, writeBufs, writes, open, readBuf.buf[..], phase, posted,
               written, popped, out, writeFailed, onClose, onClosed, taken, framesIn)
    }

    constructor (policy: Policy, now: nat)
      ensures fresh(clock) && clock.State() == KeepAlive.Server(KeepAlive.Seconds(now), 0)
      ensures Valid() && fresh(readBuf) && fresh(readBuf.buf)
      ensures State() == NewEndpoint(policy)
    {
      this.policy := policy;
      readBuf := new UserBuffer();
      clock := new KeepAlive.SessionClock(now);
      jobs, writeBufs, writes, open, phase, posted := [], [], [], true, Idle, [];
      written, popped, out, writeFailed, onClose, onClosed, taken, framesIn := [], [], [], false, 0, 0, 0, 0;
    }

    // ----- Posting to the io queue -----

    /** Encode into a new buffer and post it. */
    method SendMsg(m: Outgoing)
      requires Valid()
      modifies this
      ensures Valid() && State() == Act(old(State()), [], Write(m))
    {
      var buf := new UserBuffer.FromMessage(m);
      hide Frame, BodySize, Act;
      var frame := FrameOf(buf, m);
      Post(frame, m);
    }

    /** What is sent of a buffer made from m. */
    static method FrameOf(buf: UserBuffer, ghost m: Outgoing) returns (frame: seq<byte>)
      requires buf.Valid() && buf.buf[..2 + MessageBody(m)] == Frame(m)
      ensures frame == Frame(m)
    {
      hide Frame, BodySize;
      ghost var k := 2 + MessageBody(m);
      assert buf.buf[..][..k] == buf.buf[..k];
      FrameHeader(m, buf.buf[..]);
      var n := buf.Size();
      frame := buf.buf[..n];
    }

    method Post(frame: seq<byte>, ghost m: Outgoing)
      requires Valid() && frame == Frame(m)
      modifies this
      ensures Valid() && State() == Act(old(State()), [], Write(m))
    {
      written := written + [m];
      jobs := jobs + [WriteJob(frame)];
    }

    /** What a kind of session does on closing hangs on two hooks; here they only leave a trace. */
    method OnClose()
      modifies `onClose
      ensures onClose == old(onClose) + 1
    {
      onClose := onClose + 1;
    }

    method OnClosed()
      modifies `onClosed
      ensures onClosed == old(onClosed) + 1
    {
      onClosed := onClosed + 1;
    }

    method Close()
      requires Valid()
      modifies `jobs, `onClose
      ensures Valid() && State() == PostClose(old(State()))
    {
      OnClose();
      jobs := jobs + [CloseJob];
    }

    /** The io thread runs the job at the head of its queue. */
    method RunNextJob()
      requires Valid() && jobs != []
      modifies this
      ensures Valid() && State() == RanJob(old(State()))
    {
      var job := jobs[0];
      jobs := jobs[1..];
      match job
      case CloseJob =>
        open := false;
        OnClosed();
      case WriteJob(frame) =>
        var writeInProgress := |writeBufs| != 0;
        writeBufs := writeBufs + [frame];
        if !writeInProgress {
          DoWrite();
        }
    }

    // ----- Writing -----

    method DoWrite()
      requires Valid() && writeBufs != []
      modifies `writes
      ensures Valid() && State() == StartWrite(old(State()))
    {
      writes := writes + [WriteOp(writeBufs[0], 0)];
    }

    /** The stream accepts count more bytes of an outstanding write. */
    method Accept(op: nat, count: nat)
      requires Valid() && open && op < |writes| && writes[op].sent + count <= |writes[op].frame|
      modifies `writes, `out
      ensures Valid() && State() == Transferred(old(State()), op, count)
    {
      var w := writes[op];
      out := out + w.frame[w.sent..w.sent + count];
      writes := writes[op := w.(sent := w.sent + count)];
    }

    /** The completion handler of async_write; ec is None for success. */
    method OnWritten(op: nat, ec: Option<bool>)
      requires Valid() && op < |writes|
      requires ec == None ==> writes[op].sent == |writes[op].frame| && writeBufs != []
      modifies this
      ensures Valid()
      ensures State() == match ec case None => WriteCompleted(old(State()), op)
                                  case Some(aborted) => WriteErred(old(State()), op, aborted)
    {
      writes := writes[..op] + writes[op + 1..];
      if ec == None {
        popped := popped + [writeBufs[0]];
        writeBufs := writeBufs[1..];
        if |writeBufs| != 0 {
          DoWrite();
        }
      } else {
        writeFailed := true;
        if !ec.value {
          Close();
        }
      }
    }

    // ----- Reading -----

    method DoReadHeader()
      requires Valid()
      modifies `phase
      ensures Valid() && State() == old(State()).(phase := Header(0))
      ensures old(phase) == Idle ==> State() == Act(old(State()), [], StartRead)
    {
      phase := Header(0);
    }

    method DoReadBody()
      requires Valid()
      modifies `phase
      ensures Valid() && State() == old(State()).(phase := Body(0))
    {
      phase := Body(0);
    }

    /** The outstanding read takes bytes that have arrived; it never asks for more than its buffer. */
    method Fill(bytes: seq<byte>)
      requires Valid() && open
      requires match phase case Header(got) => got + |bytes| <= 2
                           case Body(got) => got + |bytes| <= BodySize(readBuf.buf[..]) && 2 + got + |bytes| <= USER_MAX
                           case _ => false
      modifies `phase, `taken, readBuf.buf
      ensures Valid() && State() == Received(old(State()), bytes)
    {
      hide Splice, FromLe;
      taken := taken + |bytes|;
      match phase
      case Header(got) =>
        CopyInto(readBuf.buf, got, bytes);
        phase := Header(got + |bytes|);
      case Body(got) =>
        CopyInto(readBuf.buf, 2 + got, bytes);
        phase := Body(got + |bytes|);
    }

    /** A failed read, a bad header and a refused body all end the reading; all but an abort close. */
    method StopReading(aborted: bool)
      requires Valid() && (phase.Header? || phase.Body?)
      modifies `phase, `jobs, `onClose
      ensures Valid() && State() == ReadErred(old(State()), aborted)
    {
      phase := Stopped;
      if !aborted {
        Close();
      }
    }

    method OnHeaderRead()
      requires Valid() && phase == Header(2)
      modifies this
      ensures Valid() && State() == HeaderCompleted(old(State()))
    {
      var ok := readBuf.SizeValid();
      if ok {
        DoReadBody();
      } else {
        StopReading(false);
      }
    }

    /** Decode in place, note the time, dispatch on the name, and post the handler with a copy of the payload. */
    method OnBodyRead(now: nat)
      requires Valid() && phase == Body(BodySize(readBuf.buf[..]))
      requires NameOf(readBuf.buf[..]).Some? && NameOf(readBuf.buf[..]).value in policy.registered ==> Parsed(readBuf.buf[..]).Some?
      modifies this, readBuf, clock
      ensures Valid() && State() == BodyCompleted(old(State()))
      ensures clock.State() == if NameOf(readBuf.buf[..]).Some? then KeepAlive.Heard(old(clock.State()), now) else old(clock.State())
      ensures readBuf.buf[..] == old(readBuf.buf[..])
    {
      hide FromLe, CString, Decoded, Parsed, NameOf;
      ghost var b, was := readBuf.buf[..], readBuf.GetFields();
      var ok := readBuf.Decode();
      ParsedFields(b, was);
      if !ok {
        StopReading(false);
        return;
      }
      clock.OnReadBody(now);
      framesIn := framesIn + 1;
      var name := CString(readBuf.buf[readBuf.msgName..]);
      if name in policy.registered {
        var payload := readBuf.buf[readBuf.msgData..readBuf.msgData + readBuf.msgDataSize];
        posted := posted + [Message(name, payload)];
      } else if policy.closesOnUnknown {
        StopReading(false);
        return;
      }
      DoReadHeader();
    }
  }

  /** What Decode leaves behind is what NameOf and Parsed read, whatever the fields held before. */
  lemma ParsedFields(b: seq<byte>, was: Fields)
    requires |b| == USER_MAX
    ensures var (ok, f) := Decoded(b, was);
            && (ok <==> NameOf(b).Some?)
            && (ok ==> f.msgName == 3 && NameOf(b) == Some(CString(b[f.msgName..])))
            && (ok && Parsed(b).Some? ==>
                  && 0 <= f.msgData && f.msgData + f.msgDataSize <= |b|
                  && Parsed(b) == Some(Message(NameOf(b).value, b[f.msgData..f.msgData + f.msgDataSize])))
  {
    hide FromLe, CString;
  }

  lemma FrameHeader(m: Outgoing, b: seq<byte>)
    requires |b| == USER_MAX && b[..2 + MessageBody(m)] == Frame(m)
    ensures BodySize(b) == MessageBody(m)
  {
    HeaderOf(m);
    assert b[..2] == b[..2 + MessageBody(m)][..2];
    assert Frame(m)[..2] == Le16(MessageBody(m));
    hide Le16, FromLe, Frame;
  }
}
