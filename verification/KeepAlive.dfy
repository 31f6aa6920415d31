/** Keep-alive on both ends, in milliseconds: clocks are read in whole seconds, the server checks
    every five seconds and the client pings every two. */
module KeepAlive {

  const CHECK_ALIVE_TIME := 5
  const PING_SEND_FREQUENCY := 2

  /** A time in milliseconds as the code reads it. */
  function Seconds(ms: nat): nat { ms / 1000 }

  predicate Evicts(now: nat, lastAlive: nat) {
    Seconds(now) > lastAlive && Seconds(now) - lastAlive >= CHECK_ALIVE_TIME
  }

  predicate Pings(now: nat, lastWrite: nat) {
    Seconds(now) > lastWrite && Seconds(now) - lastWrite >= PING_SEND_FREQUENCY
  }

  // ----- The two ends -----

  /** What a session keeps, and how often it has called Close from its timer. */
  datatype Server = Server(lastAliveTime: nat, closes: nat)

  function Heard(s: Server, now: nat): Server { s.(lastAliveTime := Seconds(now)) }

  function Checked(s: Server, now: nat): Server {
    s.(closes := s.closes + if Evicts(now, s.lastAliveTime) then 1 else 0)
  }

  /** What the client keeps, and as history when it wrote. */
  datatype Client = Client(lastWriteTime: nat, writes: seq<nat>)

  function Wrote(c: Client, now: nat): Client { Client(Seconds(now), c.writes + [now]) }

  function Ticked(c: Client, now: nat): Client { if Pings(now, c.lastWriteTime) then Wrote(c, now) else c }

  class SessionClock {
    var lastAliveTime: nat
    var closes: nat

    ghost function State(): Server
      reads this
    {
      Server(lastAliveTime, closes)
    }

    constructor (now: nat)
      ensures State() == Server(Seconds(now), 0)
    {
      lastAliveTime, closes := now / 1000, 0;
    }

    method OnReadBody(now: nat)
      modifies this
      ensures State() == Heard(old(State()), now)
    {
      lastAliveTime := now / 1000;
    }

    method CheckAlive(now: nat)
      modifies this
      ensures State() == Checked(old(State()), now)
    {
      var nowSeconds := now / 1000;
      if nowSeconds > lastAliveTime && nowSeconds - lastAliveTime >= CHECK_ALIVE_TIME {
        closes := closes + 1;
      }
    }
  }

  class ClientClock {
    var lastWriteTime: nat
    ghost var writes: seq<nat>

    ghost function State(): Client
      reads this
    {
      Client(lastWriteTime, writes)
    }

    constructor ()
      ensures State() == Client(0, [])
    {
      lastWriteTime, writes := 0, [];
    }

    method Write(now: nat)
      modifies this
      ensures State() == Wrote(old(State()), now)
    {
      lastWriteTime := now / 1000;
      writes := writes + [now];
    }

    method SendPingMsg(now: nat)
      modifies this
      ensures State() == Ticked(old(State()), now)
    {
      var nowSeconds := now / 1000;
      if nowSeconds > lastWriteTime && nowSeconds - lastWriteTime >= PING_SEND_FREQUENCY {
        Write(now);
      }
    }
  }

  // ----- What truncation to seconds does to the bounds -----

  /** A silence is harmless whenever it begins exactly if it lasts at most four seconds. */
  lemma HarmlessSilence(d: nat)
    ensures (forall t: nat :: !Evicts(t + d, Seconds(t))) <==> d <= 4000
  {
    if d > 4000 {
      assert Evicts(999 + d, Seconds(999));
    }
  }

  /** A check finds a silence fatal whenever it began exactly if it has lasted five seconds. */
  lemma FatalSilence(d: nat)
    ensures (forall t: nat :: Evicts(t + d, Seconds(t))) <==> d >= 5000
  {
    if d < 5000 {
      assert !Evicts(0 + d, Seconds(0));
    }
  }

  /** A ping tick writes whenever the last write was made exactly if that was two seconds ago or more. */
  lemma SurePing(d: nat)
    ensures (forall t: nat :: Pings(t + d, Seconds(t))) <==> d >= 2000
  {
    if d < 2000 {
      assert !Pings(0 + d, Seconds(0));
    }
  }

  /** With checks at start + 5 s, start + 10 s, ..., a session whose last message came at last is closed
      by a check less than 10 s later, and by none that finds at most 4 s of silence. */
  lemma SilentSessionCloses(start: nat, last: nat) returns (k: nat)
    requires start <= last
    ensures k >= 1 && last < start + 5000 * k < last + 10000
    ensures Evicts(start + 5000 * k, Seconds(last))
    ensures forall j: nat :: last <= start + 5000 * j <= last + 4000 ==> !Evicts(start + 5000 * j, Seconds(last))
  {
    k := (last + 9999 - start) / 5000;
    FatalSilence(start + 5000 * k - last);
    forall j: nat | last <= start + 5000 * j <= last + 4000 ensures !Evicts(start + 5000 * j, Seconds(last)) {
      HarmlessSilence(start + 5000 * j - last);
    }
  }

  // ----- A client and a server over one connection -----

  /** Each message is under way for delay to delay + jitter milliseconds, longer if the one before it is, and is read
      when the server has accepted. Each end reads its own clock. */
  datatype Link = Link(
    delay: nat,
    jitter: nat,
    accepted: nat,           // when the server accepts
    clientClock: nat,        // what the client's clock says at time 0
    serverClock: nat,        // what the server's clock says at time 0
    now: nat,
    client: Client,
    pingTick: nat,           // when the client's timer next fires
    flying: seq<nat>,        // when the messages under way will be read
    heard: seq<nat>,         // history: when messages were read
    server: Server,
    checkTick: nat,          // when the server's timer next fires
    early: nat               // history: closes before the first message was read
  )

  datatype Event =
    | Advance(to: nat)       // time passes, but not beyond a timer or an arrival that is due
    | AppWrite(extra: nat)   // extra: by how much the delay of the message, if one is written, is exceeded
    | PingTick(extra: nat)
    | Arrive
    | CheckTick

  /** The times at which the server reads the messages written so far. */
  function Readings(l: Link): seq<nat> { l.heard + l.flying }

  function Max(a: nat, b: nat): nat { if a < b then b else a }

  /** When a message written now is read: messages do not overtake each other. */
  function Arrival(l: Link, extra: nat): nat {
    var due := l.now + l.delay + extra;
    Max(if Readings(l) == [] then l.accepted else Readings(l)[|Readings(l)| - 1], due)
  }

  function ClientTime(l: Link): nat { l.now + l.clientClock }

  function ServerTime(l: Link): nat { l.now + l.serverClock }

  function Written(l: Link, extra: nat): Link {
    l.(client := Wrote(l.client, ClientTime(l)), flying := l.flying + [Arrival(l, extra)])
  }

  /** An event that is not due, or outside the jitter, changes nothing. */
  function Step(l: Link, ev: Event): Link {
    match ev
    case Advance(to) =>
      if l.now <= to <= l.pingTick && to <= l.checkTick && (l.flying != [] ==> to <= l.flying[0]) then l.(now := to) else l
    case AppWrite(extra) => if extra <= l.jitter then Written(l, extra) else l
    case PingTick(extra) =>
      if l.now == l.pingTick && extra <= l.jitter then
        l.(client := Ticked(l.client, ClientTime(l)),
           flying := if Pings(ClientTime(l), l.client.lastWriteTime) then l.flying + [Arrival(l, extra)] else l.flying,
           pingTick := l.now + 1000 * PING_SEND_FREQUENCY)
      else l
    case Arrive =>
      if l.flying != [] && l.flying[0] == l.now then
        l.(flying := l.flying[1..], heard := l.heard + [l.now], server := Heard(l.server, ServerTime(l)),
           early := if l.heard == [] then l.server.closes else l.early)
      else l
    case CheckTick =>
      if l.now == l.checkTick then
        l.(server := Checked(l.server, ServerTime(l)), checkTick := l.now + 1000 * CHECK_ALIVE_TIME)
      else l
  }

  function Run(l: Link, evs: seq<Event>): Link
    decreases |evs|
  {
    if evs == [] then l else Run(Step(l, evs[0]), evs[1..])
  }

  /** The server accepts and the client connects at their own times, in either order; both start their timers.
      The run begins when the client has connected. */
  function Connected(accepted: nat, connected: nat, delay: nat, jitter: nat, clientClock: nat, serverClock: nat): Link {
    Link(delay, jitter, accepted, clientClock, serverClock, connected, Client(0, []), connected + 2000, [], [],
         Server(Seconds(accepted + serverClock), 0), FirstCheck(accepted, connected), 0)
  }

  /** The server's first check that is not over when the client connects. */
  function FirstCheck(accepted: nat, connected: nat): nat {
    accepted + 5000 * (if accepted <= connected then (connected - accepted) / 5000 + 1 else 1)
  }

  /** How often a check has closed the session after its first message. */
  function Evictions(l: Link): int { if l.heard == [] then 0 else l.server.closes - l.early }

  /** A client that has written nothing pings at its first tick, its clock being past its first two seconds; and a
      server that has heard nothing closes at its first check. */
  lemma FirstTicks(l: Link, accepted: nat, connected: nat, delay: nat, jitter: nat, clientClock: nat, serverClock: nat)
    requires l == Connected(accepted, connected, delay, jitter, clientClock, serverClock)
    ensures var tick := Step(l.(now := l.pingTick), PingTick(0));
            l.pingTick == connected + 2000 && tick.client.writes == [connected + 2000 + clientClock] && |tick.flying| == 1
    ensures var check := Step(l.(now := accepted + 5000, checkTick := accepted + 5000), CheckTick);
            check.server.closes == 1 && check.checkTick == accepted + 10000
    ensures connected < accepted + 5000 ==> l.checkTick == accepted + 5000
  {}

  // ----- Where the two timers stand within their seconds decides how much jitter is harmless -----

  predicate Soon(r: seq<nat>, i: nat, gap: nat)
    requires 0 < i < |r|
  {
    r[i - 1] <= r[i] <= r[i - 1] + gap
  }

  /** Times in order, no two successive ones more than gap apart. */
  ghost predicate Frequent(r: seq<nat>, gap: nat) {
    forall i :: 0 < i < |r| ==> Soon(r, i, gap)
  }

  lemma FrequentSnoc(r: seq<nat>, t: nat, gap: nat)
    requires Frequent(r, gap) && (r == [] || r[|r| - 1] <= t <= r[|r| - 1] + gap)
    ensures Frequent(r + [t], gap)
  {
    forall i | 0 < i < |r| ensures Soon(r + [t], i, gap) {
      assert Soon(r, i, gap);
    }
  }

  /** How many milliseconds into the second of its end's clock each timer fires. */
  function ClientPhase(l: Link): nat { (l.pingTick + l.clientClock) % 1000 }

  function ServerPhase(l: Link): nat { (l.checkTick + l.serverClock) % 1000 }

  /** The most that can lie between two readings: 3000 ms and the client's phase, and the jitter. */
  function Gap(l: Link): nat { 3000 + ClientPhase(l) + l.jitter }

  predicate SamePhases(l: Link, x: Link) {
    && x.jitter == l.jitter && x.clientClock == l.clientClock && x.serverClock == l.serverClock
    && ClientPhase(x) == ClientPhase(l) && ServerPhase(x) == ServerPhase(l)
  }

  /** The jitter fits the phases of the two timers. */
  predicate InPhase(l: Link) { l.jitter + ClientPhase(l) <= 1000 + ServerPhase(l) }

  ghost predicate ClientInv(l: Link) {
    var ws := l.client.writes;
    && l.now <= l.pingTick <= l.now + 2000
    && (ws != [] ==> ws[|ws| - 1] <= ClientTime(l) && l.client.lastWriteTime == Seconds(ws[|ws| - 1])
                     && l.pingTick + l.clientClock <= ws[|ws| - 1] + 3000 + ClientPhase(l))
  }

  ghost predicate ReadingInv(l: Link) {
    var r, ws := Readings(l), l.client.writes;
    && Frequent(r, Gap(l))
    && |r| == |ws|
    && (ws != [] ==>
          && ws[|ws| - 1] + l.delay <= r[|r| - 1] + l.clientClock
          && l.accepted <= r[|r| - 1]
          && r[|r| - 1] + l.clientClock <= Max(l.accepted + l.clientClock, ws[|ws| - 1] + l.delay + l.jitter))
  }

  ghost predicate ServerInv(l: Link) {
    && l.now <= l.checkTick
    && (l.flying != [] ==> l.now <= l.flying[0])
    && (l.heard != [] ==> var h := l.heard[|l.heard| - 1];
                          h <= l.now && l.server.lastAliveTime == Seconds(h + l.serverClock))
    && Evictions(l) == 0
  }

  ghost predicate LinkInv(l: Link) { InPhase(l) && ClientInv(l) && ReadingInv(l) && ServerInv(l) }

  lemma SilenceIsShort(l: Link)
    requires LinkInv(l) && l.heard != []
    ensures l.now <= l.heard[|l.heard| - 1] + Gap(l)
  {
    var r, k, h := Readings(l), |l.heard|, l.heard[|l.heard| - 1];
    assert r[k - 1] == h;
    if l.flying != [] {
      assert Soon(r, k, Gap(l));
      assert r[k] == l.flying[0];
    }
    hide Seconds, Frequent, Readings;
  }

  lemma CheckIsInTime(l: Link)
    requires LinkInv(l) && l.heard != [] && l.now == l.checkTick
    ensures !Evicts(ServerTime(l), l.server.lastAliveTime)
  {
    SilenceIsShort(l);
    InTime(ServerTime(l), l.heard[|l.heard| - 1] + l.serverClock);
    hide Seconds, Evicts, ClientInv, ReadingInv;
  }

  lemma InTime(c: nat, h: nat)
    requires h <= c <= h + 4000 + c % 1000
    ensures !Evicts(c, Seconds(h))
  {}

  lemma WriteKept(l: Link, extra: nat)
    requires LinkInv(l) && extra <= l.jitter
    ensures LinkInv(Written(l, extra))
  {
    var x := Written(l, extra);
    ArrivalInTime(l, extra);
    FrequentSnoc(Readings(l), Arrival(l, extra), Gap(l));
    assert Readings(x) == Readings(l) + [Arrival(l, extra)];
    assert ClientPhase(x) == ClientPhase(l) && ServerPhase(x) == ServerPhase(l);
    hide Seconds, Frequent, Readings, Arrival, ClientPhase, ServerPhase;
  }

  lemma ArrivalInTime(l: Link, extra: nat)
    requires LinkInv(l) && extra <= l.jitter
    ensures var r, t := Readings(l), Arrival(l, extra);
            && (r != [] ==> r[|r| - 1] <= t <= r[|r| - 1] + Gap(l))
            && l.accepted <= t && l.now + l.delay <= t <= Max(l.accepted, l.now + l.delay + l.jitter)
  {
    hide Seconds, Frequent, Readings, ClientPhase, ServerPhase;
  }

  lemma RearmKept(l: Link)
    requires LinkInv(l) && l.now == l.pingTick && !Pings(ClientTime(l), l.client.lastWriteTime)
    ensures LinkInv(l.(pingTick := l.now + 2000))
  {
    var x, ws := l.(pingTick := l.now + 2000), l.client.writes;
    assert Readings(x) == Readings(l) && ClientPhase(x) == ClientPhase(l);
    if ws != [] { NoPingYet(ClientTime(l), ws[|ws| - 1]); }
    hide Frequent, Readings, Seconds, Pings, ClientPhase, ServerPhase;
  }

  lemma NoPingYet(t: nat, w: nat)
    requires w <= t && !Pings(t, Seconds(w))
    ensures t <= w + 1000 + t % 1000
  {}

  lemma PingKept(l: Link, extra: nat)
    requires LinkInv(l) && extra <= l.jitter && l.now == l.pingTick
    ensures LinkInv(Step(l, PingTick(extra)))
  {
    var was := if Pings(ClientTime(l), l.client.lastWriteTime) then Written(l, extra) else l;
    assert Step(l, PingTick(extra)) == was.(pingTick := l.now + 2000);
    WriteKept(l, extra);
    hide LinkInv, Arrival;
    RearmKept(was);
  }

  lemma ArriveKept(l: Link)
    requires LinkInv(l) && l.flying != [] && l.flying[0] == l.now
    ensures LinkInv(Step(l, Arrive))
  {
    var r, k, x := Readings(l), |l.heard|, Step(l, Arrive);
    assert Readings(x) == r;
    assert r[k] == l.flying[0];
    if |l.flying| > 1 {
      assert Soon(r, k + 1, Gap(l));
      assert r[k + 1] == x.flying[0];
    }
    hide Seconds, Frequent, Readings;
  }

  lemma CheckKept(l: Link)
    requires LinkInv(l) && l.now == l.checkTick
    ensures LinkInv(Step(l, CheckTick))
  {
    if l.heard != [] { CheckIsInTime(l); }
    assert Readings(Step(l, CheckTick)) == Readings(l);
    hide Seconds, Frequent, Evicts, Readings;
  }

  lemma AdvanceKept(l: Link, to: nat)
    requires LinkInv(l)
    ensures LinkInv(Step(l, Advance(to)))
  {
    assert Readings(Step(l, Advance(to))) == Readings(l);
    hide Seconds, Frequent, Readings;
  }

  lemma LinkKept(l: Link, ev: Event)
    requires LinkInv(l)
    ensures LinkInv(Step(l, ev))
  {
    hide LinkInv;
    match ev
    case AppWrite(extra) => if extra <= l.jitter { WriteKept(l, extra); }
    case PingTick(extra) => if l.now == l.pingTick && extra <= l.jitter { PingKept(l, extra); }
    case Arrive => if l.flying != [] && l.flying[0] == l.now { ArriveKept(l); }
    case CheckTick => if l.now == l.checkTick { CheckKept(l); }
    case Advance(to) => AdvanceKept(l, to);
  }

  lemma {:induction false} LinkInvAlways(l: Link, evs: seq<Event>)
    requires LinkInv(l)
    ensures LinkInv(Run(l, evs)) && SamePhases(l, Run(l, evs))
    decreases |evs|
  {
    if evs != [] {
      LinkKept(l, evs[0]);
      PhasesKept(l, evs[0]);
      hide LinkInv, Step;
      LinkInvAlways(Step(l, evs[0]), evs[1..]);
    }
  }

  lemma PhasesKept(l: Link, ev: Event)
    ensures SamePhases(l, Step(l, ev))
  {
    hide Arrival, Ticked;
  }

  lemma ConnectedInv(accepted: nat, connected: nat, delay: nat, jitter: nat, clientClock: nat, serverClock: nat)
    requires jitter + (connected + clientClock) % 1000 <= 1000 + (accepted + serverClock) % 1000
    ensures var l := Connected(accepted, connected, delay, jitter, clientClock, serverClock);
            LinkInv(l) && ClientPhase(l) == (connected + clientClock) % 1000
  {
    var k := if accepted <= connected then (connected - accepted) / 5000 + 1 else 1;
    ThousandsFall(accepted + serverClock, 5 * k);
    ThousandsFall(connected + clientClock, 2);
    assert FirstCheck(accepted, connected) + serverClock == accepted + serverClock + 1000 * (5 * k);
    FirstCheckAhead(accepted, connected);
    hide FirstCheck, Seconds;
  }

  lemma ThousandsFall(x: nat, k: nat)
    ensures (x + 1000 * k) % 1000 == x % 1000
  {}

  lemma FirstCheckAhead(accepted: nat, connected: nat)
    ensures connected <= FirstCheck(accepted, connected)
  {
  }

  /** Whatever else the client writes, whatever the delay and the two clocks, and whether the server accepts before
      or after the client connects: as long as the jitter fits the phases of the two timers a connected client is
      never evicted after its first message, and its messages are read often. */
  lemma ClientNeverEvicted(accepted: nat, connected: nat, delay: nat, jitter: nat, clientClock: nat, serverClock: nat, evs: seq<Event>)
    requires jitter + (connected + clientClock) % 1000 <= 1000 + (accepted + serverClock) % 1000
    ensures var l, p := Run(Connected(accepted, connected, delay, jitter, clientClock, serverClock), evs), (connected + clientClock) % 1000;
            && Evictions(l) == 0
            && (l.client.writes != [] ==> ClientTime(l) <= l.client.writes[|l.client.writes| - 1] + 3000 + p)
            && Frequent(Readings(l), 3000 + p + jitter)
  {
    var l := Connected(accepted, connected, delay, jitter, clientClock, serverClock);
    ConnectedInv(accepted, connected, delay, jitter, clientClock, serverClock);
    LinkInvAlways(l, evs);
    hide Run, Frequent, Readings, InPhase, Evictions, ClientPhase;
  }

  // ----- With more jitter, some run evicts a client that pings as it should -----

  ghost predicate Reaches(l: Link, x: Link) { exists evs :: Run(l, evs) == x }

  lemma {:induction false} RunAppend(l: Link, evs: seq<Event>, more: seq<Event>)
    ensures Run(l, evs + more) == Run(Run(l, evs), more)
    decreases |evs|
  {
    if evs == [] {
      assert evs + more == more;
    } else {
      RunAppend(Step(l, evs[0]), evs[1..], more);
      assert (evs + more)[1..] == evs[1..] + more;
    }
  }

  lemma ReachStep(l: Link, x: Link, ev: Event)
    requires Reaches(l, x)
    ensures Reaches(l, Step(x, ev))
  {
    var evs :| Run(l, evs) == x;
    RunAppend(l, evs, [ev]);
    assert Run(x, [ev]) == Step(x, ev);
  }

  /** The client, its ping timer at p within the second, writes on connecting and is heard ... */
  function HeardOnce(p: nat, q: nat, jitter: nat): Link {
    Link(999, jitter, q, 0, 0, 2999 + p, Client(2, [2000 + p]), 4000 + p, [], [2999 + p], Server(Seconds(2999 + p), 0), 5000 + q, 0)
  }

  /** ... its next two messages, a ping and one just too late for the next ping, arrive together after a check ... */
  function TwoFlying(p: nat, q: nat, jitter: nat): Link {
    Link(999, jitter, q, 0, 0, 5000 + q, Client(5, [2000 + p, 4000 + p, 5000]), 6000 + p, [5999, 5999], [2999 + p],
         Server(Seconds(2999 + p), 0), 10000 + q, 0)
  }

  /** ... and the ping after that is delayed by all of the jitter. */
  function LastDelayed(p: nat, q: nat, jitter: nat): Link {
    Link(999, jitter, q, 0, 0, 8000 + p, Client(8, [2000 + p, 4000 + p, 5000, 8000 + p]), 10000 + p, [8999 + p + jitter],
         [2999 + p, 5999, 5999], Server(5, 0), 10000 + q, 0)
  }

  lemma ToHeardOnce(p: nat, q: nat, jitter: nat)
    requires p < 1000 && q < 1000
    ensures Reaches(Connected(q, 2000 + p, 999, jitter, 0, 0), HeardOnce(p, q, jitter))
  {
    var l := Connected(q, 2000 + p, 999, jitter, 0, 0);
    assert Run(l, []) == l;
    var a := Step(l, AppWrite(0));
    var b := Step(a, Advance(2999 + p));
    assert a.flying == [2999 + p] && b.now == 2999 + p;
    assert Step(b, Arrive) == HeardOnce(p, q, jitter);
    hide *;
    ReachStep(l, l, AppWrite(0));
    ReachStep(l, a, Advance(2999 + p));
    ReachStep(l, b, Arrive);
  }

  lemma ToTwoFlying(l: Link, p: nat, q: nat, jitter: nat)
    requires p < 1000 && q < 1000 && jitter + p > 1000 + q && Reaches(l, HeardOnce(p, q, jitter))
    ensures Reaches(l, TwoFlying(p, q, jitter))
  {
    var a := HeardOnce(p, q, jitter);
    var b := Step(a, Advance(4000 + p));
    var c := Step(b, PingTick(1000 - p));
    assert b == a.(now := 4000 + p);
    assert Arrival(b, 1000 - p) == 5999;
    assert c == b.(client := Client(4, [2000 + p, 4000 + p]), flying := [5999], pingTick := 6000 + p);
    var d := Step(c, Advance(5000));
    var e := Step(d, AppWrite(0));
    assert d == c.(now := 5000);
    assert Arrival(d, 0) == 5999;
    assert e == d.(client := Client(5, [2000 + p, 4000 + p, 5000]), flying := [5999, 5999]);
    var f := Step(e, Advance(5000 + q));
    assert f == e.(now := 5000 + q);
    assert Step(f, CheckTick) == TwoFlying(p, q, jitter);
    hide *;
    ReachStep(l, a, Advance(4000 + p));
    ReachStep(l, b, PingTick(1000 - p));
    ReachStep(l, c, Advance(5000));
    ReachStep(l, d, AppWrite(0));
    ReachStep(l, e, Advance(5000 + q));
    ReachStep(l, f, CheckTick);
  }

  lemma ToLastDelayed(l: Link, p: nat, q: nat, jitter: nat)
    requires p < 1000 && q < 1000 && Reaches(l, TwoFlying(p, q, jitter))
    ensures Reaches(l, LastDelayed(p, q, jitter))
  {
    var a := TwoFlying(p, q, jitter);
    var b := Step(a, Advance(5999));
    var c := Step(b, Arrive);
    var d := Step(c, Arrive);
    assert b == a.(now := 5999);
    assert c.flying == [5999] && d == b.(heard := [2999 + p, 5999, 5999], flying := [], server := Server(5, 0));
    var e := Step(d, Advance(6000 + p));
    var f := Step(e, PingTick(0));
    assert e.now == 6000 + p && f == e.(pingTick := 8000 + p);
    var g := Step(f, Advance(8000 + p));
    assert g == f.(now := 8000 + p) && Arrival(g, jitter) == 8999 + p + jitter;
    assert Step(g, PingTick(jitter)) == LastDelayed(p, q, jitter);
    hide *;
    ReachStep(l, a, Advance(5999));
    ReachStep(l, b, Arrive);
    ReachStep(l, c, Arrive);
    ReachStep(l, d, Advance(6000 + p));
    ReachStep(l, e, PingTick(0));
    ReachStep(l, f, Advance(8000 + p));
    ReachStep(l, g, PingTick(jitter));
  }

  /** The check finds five whole seconds of silence before the delayed ping arrives. */
  lemma ToEviction(l: Link, p: nat, q: nat, jitter: nat) returns (x: Link)
    requires p < 1000 && q < 1000 && jitter + p > 1000 + q && Reaches(l, LastDelayed(p, q, jitter))
    ensures Reaches(l, x) && Evictions(x) == 1
  {
    var a := LastDelayed(p, q, jitter);
    var b := if p <= q then Step(a, Advance(10000 + p)) else a;
    var c := if p <= q then Step(b, PingTick(0)) else a;
    if p <= q {
      assert b.now == 10000 + p && c.pingTick == 12000 + p;
      ReachStep(l, a, Advance(10000 + p));
      ReachStep(l, b, PingTick(0));
    }
    assert c.flying[0] == 8999 + p + jitter && c.server == a.server && c.heard == a.heard && c.checkTick == 10000 + q;
    var d := Step(c, Advance(10000 + q));
    assert d.now == 10000 + q;
    x := Step(d, CheckTick);
    ReachStep(l, c, Advance(10000 + q));
    ReachStep(l, d, CheckTick);
  }

  /** No run evicts a client whose ticks fall p ms and a server whose checks fall q ms into the second. */
  ghost predicate NeverEvicts(p: nat, q: nat, jitter: nat) {
    forall accepted: nat, connected: nat, delay: nat, clientClock: nat, serverClock: nat, evs ::
      (accepted + serverClock) % 1000 == q && (connected + clientClock) % 1000 == p ==>
        Evictions(Run(Connected(accepted, connected, delay, jitter, clientClock, serverClock), evs)) == 0
  }

  lemma RunEvicts(p: nat, q: nat, jitter: nat, accepted: nat, connected: nat, delay: nat,
                  clientClock: nat, serverClock: nat, evs: seq<Event>)
    requires (accepted + serverClock) % 1000 == q && (connected + clientClock) % 1000 == p
    requires Evictions(Run(Connected(accepted, connected, delay, jitter, clientClock, serverClock), evs)) != 0
    ensures !NeverEvicts(p, q, jitter)
  {}

  /** No run evicts a client, whatever the delay, the clocks and the times at which the two ends started, exactly if
      the jitter is at most 1000 ms, less the client's place in its second, plus the server's in its own; a jitter of
      1 ms fits them all. */
  lemma ToleratedJitter(p: nat, q: nat, jitter: nat)
    requires p < 1000 && q < 1000
    ensures NeverEvicts(p, q, jitter) <==> jitter <= 1000 + q - p
  {
    hide Run, Evictions, Connected;
    if jitter <= 1000 + q - p {
      forall accepted: nat, connected: nat, delay: nat, clientClock: nat, serverClock: nat, evs
        | (accepted + serverClock) % 1000 == q && (connected + clientClock) % 1000 == p
        ensures Evictions(Run(Connected(accepted, connected, delay, jitter, clientClock, serverClock), evs)) == 0 {
        ClientNeverEvicted(accepted, connected, delay, jitter, clientClock, serverClock, evs);
      }
    } else {
      var l := Connected(q, 2000 + p, 999, jitter, 0, 0);
      ToHeardOnce(p, q, jitter);
      ToTwoFlying(l, p, q, jitter);
      ToLastDelayed(l, p, q, jitter);
      var x := ToEviction(l, p, q, jitter);
      var evs :| Run(l, evs) == x;
      RunEvicts(p, q, jitter, q, 2000 + p, 999, 0, 0, evs);
    }
  }
}
