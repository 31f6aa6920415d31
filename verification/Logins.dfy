/** Login, session registration and close on the logic thread: any number of io threads post jobs to
    one FIFO, and running those jobs is all that changes the user and session tables. */
module Logins {

  import opened Bytes

  datatype LoginType = Normal | Queued

  datatype LoginRes = Success | Logined

  datatype Job =
    | AddJob(s: nat)                                // posted by OnAccept
    | LoginJob(s: nat, kind: LoginType, uid: string) // posted by Dispatch
    | CloseJob(s: nat)                              // posted by OnClose

  /** A session object; the last two fields are history: Close was called, its job has run. */
  datatype Session = Session(id: u32, authed: bool, userId: string, closing: bool, closed: bool)

  /** What the jobs did, in order. */
  datatype Effect =
    | LoggedIn(s: nat, uid: string)   // a Normal login that succeeded
    | Adopted(s: nat, uid: string)    // a login of another type: no user is added
    | Refused(s: nat, uid: string)
    | UserDeleted(uid: string)

  datatype Logic = Logic(
    users: set<string>,        // keys of UserManager's table
    counter: u32,              // the static session_id of AddSession
    byId: map<u32, nat>,       // UserSessionManager's table
    sessions: seq<Session>,    // session objects in order of acceptance
    announced: nat,            // the first so many have been through OnAccept
    queue: seq<Job>,
    ran: seq<Job>,             // history: the jobs run
    added: nat,                // history: AddSession jobs run
    log: seq<Effect>           // history
  )

  const START := Logic({}, 0, map[], [], 0, [], [], 0, [])

  // ----- The jobs -----

  function NextId(counter: u32): u32 {
    var id := (counter + 1) % TWO32;
    if id == 0 then 1 else id
  }

  function AddSession(st: Logic, s: nat): Logic
    requires s < |st.sessions|
  {
    var id := NextId(st.counter);
    st.(counter := id, added := st.added + 1,
        sessions := st.sessions[s := st.sessions[s].(id := id)],
        byId := if id in st.byId then st.byId else st.byId[id := s])
  }

  function LoginResult(st: Logic, kind: LoginType, uid: string): LoginRes {
    if kind == Normal && uid in st.users then Logined else Success
  }

  function Login(st: Logic, s: nat, kind: LoginType, uid: string): Logic
    requires s < |st.sessions|
  {
    if LoginResult(st, kind, uid) == Logined then st.(log := st.log + [Refused(s, uid)])
    else
      st.(users := if kind == Normal then st.users + {uid} else st.users,
          sessions := st.sessions[s := st.sessions[s].(userId := uid, authed := true)],
          log := st.log + [if kind == Normal then LoggedIn(s, uid) else Adopted(s, uid)])
  }

  function CloseSession(st: Logic, s: nat): Logic
    requires s < |st.sessions|
  {
    var x := st.sessions[s];
    st.(users := st.users - {x.userId}, byId := st.byId - {x.id},
        sessions := st.sessions[s := x.(closed := true)],
        log := st.log + [UserDeleted(x.userId)])
  }

  function Exec(st: Logic, job: Job): Logic
    requires job.s < |st.sessions|
  {
    match job
    case AddJob(s) => AddSession(st, s)
    case LoginJob(s, kind, uid) => Login(st, s, kind, uid)
    case CloseJob(s) => CloseSession(st, s)
  }

  // ----- Runs -----

  datatype Event =
    | Accept                                           // a connection: the session is made, and Init starts its timer
    | OnAccept                                         // its registration is posted, and reading may start
    | PostLogin(s: nat, kind: LoginType, uid: string)
    | PostClose(s: nat)
    | RunJob

  /** A step that names no existing session, one without a registration for a login, or runs an empty queue,
      changes nothing. A timer may close a session from the moment it is made. */
  function Step(st: Logic, ev: Event): Logic {
    match ev
    case Accept =>
      st.(sessions := st.sessions + [Session(0, false, "", false, false)])
    case OnAccept =>
      if st.announced < |st.sessions| then st.(announced := st.announced + 1, queue := st.queue + [AddJob(st.announced)]) else st
    case PostLogin(s, kind, uid) =>
      if s < st.announced <= |st.sessions| then st.(queue := st.queue + [LoginJob(s, kind, uid)]) else st
    case PostClose(s) =>
      if s < |st.sessions| then
        st.(queue := st.queue + [CloseJob(s)], sessions := st.sessions[s := st.sessions[s].(closing := true)])
      else st
    case RunJob =>
      if st.queue != [] && st.queue[0].s < |st.sessions|
      then Exec(st, st.queue[0]).(queue := st.queue[1..], ran := st.ran + [st.queue[0]])
      else st
  }

  function Run(st: Logic, evs: seq<Event>): Logic
    decreases |evs|
  {
    if evs == [] then st else Run(Step(st, evs[0]), evs[1..])
  }

  lemma {:induction false} RunSnoc(st: Logic, evs: seq<Event>, k: nat)
    requires 0 < k <= |evs|
    ensures Run(st, evs[..k]) == Step(Run(st, evs[..k - 1]), evs[k - 1])
    ensures Run(st, evs[..0]) == st
    decreases k
  {
    if k > 1 {
      var next := evs[1..];
      assert evs[..k][1..] == next[..k - 1] && evs[..k - 1][1..] == next[..k - 2];
      RunSnoc(Step(st, evs[0]), next, k - 1);
    }
  }

  // ----- What is posted is what is run -----

  /** The job that an event posts. */
  function PostedBy(st: Logic, ev: Event): seq<Job> {
    match ev
    case Accept => []
    case OnAccept => if st.announced < |st.sessions| then [AddJob(st.announced)] else []
    case PostLogin(s, kind, uid) => if s < st.announced <= |st.sessions| then [LoginJob(s, kind, uid)] else []
    case PostClose(s) => if s < |st.sessions| then [CloseJob(s)] else []
    case RunJob => []
  }

  function Posted(st: Logic, evs: seq<Event>): seq<Job>
    decreases |evs|
  {
    if evs == [] then [] else PostedBy(st, evs[0]) + Posted(Step(st, evs[0]), evs[1..])
  }

  lemma StepPosts(st: Logic, ev: Event)
    ensures Step(st, ev).ran + Step(st, ev).queue == st.ran + st.queue + PostedBy(st, ev)
  {
    hide NextId;
    if ev == RunJob && st.queue != [] {
      assert st.ran + st.queue == st.ran + [st.queue[0]] + st.queue[1..];
    }
  }

  lemma {:induction false} RunPosts(st: Logic, evs: seq<Event>)
    ensures Run(st, evs).ran + Run(st, evs).queue == st.ran + st.queue + Posted(st, evs)
    decreases |evs|
  {
    if evs != [] {
      StepPosts(st, evs[0]);
      RunPosts(Step(st, evs[0]), evs[1..]);
      hide Step, PostedBy;
    }
  }

  /** In every run, the jobs run and the jobs still queued are, in order, exactly those posted. */
  lemma JobsRunInOrder(evs: seq<Event>)
    ensures Run(START, evs).ran + Run(START, evs).queue == Posted(START, evs)
  {
    RunPosts(START, evs);
  }

  function OnlyLogins(jobs: seq<Job>): seq<Job> {
    if jobs == [] then []
    else OnlyLogins(jobs[..|jobs| - 1]) + if jobs[|jobs| - 1].LoginJob? then [jobs[|jobs| - 1]] else []
  }

  /** The request that an effect answers. */
  function AnswerTo(e: Effect): seq<Job> {
    match e
    case LoggedIn(s, uid) => [LoginJob(s, Normal, uid)]
    case Refused(s, uid) => [LoginJob(s, Normal, uid)]
    case Adopted(s, uid) => [LoginJob(s, Queued, uid)]
    case UserDeleted(_) => []
  }

  function Answered(log: seq<Effect>): seq<Job> {
    if log == [] then [] else Answered(log[..|log| - 1]) + AnswerTo(log[|log| - 1])
  }

  lemma AnsweredSnoc(log: seq<Effect>, e: Effect)
    ensures Answered(log + [e]) == Answered(log) + AnswerTo(e)
  {
    assert (log + [e])[..|log|] == log;
  }

  lemma OnlyLoginsSnoc(jobs: seq<Job>, job: Job)
    ensures OnlyLogins(jobs + [job]) == OnlyLogins(jobs) + if job.LoginJob? then [job] else []
  {
    assert (jobs + [job])[..|jobs|] == jobs;
  }

  lemma ExecAnswers(st: Logic, job: Job)
    requires job.s < |st.sessions|
    ensures var x, a := Exec(st, job), if job.LoginJob? then [job] else [];
            (x.log == st.log && a == []) || (|x.log| == |st.log| + 1 && x.log == st.log + [x.log[|st.log|]] && AnswerTo(x.log[|st.log|]) == a)
  {
    hide NextId;
  }

  lemma AnsweredKept(st: Logic, ev: Event)
    requires Answered(st.log) == OnlyLogins(st.ran)
    ensures Answered(Step(st, ev).log) == OnlyLogins(Step(st, ev).ran)
  {
    if ev == RunJob && st.queue != [] && st.queue[0].s < |st.sessions| {
      var job := st.queue[0];
      var x := Exec(st, job);
      assert Step(st, ev).ran == st.ran + [job] by { hide Exec; ExecKeepsRan(st, job); }
      ExecAnswers(st, job);
      OnlyLoginsSnoc(st.ran, job);
      if x.log != st.log { AnsweredSnoc(st.log, x.log[|st.log|]); }
    }
    hide Exec, Answered, OnlyLogins, AnswerTo;
  }

  lemma ExecKeepsRan(st: Logic, job: Job)
    requires job.s < |st.sessions|
    ensures Exec(st, job).ran == st.ran
  {
    hide NextId;
  }

  lemma {:induction false} AnsweredAlways(st: Logic, evs: seq<Event>)
    requires Answered(st.log) == OnlyLogins(st.ran)
    ensures Answered(Run(st, evs).log) == OnlyLogins(Run(st, evs).ran)
    decreases |evs|
  {
    if evs != [] {
      AnsweredKept(st, evs[0]);
      AnsweredAlways(Step(st, evs[0]), evs[1..]);
    }
  }

  /** Every login request that has been run has one answer, for the session, type and uid that were posted, in order. */
  lemma EveryLoginAnswered(evs: seq<Event>)
    ensures Answered(Run(START, evs).log) == OnlyLogins(Run(START, evs).ran)
  {
    AnsweredAlways(START, evs);
  }

  lemma {:induction false} PostedWas(st: Logic, evs: seq<Event>, job: Job)
    requires job in Posted(st, evs) && job.LoginJob?
    ensures exists i :: 0 <= i < |evs| && evs[i] == PostLogin(job.s, job.kind, job.uid)
    decreases |evs|
  {
    if job in PostedBy(st, evs[0]) {
      assert evs[0] == PostLogin(job.s, job.kind, job.uid);
    } else {
      PostedWas(Step(st, evs[0]), evs[1..], job);
      var i :| 0 <= i < |evs[1..]| && evs[1..][i] == PostLogin(job.s, job.kind, job.uid);
      assert evs[i + 1] == PostLogin(job.s, job.kind, job.uid);
    }
  }

  lemma {:induction false} OnlyLoginsIn(jobs: seq<Job>, job: Job)
    requires job in OnlyLogins(jobs)
    ensures job in jobs
  {
    if jobs != [] && job in OnlyLogins(jobs[..|jobs| - 1]) { OnlyLoginsIn(jobs[..|jobs| - 1], job); }
  }

  // ----- Exclusion, with no assumption on the callers -----

  /** The last effect on uid was a Normal login. */
  function Online(log: seq<Effect>, uid: string): bool {
    if log == [] then false
    else
      match log[|log| - 1]
      case LoggedIn(_, u) => u == uid || Online(log[..|log| - 1], uid)
      case UserDeleted(u) => u != uid && Online(log[..|log| - 1], uid)
      case _ => Online(log[..|log| - 1], uid)
  }

  /** Between any two successful Normal logins of one uid, the user was deleted. */
  ghost predicate Exclusive(log: seq<Effect>) {
    forall i, j :: 0 <= i < j < |log| && log[i].LoggedIn? && log[j].LoggedIn? && log[i].uid == log[j].uid ==>
      exists k :: i < k < j && log[k] == UserDeleted(log[i].uid)
  }

  /** uid is online after a login at i unless it was deleted since. */
  lemma {:induction false} OnlineSince(log: seq<Effect>, i: nat)
    requires i < |log| && log[i].LoggedIn?
    ensures Online(log, log[i].uid) || exists k :: i < k < |log| && log[k] == UserDeleted(log[i].uid)
    decreases |log|
  {
    var n := |log| - 1;
    if i < n {
      OnlineSince(log[..n], i);
      if !Online(log[..n], log[i].uid) {
        var k :| i < k < n && log[..n][k] == UserDeleted(log[i].uid);
        assert log[k] == UserDeleted(log[i].uid);
      } else if log[n] == UserDeleted(log[i].uid) {
      }
    }
  }

  ghost predicate LogInv(st: Logic) {
    && (forall uid :: uid in st.users <==> Online(st.log, uid))
    && Exclusive(st.log)
  }

  lemma ExclusiveSnoc(log: seq<Effect>, e: Effect)
    requires Exclusive(log) && (e.LoggedIn? ==> !Online(log, e.uid))
    ensures Exclusive(log + [e])
  {
    var x, n := log + [e], |log|;
    forall i, j | 0 <= i < j < |x| && x[i].LoggedIn? && x[j].LoggedIn? && x[i].uid == x[j].uid
      ensures exists k :: i < k < j && x[k] == UserDeleted(x[i].uid) {
      assert x[i] == log[i];
      if j == n {
        OnlineSince(log, i);
      } else {
        assert x[j] == log[j];
      }
      var k :| i < k < j && log[k] == UserDeleted(log[i].uid);
      assert x[k] == log[k];
    }
    hide Online;
  }

  function After(e: Effect, uid: string, was: bool): bool {
    match e
    case LoggedIn(_, u) => u == uid || was
    case UserDeleted(u) => u != uid && was
    case _ => was
  }

  lemma OnlineSnoc(log: seq<Effect>, e: Effect, uid: string)
    ensures Online(log + [e], uid) == After(e, uid, Online(log, uid))
  {
    assert (log + [e])[..|log|] == log;
  }

  /** A step appends at most one effect, and changes the user table as that effect says. */
  ghost predicate Logs(st: Logic, x: Logic, e: Effect) {
    && x.log == st.log + [e]
    && (e.LoggedIn? ==> e.uid !in st.users)
    && (forall uid :: uid in x.users <==> After(e, uid, uid in st.users))
  }

  lemma StepLogs(st: Logic, ev: Event) returns (e: Effect)
    ensures var x := Step(st, ev); (x.log == st.log && x.users == st.users) || Logs(st, x, e)
  {
    hide NextId;
    var x := Step(st, ev);
    e := if |x.log| > |st.log| then x.log[|st.log|] else UserDeleted("");
  }

  lemma LogKept(st: Logic, ev: Event)
    requires LogInv(st)
    ensures LogInv(Step(st, ev))
  {
    var x := Step(st, ev);
    var e := StepLogs(st, ev);
    hide Step, Exclusive, Online;
    if Logs(st, x, e) {
      ExclusiveSnoc(st.log, e);
      forall uid ensures uid in x.users <==> Online(x.log, uid) { OnlineSnoc(st.log, e, uid); }
    }
  }

  lemma {:induction false} LogInvAlways(st: Logic, evs: seq<Event>)
    requires LogInv(st)
    ensures LogInv(Run(st, evs))
    decreases |evs|
  {
    if evs != [] {
      LogKept(st, evs[0]);
      LogInvAlways(Step(st, evs[0]), evs[1..]);
    }
  }

  /** Whatever the clients and the io threads do, no user is logged in twice at once. */
  lemma LoginsExclusive(evs: seq<Event>)
    ensures Exclusive(Run(START, evs).log)
    ensures forall uid :: uid in Run(START, evs).users <==> Online(Run(START, evs).log, uid)
  {
    LogInvAlways(START, evs);
  }

  lemma {:induction false} OnlineAnswered(log: seq<Effect>, uid: string) returns (s: nat)
    requires Online(log, uid)
    ensures LoginJob(s, Normal, uid) in Answered(log)
  {
    var last := log[|log| - 1];
    if last.LoggedIn? && last.uid == uid {
      s := last.s;
    } else {
      s := OnlineAnswered(log[..|log| - 1], uid);
    }
  }

  /** Nobody is in the user table who did not ask for it by a Normal login. */
  lemma UsersAsked(evs: seq<Event>, uid: string)
    requires uid in Run(START, evs).users
    ensures exists i :: 0 <= i < |evs| && evs[i].PostLogin? && evs[i].kind == Normal && evs[i].uid == uid
  {
    var st := Run(START, evs);
    LoginsExclusive(evs);
    EveryLoginAnswered(evs);
    JobsRunInOrder(evs);
    hide Run, Exclusive;
    var s := OnlineAnswered(st.log, uid);
    OnlyLoginsIn(st.ran, LoginJob(s, Normal, uid));
    assert LoginJob(s, Normal, uid) in st.ran + st.queue;
    PostedWas(START, evs, LoginJob(s, Normal, uid));
  }

  // ----- Conservation: the user table against the sessions -----

  predicate Live(x: Session) { x.authed && !x.closed }

  /** The user table is exactly the users of the live sessions, one session each. */
  ghost predicate Conserved(st: Logic) {
    && (forall s :: 0 <= s < |st.sessions| && Live(st.sessions[s]) ==> st.sessions[s].userId in st.users)
    && (forall s, t :: 0 <= s < t < |st.sessions| && Live(st.sessions[s]) && Live(st.sessions[t]) ==>
          st.sessions[s].userId != st.sessions[t].userId)
    && (forall u :: u in st.users ==> exists s :: 0 <= s < |st.sessions| && Live(st.sessions[s]) && st.sessions[s].userId == u)
  }

  /** The checks the code would need before running a job. */
  predicate Guard(st: Logic, job: Job)
    requires job.s < |st.sessions|
  {
    var x := st.sessions[job.s];
    match job
    case AddJob(_) => true
    case LoginJob(_, Normal, uid) => uid in st.users || (!x.authed && !x.closed)
    case LoginJob(_, Queued, uid) => x.closed || (x.authed && x.userId == uid)
    case CloseJob(_) => Live(x) || x.userId !in st.users
  }

  lemma ConservedUpdate(st: Logic, s: nat, x: Session, users: set<string>)
    requires Conserved(st) && s < |st.sessions|
    requires Live(st.sessions[s]) ==> (Live(x) && x.userId == st.sessions[s].userId) || st.sessions[s].userId !in users
    requires Live(x) ==> x.userId in users
    requires Live(x) && !Live(st.sessions[s]) ==> x.userId !in st.users
    requires forall u :: u in users ==> u in st.users || (Live(x) && x.userId == u)
    requires forall u :: u in st.users && u !in users ==> Live(st.sessions[s]) && st.sessions[s].userId == u
    requires Live(x) && Live(st.sessions[s]) ==> x.userId == st.sessions[s].userId
    ensures Conserved(st.(sessions := st.sessions[s := x], users := users))
  {
    var y := st.(sessions := st.sessions[s := x], users := users);
    forall u | u in users
      ensures exists t :: 0 <= t < |y.sessions| && Live(y.sessions[t]) && y.sessions[t].userId == u {
      if Live(x) && x.userId == u {
        assert Live(y.sessions[s]);
      } else {
        var t :| 0 <= t < |st.sessions| && Live(st.sessions[t]) && st.sessions[t].userId == u;
        assert y.sessions[t] == st.sessions[t];
      }
    }
  }

  lemma GuardSuffices(st: Logic, job: Job)
    requires Conserved(st) && job.s < |st.sessions| && Guard(st, job)
    ensures Conserved(Exec(st, job))
  {
    var s, x, y := job.s, st.sessions[job.s], Exec(st, job);
    ConservedUpdate(st, s, y.sessions[s], y.users);
    assert st.sessions[s := y.sessions[s]] == y.sessions;
  }

  lemma GuardNeeded(st: Logic, job: Job)
    requires Conserved(st) && job.s < |st.sessions| && !Guard(st, job)
    ensures !Conserved(Exec(st, job))
  {
    var s, x, y := job.s, st.sessions[job.s], Exec(st, job);
    assert forall t :: 0 <= t < |st.sessions| && t != s ==> y.sessions[t] == st.sessions[t];
    if job.CloseJob? {
      var t :| 0 <= t < |st.sessions| && Live(st.sessions[t]) && st.sessions[t].userId == x.userId;
      assert Live(y.sessions[t]) && y.sessions[t].userId !in y.users;
    } else if Live(x) {
      assert x.userId in y.users;
      assert forall t :: 0 <= t < |y.sessions| && Live(y.sessions[t]) ==> y.sessions[t].userId != x.userId;
    } else if job.kind == Normal {
      assert job.uid in y.users;
      assert forall t :: 0 <= t < |y.sessions| && Live(y.sessions[t]) ==> y.sessions[t].userId != job.uid;
    } else if job.uid in st.users {
      var t :| 0 <= t < |st.sessions| && Live(st.sessions[t]) && st.sessions[t].userId == job.uid;
      assert t != s && Live(y.sessions[t]) && y.sessions[t].userId == y.sessions[s].userId && Live(y.sessions[s]);
    } else {
      assert Live(y.sessions[s]) && y.sessions[s].userId !in y.users;
    }
  }

  /** A job keeps the user table in step with the sessions exactly when its guard holds. */
  lemma GuardIsExact(st: Logic, job: Job)
    requires Conserved(st) && job.s < |st.sessions|
    ensures Guard(st, job) <==> Conserved(Exec(st, job))
  {
    if Guard(st, job) { GuardSuffices(st, job); } else { GuardNeeded(st, job); }
  }

  lemma SameTables(st: Logic, y: Logic)
    requires Conserved(st) && y.users == st.users && |y.sessions| >= |st.sessions|
    requires forall s :: 0 <= s < |st.sessions| ==> y.sessions[s] == st.sessions[s].(closing := y.sessions[s].closing)
    requires forall s :: |st.sessions| <= s < |y.sessions| ==> !Live(y.sessions[s])
    ensures Conserved(y)
  {
    forall u | u in y.users
      ensures exists s :: 0 <= s < |y.sessions| && Live(y.sessions[s]) && y.sessions[s].userId == u {
      var s :| 0 <= s < |st.sessions| && Live(st.sessions[s]) && st.sessions[s].userId == u;
      assert Live(y.sessions[s]);
    }
  }

  predicate RunsGuarded(st: Logic, ev: Event) {
    ev == RunJob && st.queue != [] && st.queue[0].s < |st.sessions| ==> Guard(st, st.queue[0])
  }

  lemma StepGuard(st: Logic, ev: Event)
    requires Conserved(st)
    ensures RunsGuarded(st, ev) <==> Conserved(Step(st, ev))
  {
    if ev != RunJob {
      SameTables(st, Step(st, ev));
    } else if st.queue != [] && st.queue[0].s < |st.sessions| {
      GuardIsExact(st, st.queue[0]);
      hide Exec, Guard;
    }
  }

  lemma {:induction false} GuardedPrefix(st: Logic, evs: seq<Event>, k: nat)
    requires Conserved(st) && k <= |evs|
    requires forall i :: 0 <= i < k ==> RunsGuarded(Run(st, evs[..i]), evs[i])
    ensures Conserved(Run(st, evs[..k]))
    decreases k
  {
    if k > 0 {
      GuardedPrefix(st, evs, k - 1);
      RunSnoc(st, evs, k);
      StepGuard(Run(st, evs[..k - 1]), evs[k - 1]);
    }
  }

  /** The table stays exact all through a run exactly if every job that the run executes passes its guard. */
  lemma RunIsExact(st: Logic, evs: seq<Event>)
    requires Conserved(st)
    ensures (forall k :: 0 <= k <= |evs| ==> Conserved(Run(st, evs[..k]))) <==>
            (forall k :: 0 <= k < |evs| ==> RunsGuarded(Run(st, evs[..k]), evs[k]))
  {
    hide *;
    if forall k :: 0 <= k < |evs| ==> RunsGuarded(Run(st, evs[..k]), evs[k]) {
      forall k | 0 <= k <= |evs| ensures Conserved(Run(st, evs[..k])) { GuardedPrefix(st, evs, k); }
    }
    if forall k :: 0 <= k <= |evs| ==> Conserved(Run(st, evs[..k])) {
      forall k | 0 <= k < |evs| ensures RunsGuarded(Run(st, evs[..k]), evs[k]) {
        RunSnoc(st, evs, k + 1);
        StepGuard(Run(st, evs[..k]), evs[k]);
        assert Conserved(Run(st, evs[..k])) && Conserved(Run(st, evs[..k + 1]));
      }
    }
  }

  // ----- The queue: every session is added before anything else is done with it -----

  /** The first timer tick of a session comes after its OnAccept. */
  predicate Timely(st: Logic, ev: Event) { ev.PostClose? ==> ev.s < st.announced }

  predicate AllTimely(st: Logic, evs: seq<Event>)
    decreases |evs|
  {
    evs == [] || (Timely(st, evs[0]) && AllTimely(Step(st, evs[0]), evs[1..]))
  }

  /** The AddSession jobs queued are those of sessions a, a+1, ..., n-1 in order, each before any login of its
      session and, if timely, any close. */
  predicate WellQueued(q: seq<Job>, a: nat, n: nat, timely: bool) {
    if q == [] then a == n
    else
      match q[0]
      case AddJob(s) => s == a && WellQueued(q[1..], a + 1, n, timely)
      case LoginJob(s, _, _) => s < a && WellQueued(q[1..], a, n, timely)
      case CloseJob(s) => (timely ==> s < a) && WellQueued(q[1..], a, n, timely)
  }

  lemma {:induction false} WellQueuedSnoc(q: seq<Job>, a: nat, n: nat, j: Job, timely: bool)
    requires WellQueued(q, a, n, timely)
    ensures a <= n
    ensures j.AddJob? && j.s == n ==> WellQueued(q + [j], a, n + 1, timely)
    ensures !j.AddJob? && (j.s < n || (j.CloseJob? && !timely)) ==> WellQueued(q + [j], a, n, timely)
  {
    if q == [] {
      assert q + [j] == [j];
    } else {
      WellQueuedSnoc(q[1..], if q[0].AddJob? then a + 1 else a, n, j, timely);
      assert (q + [j])[1..] == q[1..] + [j];
    }
  }

  /** The id of the n-th session added, counting from 1. */
  function NthId(n: nat): u32
    requires n > 0
  {
    (n - 1) % 0xFFFF_FFFF + 1
  }

  ghost predicate QueueInv(st: Logic, timely: bool) {
    && WellQueued(st.queue, st.added, st.announced, timely)
    && st.counter == (if st.added == 0 then 0 else NthId(st.added))
    && st.added <= st.announced <= |st.sessions|
    && (forall s :: 0 <= s < st.added ==> st.sessions[s].id == NthId(s + 1))
    && (forall s :: st.added <= s < |st.sessions| ==> st.sessions[s].id == 0)
  }

  lemma NextOfNth(n: nat)
    requires n > 0
    ensures NextId(NthId(n)) == NthId(n + 1)
  {
    var m := n - 1;
    assert n % 0xFFFF_FFFF == (m % 0xFFFF_FFFF + 1) % 0xFFFF_FFFF;
  }

  lemma QueueKept(st: Logic, ev: Event, timely: bool)
    requires QueueInv(st, timely) && (timely ==> Timely(st, ev))
    ensures QueueInv(Step(st, ev), timely)
  {
    match ev
    case Accept =>
    case OnAccept => WellQueuedSnoc(st.queue, st.added, st.announced, AddJob(st.announced), timely); hide WellQueued;
    case PostLogin(s, kind, uid) => WellQueuedSnoc(st.queue, st.added, st.announced, LoginJob(s, kind, uid), timely); hide WellQueued;
    case PostClose(s) => WellQueuedSnoc(st.queue, st.added, st.announced, CloseJob(s), timely); hide WellQueued;
    case RunJob => if st.queue != [] { JobKeepsQueue(st, timely); }
  }

  lemma JobKeepsQueue(st: Logic, timely: bool)
    requires QueueInv(st, timely) && st.queue != []
    ensures QueueInv(Step(st, RunJob), timely)
  {
    if st.added > 0 { NextOfNth(st.added); }
    HeadJob(st, timely);
    hide NthId, NextId;
    assert NextId(0) == NthId(1) by { NextOfZero(); }
  }

  /** The job at the head and what follows it. */
  lemma HeadJob(st: Logic, timely: bool)
    requires QueueInv(st, timely) && st.queue != []
    ensures var job := st.queue[0];
            match job
            case AddJob(s) => s == st.added < st.announced
            case LoginJob(s, _, _) => s < st.added
            case CloseJob(s) => timely ==> s < st.added
  {
    WellQueuedSnoc(st.queue[1..], if st.queue[0].AddJob? then st.added + 1 else st.added, st.announced, LoginJob(0, Normal, ""), timely);
  }

  lemma NextOfZero()
    ensures NextId(0) == NthId(1)
  {}

  lemma {:induction false} QueueInvAlways(st: Logic, evs: seq<Event>, timely: bool)
    requires QueueInv(st, timely) && (timely ==> AllTimely(st, evs))
    ensures QueueInv(Run(st, evs), timely)
    decreases |evs|
  {
    if evs != [] {
      QueueKept(st, evs[0], timely);
      hide QueueInv, Step;
      QueueInvAlways(Step(st, evs[0]), evs[1..], timely);
    }
  }

  /** In every run the n-th session added has the n-th id, never 0, and no other session has one yet. */
  lemma IdsAssigned(evs: seq<Event>, s: nat)
    requires s < |Run(START, evs).sessions|
    ensures var st := Run(START, evs);
            st.sessions[s].id == if s < st.added then NthId(s + 1) else 0
    ensures s < Run(START, evs).added ==> Run(START, evs).sessions[s].id != 0
    ensures Run(START, evs).added <= |Run(START, evs).sessions|
  {
    QueueInvAlways(START, evs, false);
    hide Run;
  }

  /** Two sessions are given the same id exactly if a multiple of 2^32 - 1 additions lies between them. */
  lemma IdsRepeat(evs: seq<Event>, s: nat, t: nat)
    requires s < t < Run(START, evs).added
    ensures Run(START, evs).added <= |Run(START, evs).sessions|
    ensures var xs := Run(START, evs).sessions;
            xs[s].id == xs[t].id <==> (t - s) % 0xFFFF_FFFF == 0
  {
    QueueInvAlways(START, evs, false);
    IdsAssigned(evs, s);
    IdsAssigned(evs, t);
    NthRepeats(s, t);
    hide Run, QueueInv, NthId;
  }

  lemma NthRepeats(s: nat, t: nat)
    requires s < t
    ensures NthId(s + 1) == NthId(t + 1) <==> (t - s) % 0xFFFF_FFFF == 0
  {}

  /** A login that is about to run finds its session's id assigned, in every run; and so does a close, if the
      timers are timely. */
  lemma ClosesOwnId(evs: seq<Event>)
    ensures var st := Run(START, evs);
            st.queue != [] && (st.queue[0].LoginJob? || (st.queue[0].CloseJob? && AllTimely(START, evs))) ==>
              st.queue[0].s < st.added <= |st.sessions| && st.sessions[st.queue[0].s].id == NthId(st.queue[0].s + 1)
  {
    var st, timely := Run(START, evs), AllTimely(START, evs);
    QueueInvAlways(START, evs, timely);
    if st.queue != [] { HeadJob(st, timely); }
    hide Run, AllTimely;
  }

  // ----- The session table -----

  /** The table maps exactly the ids of the sessions added and not yet deleted, each to its session. */
  ghost predicate Registered(st: Logic) {
    && st.added <= |st.sessions|
    && (forall id :: id in st.byId ==> st.byId[id] < st.added && st.sessions[st.byId[id]].id == id && !st.sessions[st.byId[id]].closed)
    && (forall s :: 0 <= s < st.added && !st.sessions[s].closed ==>
          st.sessions[s].id in st.byId && st.byId[st.sessions[s].id] == s)
  }

  /** The checks the session table would need: an open session gets a fresh id, and one that was closed before its
      registration does not; and no deletion under an id that is another session's. */
  predicate IdGuard(st: Logic, job: Job)
    requires job.s < |st.sessions|
  {
    match job
    case AddJob(s) => NextId(st.counter) in st.byId <==> st.sessions[s].closed
    case LoginJob(_, _, _) => true
    case CloseJob(s) => (s < st.added && !st.sessions[s].closed) || st.sessions[s].id !in st.byId
  }

  lemma IdGuardIsExact(st: Logic, job: Job)
    requires Registered(st) && job.s < |st.sessions| && (job.AddJob? ==> job.s == st.added)
    ensures IdGuard(st, job) <==> Registered(Exec(st, job))
  {
    match job
    case AddJob(s) => AddKeepsTable(st, s);
    case LoginJob(_, _, _) =>
    case CloseJob(s) => CloseKeepsTable(st, s);
  }

  lemma AddKeepsTable(st: Logic, s: nat)
    requires Registered(st) && s == st.added < |st.sessions|
    ensures IdGuard(st, AddJob(s)) <==> Registered(AddSession(st, s))
  {
    var y, id := AddSession(st, s), NextId(st.counter);
    hide NextId;
    assert forall t :: 0 <= t < |st.sessions| && t != s ==> y.sessions[t] == st.sessions[t];
    assert y.sessions[s] == st.sessions[s].(id := id);
    if id in st.byId {
      assert y.byId[id] != s;
    } else {
      assert y.byId[id] == s;
    }
  }

  lemma CloseKeepsTable(st: Logic, s: nat)
    requires Registered(st) && s < |st.sessions|
    ensures IdGuard(st, CloseJob(s)) <==> Registered(CloseSession(st, s))
  {
    var y, id := CloseSession(st, s), st.sessions[s].id;
    assert forall t :: 0 <= t < |st.sessions| && t != s ==> y.sessions[t] == st.sessions[t];
    if (st.sessions[s].closed || s >= st.added) && id in st.byId {
      var t := st.byId[id];
      assert t != s && !y.sessions[t].closed && y.sessions[t].id !in y.byId;
    }
  }

  const ALL_IDS := 0xFFFF_FFFF

  ghost predicate TableInv(st: Logic) {
    && QueueInv(st, true) && Registered(st)
    && (forall s :: st.added <= s < |st.sessions| ==> !st.sessions[s].closed)
  }

  lemma IdsDistinct(st: Logic, s: nat, t: nat)
    requires QueueInv(st, true) && s < t < st.added <= ALL_IDS
    ensures st.sessions[s].id != st.sessions[t].id
  {}

  lemma SmallId(n: nat)
    requires 0 < n <= ALL_IDS
    ensures NthId(n) == n
  {}

  lemma FreshId(st: Logic)
    requires QueueInv(st, true) && Registered(st) && st.added < ALL_IDS
    ensures NextId(st.counter) !in st.byId
  {
    NextOfZero();
    if st.added > 0 { NextOfNth(st.added); }
    SmallId(st.added + 1);
    forall s | 0 <= s < st.added ensures st.sessions[s].id == s + 1 { SmallId(s + 1); }
    hide NextId, NthId, WellQueued;
  }

  lemma ClosedIdGone(st: Logic, s: nat)
    requires QueueInv(st, true) && Registered(st) && st.added <= ALL_IDS && s < st.added && st.sessions[s].closed
    ensures st.sessions[s].id !in st.byId
  {
    if st.sessions[s].id in st.byId {
      var t := st.byId[st.sessions[s].id];
      IdsDistinct(st, if t < s then t else s, if t < s then s else t);
    }
  }

  lemma ClosedOnlyByClose(st: Logic, job: Job)
    requires job.s < |st.sessions|
    ensures var y := Exec(st, job);
            && |y.sessions| == |st.sessions|
            && y.added == st.added + (if job.AddJob? then 1 else 0)
            && (forall t :: 0 <= t < |st.sessions| && (t != job.s || !job.CloseJob?) ==> y.sessions[t].closed == st.sessions[t].closed)
  {
    hide NextId;
  }

  lemma PostKeepsTable(st: Logic, ev: Event)
    requires Registered(st) && ev != RunJob
    ensures Registered(Step(st, ev))
  {
    var y := Step(st, ev);
    assert forall t :: 0 <= t < |st.sessions| ==> y.sessions[t].(closing := st.sessions[t].closing) == st.sessions[t];
    hide Step;
  }

  lemma TableKept(st: Logic, ev: Event)
    requires TableInv(st) && Timely(st, ev) && Step(st, ev).added <= ALL_IDS
    ensures TableInv(Step(st, ev))
  {
    QueueKept(st, ev, true);
    hide QueueInv;
    if ev != RunJob {
      PostKeepsTable(st, ev);
    } else if st.queue != [] {
      var job := st.queue[0];
      HeadJob(st, true);
      if job.AddJob? {
        FreshId(st);
      } else if job.CloseJob? && st.sessions[job.s].closed {
        ClosedIdGone(st, job.s);
      }
      IdGuardIsExact(st, job);
      ClosedOnlyByClose(st, job);
      hide Registered, Exec;
    }
  }

  lemma {:induction false} AddedGrows(st: Logic, evs: seq<Event>)
    ensures st.added <= Run(st, evs).added
    decreases |evs|
  {
    if evs != [] { AddedGrows(Step(st, evs[0]), evs[1..]); }
  }

  lemma {:induction false} TableInvAlways(st: Logic, evs: seq<Event>)
    requires TableInv(st) && AllTimely(st, evs) && Run(st, evs).added <= ALL_IDS
    ensures TableInv(Run(st, evs))
    decreases |evs|
  {
    if evs != [] {
      AddedGrows(Step(st, evs[0]), evs[1..]);
      hide TableInv, Step;
      TableKept(st, evs[0]);
      TableInvAlways(Step(st, evs[0]), evs[1..]);
    }
  }

  /** Until the ids have all been used once, the session table is exact in every timely run, repeated closes included. */
  lemma TableExactBeforeWrap(evs: seq<Event>)
    requires AllTimely(START, evs) && Run(START, evs).added <= ALL_IDS
    ensures Registered(Run(START, evs))
  {
    TableInvAlways(START, evs);
  }

  predicate RunsIdGuarded(st: Logic, ev: Event) {
    ev == RunJob && st.queue != [] && st.queue[0].s < |st.sessions| ==> IdGuard(st, st.queue[0])
  }

  lemma StepIdGuard(st: Logic, ev: Event)
    requires QueueInv(st, false) && Registered(st)
    ensures RunsIdGuarded(st, ev) <==> Registered(Step(st, ev))
  {
    if ev != RunJob {
      PostKeepsTable(st, ev);
    } else if st.queue != [] && st.queue[0].s < |st.sessions| {
      HeadJob(st, false);
      IdGuardIsExact(st, st.queue[0]);
      hide Exec, IdGuard;
    }
  }

  lemma {:induction false} IdGuardedPrefix(evs: seq<Event>, k: nat)
    requires k <= |evs|
    requires forall i :: 0 <= i < k ==> RunsIdGuarded(Run(START, evs[..i]), evs[i])
    ensures Registered(Run(START, evs[..k]))
    decreases k
  {
    if k > 0 {
      hide Registered, RunsIdGuarded, Step;
      IdGuardedPrefix(evs, k - 1);
      RunSnoc(START, evs, k);
      QueueInvAlways(START, evs[..k - 1], false);
      StepIdGuard(Run(START, evs[..k - 1]), evs[k - 1]);
    }
  }

  /** In any run, timely or not and with any number of sessions, the session table stays exact all through exactly
      if every job that the run executes passes its check. */
  lemma TableRunIsExact(evs: seq<Event>)
    ensures (forall k :: 0 <= k <= |evs| ==> Registered(Run(START, evs[..k]))) <==>
            (forall k :: 0 <= k < |evs| ==> RunsIdGuarded(Run(START, evs[..k]), evs[k]))
  {
    hide Run, Registered, RunsIdGuarded, QueueInv, Step, WellQueued;
    if forall k :: 0 <= k < |evs| ==> RunsIdGuarded(Run(START, evs[..k]), evs[k]) {
      forall k | 0 <= k <= |evs| ensures Registered(Run(START, evs[..k])) { IdGuardedPrefix(evs, k); }
    }
    if forall k :: 0 <= k <= |evs| ==> Registered(Run(START, evs[..k])) {
      forall k | 0 <= k < |evs| ensures RunsIdGuarded(Run(START, evs[..k]), evs[k]) {
        RunSnoc(START, evs, k + 1);
        assert QueueInv(START, false) by { StartQueue(); }
        QueueInvAlways(START, evs[..k], false);
        assert Registered(Run(START, evs[..k])) && Registered(Run(START, evs[..k + 1]));
        StepIdGuard(Run(START, evs[..k]), evs[k]);
      }
    }
  }

  lemma StartQueue()
    ensures QueueInv(START, false)
  {}

  /** A timer that ticks before OnAccept: the session is registered after its close has run, and nothing more is queued
      to take it off the table. If the socket closes only after the first read has started, that read is aborted
      and no second Close follows. */
  const EARLY_TICK: seq<Event> := [Accept, PostClose(0), OnAccept, RunJob, RunJob]

  lemma EarlyTickLeaks()
    ensures var st := Run(START, EARLY_TICK);
            st.queue == [] && |st.sessions| == 1 && st.sessions[0].closed && st.byId == map[1 := 0] && !Registered(st)
    ensures !AllTimely(START, EARLY_TICK)
  {
    var e := EARLY_TICK;
    EarlyPosts();
    EarlyJobs(Step(Step(Step(START, e[0]), e[1]), e[2]));
    RunSnoc(START, e, 5);
    RunSnoc(START, e, 4);
    RunSnoc(START, e, 3);
    RunSnoc(START, e, 2);
    RunSnoc(START, e, 1);
    assert e[..5] == e;
    hide Run, Step;
  }

  lemma EarlyPosts()
    ensures var e := EARLY_TICK;
            var st := Step(Step(Step(START, e[0]), e[1]), e[2]);
            && st.queue == [CloseJob(0), AddJob(0)] && st.sessions == [Session(0, false, "", true, false)]
            && st.byId == map[] && st.counter == 0 && st.added == 0
    ensures !AllTimely(START, EARLY_TICK)
  {}

  lemma EarlyJobs(st: Logic)
    requires st.queue == [CloseJob(0), AddJob(0)] && st.sessions == [Session(0, false, "", true, false)]
    requires st.byId == map[] && st.counter == 0 && st.added == 0
    ensures var end := Step(Step(st, RunJob), RunJob);
            end.queue == [] && |end.sessions| == 1 && end.sessions[0].closed && end.byId == map[1 := 0] && !Registered(end)
  {
    var d := Step(st, RunJob);
    assert d.queue == [AddJob(0)] && d.sessions == [Session(0, false, "", true, true)] && d.byId == map[];
    assert Step(d, RunJob).byId == map[1 := 0];
  }

  // ----- Callers that keep the guards -----

  /** What the io threads and clients must do: only Normal logins with a name, on a session not yet being closed;
      one Close per session; and no second login on a session that is logged in, unless it will be refused. */
  predicate Disciplined(st: Logic, ev: Event) {
    match ev
    case Accept => true
    case OnAccept => true
    case PostLogin(s, kind, uid) => s < |st.sessions| && kind == Normal && uid != "" && !st.sessions[s].closing
    case PostClose(s) => s < |st.sessions| && !st.sessions[s].closing
    case RunJob =>
      st.queue != [] ==>
        && st.queue[0].s < |st.sessions|
        && (st.queue[0].LoginJob? && st.sessions[st.queue[0].s].authed ==> st.queue[0].uid in st.users)
  }

  predicate AllDisciplined(st: Logic, evs: seq<Event>)
    decreases |evs|
  {
    evs == [] || (Disciplined(st, evs[0]) && AllDisciplined(Step(st, evs[0]), evs[1..]))
  }

  ghost predicate Waiting(st: Logic) {
    && (forall i :: 0 <= i < |st.queue| ==> st.queue[i].s < |st.sessions|)
    && (forall i :: 0 <= i < |st.queue| && st.queue[i].LoginJob? ==>
          st.queue[i].kind == Normal && st.queue[i].uid != "" && !st.sessions[st.queue[i].s].closed
          && forall j :: 0 <= j < i ==> st.queue[j] != CloseJob(st.queue[i].s))
    && (forall i :: 0 <= i < |st.queue| && st.queue[i].CloseJob? ==>
          st.sessions[st.queue[i].s].closing && !st.sessions[st.queue[i].s].closed
          && forall j :: 0 <= j < i ==> st.queue[j] != st.queue[i])
  }

  ghost predicate Settled(st: Logic) {
    && "" !in st.users
    && (forall s :: 0 <= s < |st.sessions| ==>
          && (st.sessions[s].closed ==> st.sessions[s].closing)
          && (!st.sessions[s].authed ==> st.sessions[s].userId == "")
          && (st.sessions[s].closing && !st.sessions[s].closed ==> CloseJob(s) in st.queue))
  }

  ghost predicate CleanInv(st: Logic) { Conserved(st) && Waiting(st) && Settled(st) }

  lemma PostKeepsClean(st: Logic, ev: Event)
    requires CleanInv(st) && Disciplined(st, ev) && ev != RunJob
    ensures CleanInv(Step(st, ev))
  {
    var y := Step(st, ev);
    SameTables(st, y);
    PostKeepsWaiting(st, ev);
    PostKeepsSettled(st, ev);
    hide Settled, Waiting, Conserved, Disciplined;
  }

  lemma PostKeepsWaiting(st: Logic, ev: Event)
    requires Waiting(st) && Settled(st) && Disciplined(st, ev) && ev != RunJob
    ensures Waiting(Step(st, ev))
  {
    var y, n := Step(st, ev), |st.queue|;
    assert n <= |y.queue| <= n + 1 && forall i :: 0 <= i < n ==> y.queue[i] == st.queue[i];
    assert ev.PostClose? ==> |y.queue| == n + 1 && y.queue[n] == CloseJob(ev.s);
    assert forall s :: 0 <= s < |st.sessions| ==> y.sessions[s].closed == st.sessions[s].closed;
    assert ev.PostClose? ==> CloseJob(ev.s) !in st.queue;
    hide Step, Settled;
  }

  lemma PostKeepsSettled(st: Logic, ev: Event)
    requires Settled(st) && Disciplined(st, ev) && ev != RunJob
    ensures Settled(Step(st, ev))
  {
    var y := Step(st, ev);
    assert forall job :: job in st.queue ==> job in y.queue;
    assert ev.PostClose? ==> y.queue[|st.queue|] == CloseJob(ev.s);
  }

  lemma JobKeepsClean(st: Logic)
    requires CleanInv(st) && Disciplined(st, RunJob) && st.queue != []
    ensures CleanInv(Step(st, RunJob))
  {
    var y, job := Step(st, RunJob), st.queue[0];
    assert Guard(st, job);
    GuardSuffices(st, job);
    assert Conserved(y);
    JobKeepsWaiting(st);
    JobKeepsSettled(st);
    hide Conserved, Waiting, Settled;
  }

  lemma JobKeepsWaiting(st: Logic)
    requires Waiting(st) && Disciplined(st, RunJob) && st.queue != []
    ensures Waiting(Step(st, RunJob))
  {
    var y, job := Step(st, RunJob), st.queue[0];
    assert forall i :: 0 <= i < |y.queue| ==> y.queue[i] == st.queue[i + 1];
    assert forall s :: 0 <= s < |st.sessions| ==> y.sessions[s].closing == st.sessions[s].closing;
    assert forall s :: 0 <= s < |st.sessions| && (s != job.s || !job.CloseJob?) ==> y.sessions[s].closed == st.sessions[s].closed;
    hide Login, AddSession, CloseSession, Exec;
  }

  lemma JobKeepsSettled(st: Logic)
    requires Waiting(st) && Settled(st) && Disciplined(st, RunJob) && st.queue != []
    ensures Settled(Step(st, RunJob))
  {
    var y, job := Step(st, RunJob), st.queue[0];
    assert forall other :: other in st.queue ==> other == job || other in y.queue;
    assert forall s :: 0 <= s < |st.sessions| && s != job.s ==> y.sessions[s] == st.sessions[s];
  }

  lemma IdleRun(st: Logic)
    requires st.queue == []
    ensures Step(st, RunJob) == st
  {}

  lemma {:induction false} CleanInvAlways(st: Logic, evs: seq<Event>)
    requires CleanInv(st) && AllDisciplined(st, evs)
    ensures CleanInv(Run(st, evs))
    decreases |evs|
  {
    if evs != [] {
      hide CleanInv, Disciplined, Step;
      if evs[0] != RunJob {
        PostKeepsClean(st, evs[0]);
      } else if st.queue != [] {
        JobKeepsClean(st);
      } else {
        IdleRun(st);
      }
      CleanInvAlways(Step(st, evs[0]), evs[1..]);
    }
  }

  /** With disciplined callers, in every interleaving the user table is exactly the live sessions' users,
      and once every session has closed and the queue has drained both tables are empty. */
  lemma UsersConserved(evs: seq<Event>)
    requires AllDisciplined(START, evs)
    ensures var st := Run(START, evs);
            && Conserved(st)
            && (st.queue == [] && (forall s :: 0 <= s < |st.sessions| ==> st.sessions[s].closing) ==>
                  st.users == {} && (st.added <= ALL_IDS && AllTimely(START, evs) ==> st.byId == map[]))
  {
    var st := Run(START, evs);
    CleanInvAlways(START, evs);
    if st.queue == [] && (forall s :: 0 <= s < |st.sessions| ==> st.sessions[s].closing) {
      assert forall s :: 0 <= s < |st.sessions| ==> st.sessions[s].closed;
      if st.added <= ALL_IDS && AllTimely(START, evs) {
        TableExactBeforeWrap(evs);
        assert forall id :: id !in st.byId;
      }
    }
    hide Run;
  }

  /** Without that discipline the table can keep a user for ever: a session that logs in twice gives back only its last name. */
  const TWO_LOGINS: seq<Event> :=
    [Accept, OnAccept, PostLogin(0, Normal, "a"), PostLogin(0, Normal, "b"), PostClose(0), RunJob, RunJob, RunJob, RunJob]

  lemma SecondLoginLeaks()
    ensures var st := Run(START, TWO_LOGINS);
            st.queue == [] && |st.sessions| == 1 && st.sessions[0].closed && st.users == {"a"} && !Conserved(st)
  {
    var e := TWO_LOGINS;
    RunSnoc(START, e, 9);
    RunSnoc(START, e, 8);
    RunSnoc(START, e, 7);
    RunSnoc(START, e, 6);
    RunSnoc(START, e, 5);
    RunSnoc(START, e, 4);
    RunSnoc(START, e, 3);
    RunSnoc(START, e, 2);
    RunSnoc(START, e, 1);
    assert e[..9] == e;
    AllPosted();
    LeftBehind(Step(Step(Step(Step(Step(START, e[0]), e[1]), e[2]), e[3]), e[4]));
    hide Run, Step;
  }

  lemma AllPosted()
    ensures var e := TWO_LOGINS;
            var st := Step(Step(Step(Step(Step(START, e[0]), e[1]), e[2]), e[3]), e[4]);
            && st.users == {} && st.sessions == [Session(0, false, "", true, false)]
            && st.queue == [AddJob(0), LoginJob(0, Normal, "a"), LoginJob(0, Normal, "b"), CloseJob(0)]
  {}

  lemma LeftBehind(st: Logic)
    requires st.users == {} && st.sessions == [Session(0, false, "", true, false)]
    requires st.queue == [AddJob(0), LoginJob(0, Normal, "a"), LoginJob(0, Normal, "b"), CloseJob(0)]
    ensures var end := Step(Step(Step(Step(st, RunJob), RunJob), RunJob), RunJob);
            end.queue == [] && |end.sessions| == 1 && end.sessions[0].closed && end.users == {"a"} && !Conserved(end)
  {
    var b := Step(Step(st, RunJob), RunJob);
    var c := Step(b, RunJob);
    var d := Step(c, RunJob);
    assert b.users == {"a"} && c.users == {"a", "b"} && d.users == {"a"};
    assert "a" in d.users;
  }
}
