/** The objects behind Logins: the two managers, the session objects and the thread that runs
    the jobs, changed in place and proved to follow the step system. */
module LogicThread {
  import opened Bytes
  import opened Logins
  import Timers
  import KeepAlive

  datatype User = User(uid: string)

  class UserManager {
    var users: map<string, User>

    ghost predicate Valid()
      reads this
    {
      forall uid :: uid in users ==> users[uid].uid == uid
    }

    constructor ()
      ensures Valid() && users == map[]
    {
      users := map[];
    }

    method AddUser(user: User) returns (added: bool)
      requires Valid()
      modifies this
      ensures Valid() && (added <==> user.uid !in old(users))
      ensures users == if added then old(users)[user.uid := user] else old(users)
    {
      if user.uid in users {
        return false;
      }
      users := users[user.uid := user];
      return true;
    }

    method FindUser(uid: string) returns (user: Option<User>)
      requires Valid()
      ensures user == if uid in users then Some(User(uid)) else None
    {
      if uid in users {
        return Some(users[uid]);
      }
      return None;
    }

    method DelUser(uid: string)
      requires Valid()
      modifies this
      ensures Valid() && users == old(users) - {uid}
    {
      users := users - {uid};
    }
  }

  class UserSession {
    var sessionId: u32
    var authed: bool
    var userId: string
    const timer: Timers.TimerManager

    ghost predicate Matches(x: Session)
      reads this
    {
      sessionId == x.id && authed == x.authed && userId == x.userId
    }

    constructor ()
      ensures sessionId == 0 && !authed && userId == ""
      ensures fresh(timer) && timer.Valid() && timer.items == []
    {
      sessionId, authed, userId := 0, false, "";
      timer := new Timers.TimerManager();
    }

    /** The one timer is armed, to check for life every five seconds. */
    ghost predicate Ticking()
      reads timer, timer.items
    {
      timer.Valid() && |timer.items| == 1 && timer.items[0].duration == KeepAlive.CHECK_ALIVE_TIME && timer.items[0].State() == Timers.Armed(Timers.NEW)
    }

    method Init()
      requires timer.Valid() && timer.items == []
      modifies timer
      ensures Ticking() && fresh(timer.items)
    {
      timer.Add(KeepAlive.CHECK_ALIVE_TIME);
      timer.Run();
    }
  }

  class UserSessionManager {
    var nextId: u32                           // the static counter in AddSession
    var userSessions: map<u32, UserSession>

    constructor ()
      ensures nextId == 0 && userSessions == map[]
    {
      nextId, userSessions := 0, map[];
    }

    /** std::map::insert: a session still registered under the new id keeps its place. */
    method AddSession(session: UserSession)
      modifies this, session`sessionId
      ensures nextId == session.sessionId == NextId(old(nextId)) != 0
      ensures userSessions == if nextId in old(userSessions) then old(userSessions) else old(userSessions)[nextId := session]
    {
      nextId := (nextId + 1) % TWO32;
      if nextId == 0 {
        nextId := (nextId + 1) % TWO32;
      }
      session.sessionId := nextId;
      if nextId !in userSessions {
        userSessions := userSessions[nextId := session];
      }
    }

    method DelSession(id: u32)
      modifies `userSessions
      ensures userSessions == old(userSessions) - {id}
    {
      userSessions := userSessions - {id};
    }

    /** The table's pointers are weak; alive are the sessions that some other pointer still holds. */
    method GetSession(id: u32, alive: set<UserSession>) returns (session: Option<UserSession>)
      ensures session == if id in userSessions && userSessions[id] in alive then Some(userSessions[id]) else None
    {
      if id in userSessions && userSessions[id] in alive {
        return Some(userSessions[id]);
      }
      return None;
    }
  }

  class LogicThread {
    const userManager: UserManager
    const sessionManager: UserSessionManager
    var sessions: seq<UserSession>
    var announced: nat         // how many of them OnAccept has posted
    var queue: seq<Job>
    ghost var model: Logic

    ghost predicate Valid()
      reads this, userManager, sessionManager, sessions
    {
      && userManager.Valid() && userManager.users.Keys == model.users
      && sessionManager.nextId == model.counter
      && announced == model.announced <= |sessions| == |model.sessions|
      && (forall i, j :: 0 <= i < j < |sessions| ==> sessions[i] != sessions[j])
      && (forall i :: 0 <= i < |sessions| ==> sessions[i].Matches(model.sessions[i]))
      && sessionManager.userSessions.Keys == model.byId.Keys
      && (forall id :: id in model.byId ==>
            model.byId[id] < |sessions| && sessionManager.userSessions[id] == sessions[model.byId[id]])
      && queue == model.queue
      && (forall i :: 0 <= i < |queue| ==> queue[i].s < |sessions|)
    }

    constructor ()
      ensures Valid() && model == START
      ensures fresh(userManager) && fresh(sessionManager)
    {
      userManager := new UserManager();
      sessionManager := new UserSessionManager();
      sessions, announced, queue, model := [], 0, [], START;
    }

    /** A connection is accepted: the session is made and its timer started. */
    method Accept() returns (session: UserSession)
      requires Valid()
      modifies this
      ensures Valid() && model == Step(old(model), Logins.Accept)
      ensures fresh(session) && sessions == old(sessions) + [session] && announced == old(announced)
      ensures fresh(session.timer) && session.Ticking()
    {
      session := new UserSession();
      session.Init();
      sessions := sessions + [session];
      model := Step(model, Logins.Accept);
    }

    /** The server's OnAccept posts the registration of the session accepted last. */
    method OnAccept()
      requires Valid() && announced < |sessions|
      modifies this
      ensures Valid() && model == Step(old(model), Logins.OnAccept)
      ensures sessions == old(sessions) && announced == old(announced) + 1
    {
      queue := queue + [AddJob(announced)];
      announced := announced + 1;
      model := Step(model, Logins.OnAccept);
    }

    /** The acceptor's handler, if nothing happens meanwhile on the io threads: the registration is posted before
        the session reads, so before anything it can dispatch. */
    method DoAccept() returns (session: UserSession)
      requires Valid() && announced == |sessions|
      modifies this
      ensures Valid() && model == Step(Step(old(model), Logins.Accept), Logins.OnAccept)
      ensures sessions == old(sessions) + [session] && announced == |sessions|
      ensures fresh(session) && fresh(session.timer) && session.Ticking()
    {
      session := Accept();
      OnAccept();
    }

    /** An io thread dispatches a login request of session s. */
    method DispatchLogin(s: nat, kind: LoginType, uid: string)
      requires Valid() && s < announced
      modifies this
      ensures Valid() && model == Step(old(model), PostLogin(s, kind, uid)) && sessions == old(sessions)
    {
      queue := queue + [LoginJob(s, kind, uid)];
      model := Step(model, PostLogin(s, kind, uid));
    }

    /** An io thread closes session s: its timer stops, and the job that takes it off the tables is posted. */
    method OnClose(s: nat)
      requires Valid() && s < |sessions| && sessions[s].timer.Valid()
      modifies this, sessions[s].timer.items
      ensures Valid() && model == Step(old(model), PostClose(s)) && sessions == old(sessions)
      ensures forall k :: 0 <= k < |sessions[s].timer.items| ==>
                sessions[s].timer.items[k].State() == Timers.Cancelled(old(sessions[s].timer.items[k].State()))
    {
      sessions[s].timer.Stop();
      queue := queue + [CloseJob(s)];
      model := Step(model, PostClose(s));
    }

    /** The reply is what the handler sends back to the session. */
    method LoginReqHandle(session: UserSession, kind: LoginType, uid: string) returns (reply: LoginRes)
      requires userManager.Valid()
      modifies userManager, session
      ensures userManager.Valid()
      ensures reply == if kind == Normal && uid in old(userManager.users) then Logined else Success
      ensures userManager.users == if reply == Success && kind == Normal then old(userManager.users)[uid := User(uid)] else old(userManager.users)
      ensures session.sessionId == old(session.sessionId)
      ensures session.authed == (reply == Success || old(session.authed))
      ensures session.userId == if reply == Success then uid else old(session.userId)
    {
      if kind == Normal {
        var user := userManager.FindUser(uid);
        if user.Some? {
          return Logined;
        }
        var _ := userManager.AddUser(User(uid));
      }
      session.userId := uid;
      session.authed := true;
      return Success;
    }

    ghost predicate AtHead(job: Job)
      reads this
    {
      queue != [] && queue[0] == job && job.s < |sessions|
    }

    /** The job that the server's OnAccept posted. */
    method RunAdd(s: nat)
      requires Valid() && AtHead(AddJob(s))
      modifies this, sessionManager, sessions[s]
      ensures Valid() && model == Step(old(model), RunJob) && sessions == old(sessions)
    {
      hide NextId;
      var session := sessions[s];
      ghost var byId := sessionManager.userSessions;
      sessionManager.AddSession(session);
      KeysAfterPut(byId, session.sessionId, session);
      queue := queue[1..];
      model := Step(model, RunJob);
    }

    /** A login request dispatched to the logic queue. */
    method RunLogin(s: nat, kind: LoginType, uid: string) returns (reply: LoginRes)
      requires Valid() && AtHead(LoginJob(s, kind, uid))
      modifies this, userManager, sessions[s]
      ensures Valid() && model == Step(old(model), RunJob) && sessions == old(sessions)
      ensures reply == LoginResult(old(model), kind, uid)
    {
      ghost var users := userManager.users;
      reply := LoginReqHandle(sessions[s], kind, uid);
      KeysAfterPut(users, uid, User(uid));
      queue := queue[1..];
      model := Step(model, RunJob);
    }

    /** The job that the session's OnClose posted. */
    method RunClose(s: nat)
      requires Valid() && AtHead(CloseJob(s))
      modifies this, userManager, sessionManager
      ensures Valid() && model == Step(old(model), RunJob) && sessions == old(sessions)
    {
      ghost var users, byId := userManager.users, sessionManager.userSessions;
      var session := sessions[s];
      userManager.DelUser(session.userId);
      sessionManager.DelSession(session.sessionId);
      KeysAfterDrop(users, session.userId);
      KeysAfterDrop(byId, session.sessionId);
      queue := queue[1..];
      model := Step(model, RunJob);
    }

    /** The logic thread runs the job at the head of its queue. */
    method RunNextJob() returns (reply: Option<LoginRes>)
      requires Valid() && queue != []
      modifies this, userManager, sessionManager, sessions[queue[0].s]
      ensures Valid() && model == Step(old(model), RunJob) && sessions == old(sessions)
      ensures reply == match old(queue[0]) case LoginJob(_, kind, uid) => Some(LoginResult(old(model), kind, uid)) case _ => None
    {
      hide Step;
      reply := None;
      match queue[0] {
        case AddJob(s) => RunAdd(s);
        case LoginJob(s, kind, uid) =>
          var r := RunLogin(s, kind, uid);
          reply := Some(r);
        case CloseJob(s) => RunClose(s);
      }
    }
  }

  lemma KeysAfterPut<K, V>(m: map<K, V>, k: K, v: V)
    ensures m[k := v].Keys == m.Keys + {k}
    ensures k in m ==> m.Keys + {k} == m.Keys
  {}

  lemma KeysAfterDrop<K, V>(m: map<K, V>, k: K)
    ensures (m - {k}).Keys == m.Keys - {k}
  {}
}
