/** The re-arming timer loop: its waits, its queued handlers, and what Stop ends. */
module Timers {

  /** One timer: the waits outstanding on it, the handlers queued for it (true when aborted), and as history the
      calls of its function, the waits that ended by expiry, the waits started and the handlers run. */
  datatype Timer = Timer(waiting: nat, ready: seq<bool>, calls: nat, expired: nat, waits: nat, handled: nat)

  const NEW := Timer(0, [], 0, 0, 0, 0)

  function Repeat(b: bool, n: nat): (s: seq<bool>)
    ensures |s| == n && forall i :: 0 <= i < n ==> s[i] == b
  {
    seq(n, _ => b)
  }

  /** Outstanding waits end aborted; handlers already queued are out of reach. */
  function Cancelled(t: Timer): Timer {
    t.(waiting := 0, ready := t.ready + Repeat(true, t.waiting))
  }

  /** expires_from_now cancels, and async_wait starts one wait. */
  function Armed(t: Timer): Timer {
    var c := Cancelled(t);
    c.(waiting := c.waiting + 1, waits := c.waits + 1)
  }

  function Expired(t: Timer): Timer {
    t.(waiting := 0, ready := t.ready + Repeat(false, t.waiting), expired := t.expired + t.waiting)
  }

  /** The handler at the head of the queue runs: unless aborted it re-arms and then calls the function. */
  function Handled(t: Timer): Timer
    requires t.ready != []
  {
    var rest := t.(ready := t.ready[1..], handled := t.handled + 1);
    if t.ready[0] then rest else Armed(rest).(calls := rest.calls + 1)
  }

  function Stopped(ts: seq<Timer>): (r: seq<Timer>)
    ensures |r| == |ts|
  {
    seq(|ts|, i requires 0 <= i < |ts| => Cancelled(ts[i]))
  }

  datatype Event =
    | Expire(i: nat)
    | Handle(i: nat, stops: bool)   // stops: the function called, if it is called, calls Stop
    | Stop                          // from anywhere else

  function Step(ts: seq<Timer>, ev: Event): (r: seq<Timer>)
    ensures |r| == |ts|
  {
    match ev
    case Expire(i) => if i < |ts| then ts[i := Expired(ts[i])] else ts
    case Handle(i, stops) =>
      if i < |ts| && ts[i].ready != [] then
        var handled := ts[i := Handled(ts[i])];
        if stops && !ts[i].ready[0] then Stopped(handled) else handled
      else ts
    case Stop => Stopped(ts)
  }

  function Run(ts: seq<Timer>, evs: seq<Event>): (r: seq<Timer>)
    ensures |r| == |ts|
    decreases |evs|
  {
    if evs == [] then ts else Run(Step(ts, evs[0]), evs[1..])
  }

  /** The timers of a manager just after its one Run. */
  function Started(n: nat): (ts: seq<Timer>)
    ensures |ts| == n
  {
    seq(n, _ => Armed(NEW))
  }

  function Unaborted(ready: seq<bool>): nat {
    if ready == [] then 0 else (if ready[0] then 0 else 1) + Unaborted(ready[1..])
  }

  // ----- The manager -----

  class TimerItem {
    const duration: nat
    var waiting: nat
    var ready: seq<bool>
    ghost var calls: nat
    ghost var expired: nat
    ghost var waits: nat
    ghost var handled: nat

    constructor (duration: nat)
      ensures State() == NEW && this.duration == duration
    {
      this.duration := duration;
      waiting, ready, calls, expired, waits, handled := 0, [], 0, 0, 0, 0;
    }

    ghost function State(): Timer
      reads this
    {
      Timer(waiting, ready, calls, expired, waits, handled)
    }

    method Cancel()
      modifies this
      ensures State() == Cancelled(old(State()))
    {
      ready := ready + Repeat(true, waiting);
      waiting := 0;
    }
  }

  class TimerManager {
    var items: seq<TimerItem>

    ghost predicate Valid()
      reads this
    {
      forall i, j :: 0 <= i < j < |items| ==> items[i] != items[j]
    }

    ghost function States(): (ts: seq<Timer>)
      reads this, items
      ensures |ts| == |items|
    {
      seq(|items|, i requires 0 <= i < |items| reads this, items => items[i].State())
    }

    constructor ()
      ensures Valid() && items == []
    {
      items := [];
    }

    method Add(duration: nat)
      requires Valid()
      modifies this
      ensures Valid() && |items| == |old(items)| + 1 && items[..|old(items)|] == old(items)
      ensures fresh(items[|old(items)|]) && items[|old(items)|].State() == NEW && items[|old(items)|].duration == duration
    {
      var item := new TimerItem(duration);
      items := items + [item];
    }

    method Run()
      requires Valid()
      modifies items
      ensures Valid() && forall k :: 0 <= k < |items| ==> items[k].State() == Armed(old(items[k].State()))
    {
      for i := 0 to |items|
        invariant forall k :: 0 <= k < i ==> items[k].State() == Armed(old(items[k].State()))
        invariant forall k :: i <= k < |items| ==> items[k].State() == old(items[k].State())
      {
        TimerLoop(items[i]);
      }
    }

    method Stop()
      requires Valid()
      modifies items
      ensures Valid() && forall k :: 0 <= k < |items| ==> items[k].State() == Cancelled(old(items[k].State()))
      ensures States() == Step(old(States()), Event.Stop)
    {
      for i := 0 to |items|
        invariant forall k :: 0 <= k < i ==> items[k].State() == Cancelled(old(items[k].State()))
        invariant forall k :: i <= k < |items| ==> items[k].State() == old(items[k].State())
      {
        items[i].Cancel();
      }
    }

    method TimerLoop(item: TimerItem)
      modifies item
      ensures item.State() == Armed(old(item.State()))
    {
      item.Cancel();
      item.waiting, item.waits := item.waiting + 1, item.waits + 1;
    }

    /** The wait's completion handler; the function it calls may call Stop. */
    method OnTimer(i: nat, funcStops: bool)
      requires Valid() && i < |items| && items[i].ready != []
      modifies items
      ensures Valid()
      ensures forall k :: 0 <= k < |items| ==>
                var handled := if k == i then Handled(old(items[k].State())) else old(items[k].State());
                items[k].State() == if funcStops && !old(items[i].ready[0]) then Cancelled(handled) else handled
      ensures States() == Step(old(States()), Handle(i, funcStops))
    {
      var item := items[i];
      var aborted := item.ready[0];
      item.ready, item.handled := item.ready[1..], item.handled + 1;
      if !aborted {
        TimerLoop(item);
        item.calls := item.calls + 1;
        if funcStops {
          Stop();
        }
      }
    }
  }

  // ----- At most one wait, and one call for each expiry -----

  ghost predicate OneWait(t: Timer) {
    && t.waiting + |t.ready| <= 1
    && t.expired == t.calls + Unaborted(t.ready)
    && t.waits == t.waiting + |t.ready| + t.handled
  }

  ghost predicate AllOneWait(ts: seq<Timer>) { forall i :: 0 <= i < |ts| ==> OneWait(ts[i]) }

  lemma OneWaitKept(t: Timer)
    requires OneWait(t)
    ensures OneWait(Cancelled(t)) && OneWait(Expired(t)) && (t.ready != [] ==> OneWait(Handled(t)))
  {
    if t.ready == [] {
      assert t.ready + Repeat(true, t.waiting) == if t.waiting == 0 then [] else [true];
      assert t.ready + Repeat(false, t.waiting) == if t.waiting == 0 then [] else [false];
    } else {
      assert t.ready + Repeat(true, 0) == t.ready == t.ready + Repeat(false, 0);
      assert t.ready[1..] == [] && [] + Repeat(true, 0) == [];
    }
  }

  lemma StepKeepsOneWait(ts: seq<Timer>, ev: Event)
    requires AllOneWait(ts)
    ensures AllOneWait(Step(ts, ev))
  {
    forall i | 0 <= i < |ts| ensures OneWait(Step(ts, ev)[i]) {
      OneWaitKept(ts[i]);
      if ts[i].ready != [] { OneWaitKept(Handled(ts[i])); }
      hide OneWait, Handled, Cancelled, Expired;
    }
  }

  lemma {:induction false} RunKeepsOneWait(ts: seq<Timer>, evs: seq<Event>)
    requires AllOneWait(ts)
    ensures AllOneWait(Run(ts, evs))
    decreases |evs|
  {
    if evs != [] {
      StepKeepsOneWait(ts, evs[0]);
      RunKeepsOneWait(Step(ts, evs[0]), evs[1..]);
    }
  }

  /** After the one Run, in every run each timer has at most one outstanding or queued wait, each unaborted expiry has
      led to exactly one call or is the one still queued, and each wait's handler has run once or is still to run. */
  lemma OneWaitAlways(n: nat, evs: seq<Event>)
    ensures AllOneWait(Run(Started(n), evs))
  {
    RunKeepsOneWait(Started(n), evs);
  }

  // ----- Unstopped timers go on for ever -----

  predicate NoStops(evs: seq<Event>) { forall ev :: ev in evs ==> !ev.Stop? && !(ev.Handle? && ev.stops) }

  /** Exactly one wait, outstanding or expired, and every expiry before it has called the function. */
  ghost predicate Steady(t: Timer) {
    t.waiting + |t.ready| == 1 && true !in t.ready && t.expired == t.calls + |t.ready|
  }

  ghost predicate AllSteady(ts: seq<Timer>) { forall i :: 0 <= i < |ts| ==> Steady(ts[i]) }

  lemma StepKeepsSteady(ts: seq<Timer>, ev: Event)
    requires AllSteady(ts) && !ev.Stop? && !(ev.Handle? && ev.stops)
    ensures AllSteady(Step(ts, ev))
  {
    forall i | 0 <= i < |ts| ensures Steady(Step(ts, ev)[i]) {
      assert Steady(ts[i]);
      if ts[i].ready != [] { assert ts[i].ready[0] in ts[i].ready; }
    }
  }

  lemma {:induction false} RunKeepsSteady(ts: seq<Timer>, evs: seq<Event>)
    requires AllSteady(ts) && NoStops(evs)
    ensures AllSteady(Run(ts, evs))
    decreases |evs|
  {
    if evs != [] {
      StepKeepsSteady(ts, evs[0]);
      RunKeepsSteady(Step(ts, evs[0]), evs[1..]);
    }
  }

  /** While nobody calls Stop, every timer always has a wait under way, and every expiry calls its function. */
  lemma AlwaysRearmed(n: nat, evs: seq<Event>)
    requires NoStops(evs)
    ensures AllSteady(Run(Started(n), evs))
  {
    RunKeepsSteady(Started(n), evs);
  }

  /** Arming a timer again, as a second Run would, replaces the outstanding wait: one wait can still call. */
  lemma ArmingReplaces(t: Timer)
    requires t.waiting <= 1
    ensures Armed(t).waiting == 1 && Unaborted(Armed(t).ready) == Unaborted(t.ready)
    ensures |Armed(t).ready| == |t.ready| + t.waiting
  {
    if t.waiting == 1 {
      assert Repeat(true, 1) == [true];
      UnabortedSnoc(t.ready, true);
    } else {
      assert t.ready + Repeat(true, 0) == t.ready;
    }
  }

  lemma {:induction false} UnabortedSnoc(ready: seq<bool>, aborted: bool)
    ensures Unaborted(ready + [aborted]) == Unaborted(ready) + if aborted then 0 else 1
  {
    if ready == [] {
      assert ready + [aborted] == [aborted];
    } else {
      UnabortedSnoc(ready[1..], aborted);
      assert (ready + [aborted])[1..] == ready[1..] + [aborted];
    }
  }

  /** k periods of timer i. */
  function Periods(i: nat, k: nat): seq<Event> {
    if k == 0 then [] else [Expire(i), Handle(i, false)] + Periods(i, k - 1)
  }

  lemma OnePeriod(ts: seq<Timer>, i: nat, evs: seq<Event>)
    requires AllSteady(ts) && i < |ts|
    ensures var x := Step(Step(ts, Expire(i)), Handle(i, false));
            && AllSteady(x) && Run(ts, [Expire(i), Handle(i, false)] + evs) == Run(x, evs)
            && x[i].calls == ts[i].calls + 1
            && forall j :: 0 <= j < |ts| && j != i ==> x[j] == ts[j]
  {
    var all := [Expire(i), Handle(i, false)] + evs;
    assert all[1..] == [Handle(i, false)] + evs && all[1..][1..] == evs;
    StepKeepsSteady(ts, Expire(i));
    StepKeepsSteady(Step(ts, Expire(i)), Handle(i, false));
  }

  /** Whatever has happened before, short of a Stop, k more periods of a timer call its function k times more and
      touch no other timer. */
  lemma {:induction false} EveryPeriodCalls(ts: seq<Timer>, i: nat, k: nat)
    requires AllSteady(ts) && i < |ts|
    ensures Run(ts, Periods(i, k))[i].calls == ts[i].calls + k
    ensures forall j :: 0 <= j < |ts| && j != i ==> Run(ts, Periods(i, k))[j] == ts[j]
    decreases k
  {
    if k != 0 {
      OnePeriod(ts, i, Periods(i, k - 1));
      EveryPeriodCalls(Step(Step(ts, Expire(i)), Handle(i, false)), i, k - 1);
    }
  }

  // ----- What Stop ends -----

  /** No wait outstanding and no unaborted handler queued. */
  predicate Dead(t: Timer) { t.waiting == 0 && false !in t.ready }

  lemma {:induction false} DeadForEver(ts: seq<Timer>, evs: seq<Event>, i: nat)
    requires i < |ts| && Dead(ts[i])
    ensures Dead(Run(ts, evs)[i]) && Run(ts, evs)[i].calls == ts[i].calls
    decreases |evs|
  {
    if evs != [] {
      DeadStays(ts, evs[0], i);
      DeadForEver(Step(ts, evs[0]), evs[1..], i);
    }
  }

  lemma DeadStays(ts: seq<Timer>, ev: Event, i: nat)
    requires i < |ts| && Dead(ts[i])
    ensures Dead(Step(ts, ev)[i]) && Step(ts, ev)[i].calls == ts[i].calls
  {
    if ts[i].ready != [] {
      assert ts[i].ready[0] in ts[i].ready;
      assert forall b :: b in ts[i].ready[1..] ==> b in ts[i].ready;
    }
  }

  /** Stop called by a timer's own function ends that timer: its function is never called again. */
  lemma StopInsideEnds(ts: seq<Timer>, i: nat, evs: seq<Event>)
    requires AllOneWait(ts) && i < |ts| && ts[i].ready == [false]
    ensures var after := Step(ts, Handle(i, true));
            after[i].calls == ts[i].calls + 1 && Run(after, evs)[i].calls == after[i].calls
  {
    DeadForEver(Step(ts, Handle(i, true)), evs, i);
  }

  /** Stop called by one timer's function ends another timer exactly when no expired handler of that is queued. */
  lemma StopInsideEndsOthers(ts: seq<Timer>, i: nat, j: nat)
    requires AllOneWait(ts) && i < |ts| && j < |ts| && i != j && ts[i].ready == [false]
    ensures (forall evs :: Run(Step(ts, Handle(i, true)), evs)[j].calls == ts[j].calls) <==> false !in ts[j].ready
  {
    var after := Step(ts, Handle(i, true));
    if false in ts[j].ready {
      assert ts[j].ready == [false] && ts[j].waiting == 0;
      var evs := [Handle(j, false)];
      assert evs[1..] == [] && after[j].ready == [false];
      assert Run(after, evs) == Step(after, evs[0]);
      assert Run(after, evs)[j].calls == ts[j].calls + 1;
    } else {
      forall evs: seq<Event> ensures Run(after, evs)[j].calls == ts[j].calls {
        DeadForEver(after, evs, j);
      }
    }
  }

  /** Stop called from elsewhere ends a timer exactly when no expired handler of it is already queued. */
  lemma StopOutsideEnds(ts: seq<Timer>, i: nat)
    requires AllOneWait(ts) && i < |ts|
    ensures (forall evs :: Run(Step(ts, Stop), evs)[i].calls == ts[i].calls) <==> false !in ts[i].ready
  {
    var after := Step(ts, Stop);
    if false in ts[i].ready {
      assert ts[i].ready == [false] && ts[i].waiting == 0;
      var evs := [Handle(i, false)];
      assert evs[1..] == [] && after[i].ready == [false];
      assert Run(after, evs) == Step(after, evs[0]);
      assert Run(after, evs)[i].calls == ts[i].calls + 1;
    } else {
      forall evs: seq<Event> ensures Run(after, evs)[i].calls == ts[i].calls {
        DeadForEver(after, evs, i);
      }
    }
  }
}
