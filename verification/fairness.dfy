/** Whole runs of the scheduler: fairness while nobody sleeps, permits and waking order of semaphores. */
module Fairness {
  import opened Scheduling

  // ---- runs ----

  /** The state after the events; one that is not allowed does nothing. */
  ghost function Run(s: State, events: seq<Event>): (r: State)
    requires Sane(s)
    ensures Sane(r)
  {
    if events == [] then s
    else
      var n := |events| - 1;
      var p := Run(s, events[..n]);
      if Allowed(p, events[n]) then
        StepKeepsSane(p, events[n]);
        Step(p, events[n])
      else p
  }

  // ---- fairness ----

  const BOUND: int := 12

  /** How much runtime the running task can still collect before it is flagged. */
  function Charge(s: State): int
    requires s.now < |s.tasks|
  {
    var left := if s.slice > 1 then s.slice else 1;
    if s.tasks[s.now].priority == 0 || s.tasks[s.now].priority == 1 then left else (left + 1) / 2 * 2
  }

  ghost predicate Close(s: State) {
    forall a: nat, b: nat :: InPool(s, a) && InPool(s, b) ==> s.tasks[a].vrun <= s.tasks[b].vrun + BOUND
  }

  /** Nobody in the pool is far from anybody else, and the running task will not get far ahead. */
  ghost predicate Fair(s: State) {
    && Sane(s) && Close(s) && s.slice <= BOUND
    && (forall t: nat :: InPool(s, t) ==> s.tasks[s.now].vrun + Charge(s) <= s.tasks[t].vrun + BOUND)
  }

  lemma SliceIsShort(priority: int, count: int)
    requires count > 0
    ensures 0 <= SliceFor(priority, count) <= BOUND
  {
    assert 4 / count <= 4;
  }

  lemma ScheduledSlice(s: State)
    requires Core(s) && s.slice <= BOUND
    ensures Scheduled(s).slice <= BOUND
  {
    hide Insert, Sorted, Core;
    CoreFacts(s);
    var u := Unflagged(s);
    UnflaggedIsCore(s);
    TakenIsCore(u);
    var t := Next(u);
    var v := Taken(u);
    CoreFacts(v);
    InsertFacts(v, v.now);
    InsertFacts(v, t);
    if Gives(v, t) {
      SliceIsShort(v.tasks[t].priority, (if v.tasks[v.now].running then Insert(v, v.now) else v).count);
    } else {
      SliceIsShort(v.tasks[t].priority, Insert(v, t).count);
    }
  }

  /** `schedule` makes a close state fair, whatever is left of the slice. */
  lemma ScheduleIsFair(s: State)
    requires Sane(s) && Close(s) && s.slice <= BOUND
    ensures Fair(Scheduled(s))
  {
    hide Sane, Scheduled, Insert;
    SaneIsCore(s);
    SaneAfterSchedule(s);
    ScheduleRunsLeast(s);
    ScheduledMoves(s);
    ScheduledSlice(s);
  }

  lemma SaneIsCore(s: State)
    requires Sane(s)
    ensures Core(s) && s.now < |s.tasks| && s.tasks[s.now].running && s.now !in s.queue
  {
    NowIsNotQueued(s);
  }

  lemma TickIsFair(s: State)
    requires Fair(s) && Allowed(s, Tick)
    ensures Fair(Step(s, Tick))
  {
    hide Sane, Scheduled;
    SaneIsCore(s);
    var u := Charged(s);
    SaneAfterCharge(s);
    assert forall t: nat :: InPool(u, t) <==> InPool(s, t);
    assert Close(u);
    if u.tasks[u.now].flagged {
      ScheduleIsFair(u);
    } else {
      assert Charge(u) + u.tasks[u.now].vrun <= Charge(s) + s.tasks[s.now].vrun;
    }
  }

  lemma ForkIsFair(s: State)
    requires Fair(s)
    ensures Fair(Step(s, Fork))
  {
    hide Sane, Core, Insert;
    SaneIsCore(s);
    CoreFacts(s);
    SaneAfterFork(s);
    var n := |s.tasks|;
    var u := s.(tasks := s.tasks + [s.tasks[s.now].(priority := 2, running := true)]);
    SameTimesSameCore(s, u);
    QueueMembers(u, n);
    var r := Forked(s);
    assert n in r.queue;
    assert forall t: nat :: InPool(r, t) ==> t == n || InPool(s, t);
    assert r.tasks[n].vrun == s.tasks[s.now].vrun;
    assert InPool(s, s.now);
  }

  ghost predicate AllAwake(s: State) {
    forall k :: 0 <= k < |s.sems| ==> s.sems[k].waiters == []
  }

  /** Nobody sleeps on a semaphore, at any time of the run. Calls that find a permit are part of it. */
  ghost predicate NobodySleeps(s: State, events: seq<Event>)
    requires Sane(s)
  {
    AllAwake(Run(s, events)) && (events != [] ==> NobodySleeps(s, events[..|events| - 1]))
  }

  /** A semaphore call before and after which nobody sleeps changes no task. */
  lemma CallIsFair(s: State, e: Event)
    requires Fair(s) && Allowed(s, e) && (e.Down? || e.Up?) && AllAwake(s) && AllAwake(Step(s, e))
    ensures Fair(Step(s, e))
  {
    hide Scheduled, Place, Core, Waiting, Others, Me;
    if e.Down? {
      var r := DownMoves(s, e.sem);
      assert r.sems[e.sem].waiters == [];
      SameTimesSamePool(s, r);
    } else {
      var r := UpMoves(s, e.sem);
      SameTimesSamePool(s, r);
    }
  }

  lemma SameTimesSamePool(s: State, r: State)
    requires Fair(s) && Sane(r) && r == s.(sems := r.sems)
    ensures Fair(r)
  {
    hide Sane;
    assert forall t: nat :: InPool(r, t) <==> InPool(s, t);
  }

  lemma {:induction false} RunsStayFair(s: State, events: seq<Event>)
    requires Fair(s) && NobodySleeps(s, events)
    ensures Fair(Run(s, events))
  {
    if events != [] {
      var n := |events| - 1;
      RunsStayFair(s, events[..n]);
      AwakeBefore(s, events);
      hide Fair, Sane, Step, Scheduled, Allowed, NobodySleeps, AllAwake;
      var p := Run(s, events[..n]);
      if Allowed(p, events[n]) {
        match events[n]
        case Tick => TickIsFair(p);
        case Fork => ForkIsFair(p);
        case Reschedule => FairFacts(p); ScheduleIsFair(p);
        case Down(k) => CallIsFair(p, events[n]);
        case Up(k) => CallIsFair(p, events[n]);
      }
    }
  }

  lemma AwakeBefore(s: State, events: seq<Event>)
    requires Sane(s) && NobodySleeps(s, events) && events != []
    ensures AllAwake(Run(s, events)) && AllAwake(Run(s, events[..|events| - 1]))
  {
    hide Sane, AllAwake, Run;
  }

  lemma FairFacts(s: State)
    requires Fair(s)
    ensures Sane(s) && Close(s) && s.slice <= BOUND
  {
  }

  ghost function FromStart(counters: seq<nat>, events: seq<Event>): (s: State)
    ensures Sane(s)
  {
    StartIsSane(counters);
    Run(Start(counters), events)
  }

  lemma StepKeepsSems(s: State, e: Event)
    requires Sane(s) && (e.Tick? || e.Reschedule? || e.Fork?)
    ensures Step(s, e).sems == s.sems
  {
    hide Sane, Scheduled, Place;
    SaneIsCore(s);
    ScheduledMoves(s);
    ChargedIsCore(s);
    ScheduledMoves(Charged(s));
  }

  lemma AllAreReady(s: State, t: nat)
    requires Sane(s) && 0 < t < |s.tasks| && AllAwake(s)
    ensures InPool(s, t)
  {
    NobodyWaits(s.sems);
    OthersMembers(|s.tasks|, t);
    assert Ready(s) == Others(|s.tasks|);
    assert Ready(s)[t] == multiset(s.queue)[t] + Me(s.now)[t];
  }

  ghost predicate AwakeFromStart(counters: seq<nat>, events: seq<Event>) {
    StartIsSane(counters);
    NobodySleeps(Start(counters), events)
  }

  /** In every run in which nobody sleeps, no two tasks other than `init` are ever more than 12 apart: each
      of them is running or queued. */
  lemma RunsAreFair(counters: seq<nat>, events: seq<Event>)
    requires AwakeFromStart(counters, events)
    ensures var s := FromStart(counters, events);
            forall a: nat, b: nat :: 0 < a < |s.tasks| && 0 < b < |s.tasks| ==>
              s.tasks[a].vrun <= s.tasks[b].vrun + BOUND
  {
    StartIsSane(counters);
    StartIsFair(counters);
    RunsStayFair(Start(counters), events);
    AllAreClose(FromStart(counters, events));
  }

  lemma AllAreClose(s: State)
    requires Fair(s) && AllAwake(s)
    ensures forall a: nat, b: nat :: 0 < a < |s.tasks| && 0 < b < |s.tasks| ==>
            s.tasks[a].vrun <= s.tasks[b].vrun + BOUND
  {
    forall a: nat, b: nat | 0 < a < |s.tasks| && 0 < b < |s.tasks|
      ensures s.tasks[a].vrun <= s.tasks[b].vrun + BOUND
    {
      AllAreReady(s, a);
      AllAreReady(s, b);
    }
  }

  lemma StartIsFair(counters: seq<nat>)
    ensures Fair(Start(counters))
  {
    StartIsSane(counters);
  }

  /** `init` forks, two ticks later its child takes over with a slice of 12, forks, and runs for six
      ticks: the grandchild is then 12 behind. */
  lemma TwelveIsReached()
    ensures var s := FromStart([], [Fork, Tick, Tick, Fork, Tick, Tick, Tick, Tick, Tick, Tick]);
            |s.tasks| == 3 && s.tasks[1].vrun == s.tasks[2].vrun + BOUND
  {
    hide Run, Step, Sane, Start, Opening, Middle, Normal;
    StartIsSane([]);
    var s, e0: seq<Event> := Start([]), [];
    RunNothing(s);
    FirstFork();
    var e1 := OneMore(s, e0, Fork);
    FirstTick();
    var e2 := OneMore(s, e1, Tick);
    SecondTick();
    var e3 := OneMore(s, e2, Tick);
    SecondFork();
    var e4 := OneMore(s, e3, Fork);
    ChildTick(0);
    var e5 := OneMore(s, e4, Tick);
    ChildTick(2);
    var e6 := OneMore(s, e5, Tick);
    ChildTick(4);
    var e7 := OneMore(s, e6, Tick);
    ChildTick(6);
    var e8 := OneMore(s, e7, Tick);
    ChildTick(8);
    var e9 := OneMore(s, e8, Tick);
    LastTick();
    var e10 := OneMore(s, e9, Tick);
    assert e10 == [Fork, Tick, Tick, Fork, Tick, Tick, Tick, Tick, Tick, Tick];
  }

  lemma RunNothing(s: State)
    requires Sane(s)
    ensures Run(s, []) == s
  {
  }

  lemma OneMore(s: State, events: seq<Event>, e: Event) returns (events': seq<Event>)
    requires Sane(s) && !e.Down? && !e.Up?
    ensures events' == events + [e]
    ensures Run(s, events') == Step(Run(s, events), e) && Sane(Run(s, events'))
  {
    events' := events + [e];
    assert events'[..|events|] == events;
  }

  function Normal(vrun: int): Task {
    Task(2, vrun, true, false)
  }

  /** `init` runs and its child is queued. */
  function Opening(vrun: int, count: int, slice: int): State {
    State([Normal(vrun), Normal(0)], [1], 0, count, slice, [])
  }

  /** The child runs and the grandchild is queued. */
  function Middle(vrun: int): State {
    State([Normal(4), Normal(vrun), Normal(0)], [2], 1, 2, BOUND - vrun, [])
  }

  lemma FirstFork()
    requires Sane(Start([]))
    ensures Step(Start([]), Fork) == Opening(0, 2, 4)
  {
    hide Sane, Waiting, Others, Scheduled, Charged, DownStep, UpStep;
    var s := Start([]);
    SaneIsCore(s);
    assert s.tasks == [Normal(0)] && s.queue == [] && s.sems == [];
    assert s.tasks + [Normal(0)] == [Normal(0), Normal(0)];
  }

  lemma FirstTick()
    requires Sane(Opening(0, 2, 4))
    ensures Step(Opening(0, 2, 4), Tick) == Opening(2, 2, 2)
  {
  }

  /** The child alone: it has just taken over, with a slice of 12. */
  function Alone(): State {
    State([Normal(4), Normal(0)], [], 1, 1, 12, [])
  }

  lemma SecondTick()
    requires Sane(Opening(2, 2, 2))
    ensures Step(Opening(2, 2, 2), Tick) == Alone()
  {
  }

  lemma SecondFork()
    requires Sane(Alone())
    ensures Step(Alone(), Fork) == Middle(0)
  {
  }

  lemma ChildTick(vrun: int)
    requires 0 <= vrun < BOUND - 2 && Sane(Middle(vrun))
    ensures Step(Middle(vrun), Tick) == Middle(vrun + 2)
  {
  }

  lemma LastTick()
    requires Sane(Middle(10))
    ensures var r := Step(Middle(10), Tick);
            |r.tasks| == 3 && r.tasks[1].vrun == 12 && r.tasks[2].vrun == 0
  {
  }

  // ---- no task is lost or doubled ----

  /** In every run each task but `init` is in exactly one place, and its state says whether it sleeps;
      `init` is never queued and never sleeps, and the counter by which slices are divided is never 0. */
  lemma EveryTaskInOnePlace(counters: seq<nat>, events: seq<Event>, t: nat)
    requires t < |FromStart(counters, events).tasks|
    ensures var s := FromStart(counters, events);
            && (t > 0 ==> multiset(s.queue)[t] + (if s.now == t then 1 else 0) + Waiting(s.sems)[t] == 1)
            && (t == 0 ==> t !in s.queue && t !in Waiting(s.sems))
            && (s.tasks[t].running <==> t !in Waiting(s.sems))
            && s.count == |s.queue| + 1
  {
    var s := FromStart(counters, events);
    OthersMembers(|s.tasks|, t);
    var everyone := Ready(s) + Waiting(s.sems);
    assert everyone[t] == multiset(s.queue)[t] + Me(s.now)[t] + Waiting(s.sems)[t];
    assert t in s.queue <==> multiset(s.queue)[t] > 0;
  }

  // ---- semaphores over whole runs ----

  /** Who went to sleep on semaphore `k`, in order. */
  ghost function Blocked(s: State, events: seq<Event>, k: nat): seq<nat>
    requires Sane(s)
  {
    if events == [] then []
    else
      var n := |events| - 1;
      var p := Run(s, events[..n]);
      Blocked(s, events[..n], k) +
      if events[n] == Down(k) && Allowed(p, events[n]) && p.sems[k].counter <= 0 then [p.now] else []
  }

  /** Who was woken from semaphore `k`, in order. */
  ghost function Woken(s: State, events: seq<Event>, k: nat): seq<nat>
    requires Sane(s)
  {
    if events == [] then []
    else
      var n := |events| - 1;
      var p := Run(s, events[..n]);
      Woken(s, events[..n], k) +
      if events[n] == Up(k) && Allowed(p, events[n]) && p.sems[k].waiters != [] then [p.sems[k].waiters[0]] else []
  }

  /** How many calls of the two kinds there were. */
  ghost function Calls(s: State, events: seq<Event>, e: Event): nat
    requires Sane(s)
  {
    if events == [] then 0
    else
      var n := |events| - 1;
      Calls(s, events[..n], e) + if events[n] == e && Allowed(Run(s, events[..n]), e) then 1 else 0
  }

  lemma StepOnSems(s: State, e: Event, k: nat)
    requires Sane(s) && Allowed(s, e) && k < |s.sems|
    ensures var sem := s.sems[k];
            && |Step(s, e).sems| == |s.sems|
            && Step(s, e).sems[k] ==
               if e == Up(k) then (if sem.waiters == [] then sem.(counter := sem.counter + 1)
                                   else sem.(waiters := sem.waiters[1..]))
               else if e == Down(k) then (if sem.counter > 0 then sem.(counter := sem.counter - 1)
                                          else sem.(waiters := sem.waiters + [s.now]))
               else sem
  {
    hide Scheduled, Place, Core;
    NowIsNotQueued(s);
    if e.Down? {
      DownOnSems(s, e.sem);
    } else if e.Up? {
      UpOnSems(s, e.sem);
    } else {
      StepKeepsSems(s, e);
    }
  }

  lemma DownOnSems(s: State, k: nat)
    requires Sane(s) && k < |s.sems|
    ensures var sem := s.sems[k];
            DownStep(s, k).sems ==
            s.sems[k := if sem.counter > 0 then sem.(counter := sem.counter - 1)
                   else sem.(waiters := sem.waiters + [s.now])]
  {
    hide Scheduled;
    var sem := s.sems[k];
    var u := s.(tasks := s.tasks[s.now := s.tasks[s.now].(running := false)],
                sems := s.sems[k := sem.(waiters := sem.waiters + [s.now])]);
    SameTimesSameCore(s, u);
    ScheduledMoves(u);
  }

  lemma UpOnSems(s: State, k: nat)
    requires Sane(s) && k < |s.sems|
    ensures var sem := s.sems[k];
            UpStep(s, k).sems ==
            s.sems[k := if sem.waiters == [] then sem.(counter := sem.counter + 1)
                   else sem.(waiters := sem.waiters[1..])]
  {
  }

  /** One event on the sequences of waiters: nothing, one more at the end, or the first one gone. */
  lemma OneEvent(first: seq<nat>, blocked: seq<nat>, woken: seq<nat>, before: seq<nat>, after: seq<nat>,
                 b: seq<nat>, w: seq<nat>)
    requires first + blocked == woken + before
    requires (w == [] && after == before + b) || (b == [] && before == w + after)
    ensures first + (blocked + b) == (woken + w) + after
  {
    assert first + (blocked + b) == (first + blocked) + b;
    if w == [] {
      assert woken + w == woken;
    } else {
      assert blocked + b == blocked;
    }
  }

  /** In every run from a sane state: tasks are woken in the order in which they went to sleep, and the
      ones still asleep are those that have waited least. */
  lemma {:induction false} WokenInOrder(s: State, events: seq<Event>, k: nat)
    requires Sane(s) && k < |s.sems|
    ensures |Run(s, events).sems| == |s.sems|
    ensures s.sems[k].waiters + Blocked(s, events, k) == Woken(s, events, k) + Run(s, events).sems[k].waiters
  {
    hide Step, Sane, Allowed, Blocked, Woken;
    if events == [] {
      NoHistory(s, k);
    } else {
      var n := |events| - 1;
      WokenInOrder(s, events[..n], k);
      var before, b, w := LastEvent(s, events, k);
      OneEvent(s.sems[k].waiters, Blocked(s, events[..n], k), Woken(s, events[..n], k), before,
               Run(s, events).sems[k].waiters, b, w);
    }
  }

  lemma NoHistory(s: State, k: nat)
    requires Sane(s)
    ensures Blocked(s, [], k) == [] && Woken(s, [], k) == []
  {
  }

  /** What the last event of a run did to the waiters of a semaphore and to the two histories. */
  lemma LastEvent(s: State, events: seq<Event>, k: nat) returns (before: seq<nat>, b: seq<nat>, w: seq<nat>)
    requires Sane(s) && k < |s.sems| && events != []
    requires |Run(s, events[..|events| - 1]).sems| == |s.sems|
    ensures |Run(s, events).sems| == |s.sems| && before == Run(s, events[..|events| - 1]).sems[k].waiters
    ensures Blocked(s, events, k) == Blocked(s, events[..|events| - 1], k) + b
    ensures Woken(s, events, k) == Woken(s, events[..|events| - 1], k) + w
    ensures var after := Run(s, events).sems[k].waiters;
            (w == [] && after == before + b) || (b == [] && before == w + after)
  {
    hide Step, Sane;
    var n := |events| - 1;
    var e, p := events[n], Run(s, events[..n]);
    before := p.sems[k].waiters;
    b := if e == Down(k) && Allowed(p, e) && p.sems[k].counter <= 0 then [p.now] else [];
    w := if e == Up(k) && Allowed(p, e) && before != [] then [before[0]] else [];
    if Allowed(p, e) {
      StepOnSems(p, e, k);
    }
  }

  /** Permits are conserved: what a semaphore holds, less who waits for it, is what it held at first,
      plus the calls of `semaphore_up`, less those of `semaphore_down`. */
  lemma {:induction false} PermitsAreConserved(s: State, events: seq<Event>, k: nat)
    requires Sane(s) && k < |s.sems|
    ensures |Run(s, events).sems| == |s.sems|
    ensures var sem := Run(s, events).sems[k];
            sem.counter - |sem.waiters| ==
            s.sems[k].counter - |s.sems[k].waiters| + Calls(s, events, Up(k)) - Calls(s, events, Down(k))
  {
    if events != [] {
      var n := |events| - 1;
      var p := Run(s, events[..n]);
      PermitsAreConserved(s, events[..n], k);
      if Allowed(p, events[n]) {
        StepOnSems(p, events[n], k);
      }
    }
  }
}
