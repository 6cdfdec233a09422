/** The virtual-runtime scheduler with its timer tick, fork and semaphores, as steps of a state. Task 0
    is `init`, which is never queued and is what runs when the queue is empty. The class that works
    this way is in module SchedulerState. */
module Scheduling {

  /** `running` is the task state TASK_RUNNING, `flagged` the flag NEED_SCHEDULE. */
  datatype Task = Task(priority: int, vrun: int, running: bool, flagged: bool)

  datatype Semaphore = Semaphore(counter: int, waiters: seq<nat>)

  /** `count` is `running_task_count`, `slice` is `CPU_exec_task_jiffies`. */
  datatype State = State(tasks: seq<Task>, queue: seq<nat>, now: nat, count: int, slice: int, sems: seq<Semaphore>)

  // ---- what holds in every state ----

  ghost predicate Ids(s: State) {
    && s.now < |s.tasks|
    && (forall i :: 0 <= i < |s.queue| ==> 0 < s.queue[i] < |s.tasks|)
  }

  ghost predicate Sorted(tasks: seq<Task>, queue: seq<nat>)
    requires forall i :: 0 <= i < |queue| ==> queue[i] < |tasks|
  {
    forall i, j :: 0 <= i < j < |queue| ==> tasks[queue[i]].vrun <= tasks[queue[j]].vrun
  }

  /** All that `schedule` relies on. */
  ghost predicate Core(s: State) {
    Ids(s) && Sorted(s.tasks, s.queue) && s.count == |s.queue| + 1
  }

  function Waiting(sems: seq<Semaphore>): multiset<nat> {
    if sems == [] then multiset{} else multiset(sems[0].waiters) + Waiting(sems[1..])
  }

  /** A task other than `init`, wherever it is. */
  function Me(t: nat): multiset<nat> {
    if t == 0 then multiset{} else multiset{t}
  }

  function Ready(s: State): multiset<nat> {
    multiset(s.queue) + Me(s.now)
  }

  /** Each of the tasks 1 to n - 1 once. */
  function Others(n: nat): multiset<nat> {
    if n <= 1 then multiset{} else Others(n - 1) + multiset{n - 1}
  }

  /** Every task but `init` is in exactly one place: running, queued, or waiting for one semaphore; and
      its state says which. A semaphore with permits left has no waiters. */
  ghost predicate Sane(s: State) {
    && Core(s)
    && Ready(s) + Waiting(s.sems) == Others(|s.tasks|)
    && (forall t :: 0 <= t < |s.tasks| ==> (s.tasks[t].running <==> t !in Waiting(s.sems)))
    && (forall k :: 0 <= k < |s.sems| ==> s.sems[k].counter >= 0 && (s.sems[k].counter > 0 ==> s.sems[k].waiters == []))
  }

  // ---- the steps ----

  /** The place for a task of runtime `v`: before the first task that is not behind it. */
  function Place(tasks: seq<Task>, queue: seq<nat>, v: int, from: nat := 0): (i: nat)
    requires from <= |queue| && forall i :: 0 <= i < |queue| ==> queue[i] < |tasks|
    ensures from <= i <= |queue|
    ensures forall j :: from <= j < i ==> tasks[queue[j]].vrun < v
    ensures i < |queue| ==> tasks[queue[i]].vrun >= v
    decreases |queue| - from
  {
    if from < |queue| && tasks[queue[from]].vrun < v then Place(tasks, queue, v, from + 1) else from
  }

  function Insert(s: State, t: nat): State
    requires Ids(s) && t < |s.tasks|
  {
    if t == 0 then s
    else
      var i := Place(s.tasks, s.queue, s.tasks[t].vrun);
      s.(queue := s.queue[..i] + [t] + s.queue[i..], count := s.count + 1)
  }

  /** The task that `get_next_task` returns. */
  function Next(s: State): nat {
    if s.queue == [] then 0 else s.queue[0]
  }

  /** The state that `get_next_task` leaves. */
  function Taken(s: State): State {
    if s.queue == [] then s else s.(queue := s.queue[1..], count := s.count - 1)
  }

  function SliceFor(priority: int, count: int): int
    requires count > 0
  {
    if priority == 0 || priority == 1 then 4 / count else 4 / count * 3
  }

  /** A new slice only when the old one is spent exactly; one that went negative stays. */
  function Refilled(s: State, t: nat): State
    requires t < |s.tasks| && s.count > 0
  {
    if s.slice == 0 then s.(slice := SliceFor(s.tasks[t].priority, s.count)) else s
  }

  function Unflagged(s: State): State
    requires s.now < |s.tasks|
  {
    s.(tasks := s.tasks[s.now := s.tasks[s.now].(flagged := false)])
  }

  function Gives(s: State, t: nat): bool
    requires s.now < |s.tasks| && t < |s.tasks|
  {
    s.tasks[s.now].vrun >= s.tasks[t].vrun || !s.tasks[s.now].running
  }

  function Scheduled(s: State): State
    requires Core(s)
  {
    var u := Unflagged(s);
    UnflaggedIsCore(s);
    TakenIsCore(u);
    var t := Next(u);
    var v := Taken(u);
    if Gives(v, t) then
      var w := if v.tasks[v.now].running then Insert(v, v.now) else v;
      InsertKeepsCore(v, v.now);
      Refilled(w, t).(now := t)
    else
      InsertKeepsCore(v, t);
      Refilled(Insert(v, t), t)
  }

  /** The work of the timer interrupt in every hundredth of its calls. */
  function Charged(s: State): State
    requires s.now < |s.tasks|
  {
    var me := s.tasks[s.now];
    var cost := if me.priority == 0 || me.priority == 1 then 1 else 2;
    var slice := s.slice - cost;
    s.(slice := slice, tasks := s.tasks[s.now := me.(vrun := me.vrun + cost, flagged := me.flagged || slice <= 0)])
  }

  /** `do_fork`: the child starts with its parent's runtime and flags, and priority 2. */
  function Forked(s: State): State
    requires Core(s)
  {
    var child := s.tasks[s.now].(priority := 2, running := true);
    var u := s.(tasks := s.tasks + [child]);
    SameTimesSameCore(s, u);
    Insert(u, |s.tasks|)
  }

  function DownStep(s: State, k: nat): State
    requires Core(s) && k < |s.sems|
  {
    var sem := s.sems[k];
    if sem.counter > 0 then s.(sems := s.sems[k := sem.(counter := sem.counter - 1)])
    else
      var u := s.(tasks := s.tasks[s.now := s.tasks[s.now].(running := false)],
                  sems := s.sems[k := sem.(waiters := sem.waiters + [s.now])]);
      SameTimesSameCore(s, u);
      Scheduled(u)
  }

  function UpStep(s: State, k: nat): State
    requires Sane(s) && k < |s.sems|
  {
    var sem := s.sems[k];
    if sem.waiters == [] then s.(sems := s.sems[k := sem.(counter := sem.counter + 1)])
    else
      var t := sem.waiters[0];
      WaitersAreTasks(s, k, 0);
      var u := s.(tasks := s.tasks[t := s.tasks[t].(running := true)],
                  sems := s.sems[k := sem.(waiters := sem.waiters[1..])]);
      Insert(u, t)
  }

  datatype Event = Tick | Reschedule | Fork | Down(sem: nat) | Up(sem: nat)

  /** A charged tick is followed by `schedule` on the way out of the interrupt if it set the flag;
      preemption is enabled at every tick. */
  function Ticked(s: State): State
    requires Core(s) && s.now !in s.queue
  {
    var u := Charged(s);
    ChargedIsCore(s);
    if u.tasks[u.now].flagged then Scheduled(u) else u
  }

  /** `init` never sleeps. */
  ghost predicate Allowed(s: State, e: Event) {
    match e
    case Tick => true
    case Reschedule => true
    case Fork => true
    case Down(k) => k < |s.sems| && (s.now == 0 ==> s.sems[k].counter > 0)
    case Up(k) => k < |s.sems|
  }

  ghost function Step(s: State, e: Event): State
    requires Sane(s) && Allowed(s, e)
  {
    NowIsNotQueued(s);
    match e
    case Tick => Ticked(s)
    case Reschedule => Scheduled(s)
    case Fork => Forked(s)
    case Down(k) => DownStep(s, k)
    case Up(k) => UpStep(s, k)
  }

  /** What `schedule_init` and `semaphore_init` set up. */
  function Start(counters: seq<nat>): State {
    State([Task(2, 0, true, false)], [], 0, 1, 4,
          seq(|counters|, k requires 0 <= k < |counters| => Semaphore(counters[k], [])))
  }

  // ---- the invariant is kept ----

  lemma UnflaggedIsCore(s: State)
    requires Core(s)
    ensures Core(Unflagged(s))
  {
  }

  lemma TakenIsCore(s: State)
    requires Core(s)
    ensures Core(Taken(s)) && Next(s) < |s.tasks|
    ensures multiset(Taken(s).queue) + Me(Next(s)) == multiset(s.queue)
  {
    if s.queue != [] {
      assert s.queue == [s.queue[0]] + s.queue[1..];
    }
  }

  lemma SameTimesSameCore(s: State, u: State)
    requires Core(s) && u.queue == s.queue && u.now == s.now && u.count == s.count && |u.tasks| >= |s.tasks|
    requires forall t :: 0 <= t < |s.tasks| ==> u.tasks[t].vrun == s.tasks[t].vrun
    ensures Core(u)
  {
  }

  lemma InsertIsSorted(tasks: seq<Task>, queue: seq<nat>, t: nat, i: nat)
    requires t < |tasks| && (forall j :: 0 <= j < |queue| ==> queue[j] < |tasks|) && Sorted(tasks, queue)
    requires i == Place(tasks, queue, tasks[t].vrun)
    ensures var r := queue[..i] + [t] + queue[i..];
            (forall j :: 0 <= j < |r| ==> r[j] < |tasks|) && Sorted(tasks, r)
  {
    hide Sorted, Place;
    var r := queue[..i] + [t] + queue[i..];
    assert forall j :: 0 <= j < i ==> r[j] == queue[j];
    assert r[i] == t;
    assert forall j :: i < j < |r| ==> r[j] == queue[j - 1];
    SortedAround(tasks, queue, r, t, i);
  }

  lemma SortedAround(tasks: seq<Task>, queue: seq<nat>, r: seq<nat>, t: nat, i: nat)
    requires t < |tasks| && (forall j :: 0 <= j < |queue| ==> queue[j] < |tasks|) && Sorted(tasks, queue)
    requires i <= |queue| && |r| == |queue| + 1 && r[i] == t
    requires forall j :: 0 <= j < i ==> r[j] == queue[j] && tasks[queue[j]].vrun < tasks[t].vrun
    requires forall j :: i < j < |r| ==> r[j] == queue[j - 1]
    requires i < |queue| ==> tasks[queue[i]].vrun >= tasks[t].vrun
    ensures (forall j :: 0 <= j < |r| ==> r[j] < |tasks|) && Sorted(tasks, r)
  {
    forall j, l | 0 <= j < l < |r|
      ensures tasks[r[j]].vrun <= tasks[r[l]].vrun
    {
      if l > i {
        assert i < l - 1 ==> tasks[queue[i]].vrun <= tasks[queue[l - 1]].vrun;
      }
    }
  }

  /** The walk finds a place that keeps the queue sorted, and one more task is queued. */
  lemma InsertKeepsCore(s: State, t: nat)
    requires Core(s) && t < |s.tasks|
    ensures Core(Insert(s, t))
    ensures multiset(Insert(s, t).queue) == multiset(s.queue) + Me(t)
  {
    hide Place, Sorted;
    if t != 0 {
      var i := Place(s.tasks, s.queue, s.tasks[t].vrun);
      InsertIsSorted(s.tasks, s.queue, t, i);
      assert s.queue == s.queue[..i] + s.queue[i..];
      var r := s.queue[..i] + [t] + s.queue[i..];
      assert multiset(r) == multiset(s.queue[..i]) + multiset{t} + multiset(s.queue[i..]);
    }
  }

  lemma ChargedIsCore(s: State)
    requires Core(s) && s.now !in s.queue
    ensures Core(Charged(s))
  {
  }

  lemma {:induction false} OthersMembers(n: nat, t: nat)
    ensures Others(n)[t] == if 1 <= t < n then 1 else 0
  {
    if n > 1 {
      OthersMembers(n - 1, t);
    }
  }

  lemma {:induction false} WaitingHas(sems: seq<Semaphore>, k: nat)
    requires k < |sems|
    ensures multiset(sems[k].waiters) <= Waiting(sems)
  {
    if k > 0 {
      WaitingHas(sems[1..], k - 1);
    }
  }

  lemma {:induction false} WaitingChanges(sems: seq<Semaphore>, k: nat, sem: Semaphore)
    requires k < |sems|
    ensures Waiting(sems[k := sem]) + multiset(sems[k].waiters) == Waiting(sems) + multiset(sem.waiters)
  {
    var sems' := sems[k := sem];
    var head, head' := multiset(sems[0].waiters), multiset(sems'[0].waiters);
    var rest, rest' := Waiting(sems[1..]), Waiting(sems'[1..]);
    assert Waiting(sems) == head + rest && Waiting(sems') == head' + rest';
    if k == 0 {
      assert sems'[1..] == sems[1..];
      assert (head' + rest) + head == (head + rest) + head';
    } else {
      assert sems'[1..] == sems[1..][k - 1 := sem];
      WaitingChanges(sems[1..], k - 1, sem);
      var old', new' := multiset(sems[k].waiters), multiset(sem.waiters);
      assert (head + rest') + old' == head + (rest' + old') == head + (rest + new') == (head + rest) + new';
    }
  }

  lemma SameWaiters(sems: seq<Semaphore>, k: nat, sem: Semaphore)
    requires k < |sems| && sem.waiters == sems[k].waiters
    ensures Waiting(sems[k := sem]) == Waiting(sems)
  {
    WaitingChanges(sems, k, sem);
    Cancel(Waiting(sems[k := sem]), Waiting(sems), multiset(sem.waiters));
  }

  lemma WaitersAreTasks(s: State, k: nat, i: nat)
    requires Sane(s) && k < |s.sems| && i < |s.sems[k].waiters|
    ensures 0 < s.sems[k].waiters[i] < |s.tasks|
    ensures s.sems[k].waiters[i] !in s.queue && s.sems[k].waiters[i] != s.now
  {
    var t := s.sems[k].waiters[i];
    WaitingHas(s.sems, k);
    assert t in multiset(s.sems[k].waiters) && t in Waiting(s.sems);
    OthersMembers(|s.tasks|, t);
    var everyone := Ready(s) + Waiting(s.sems);
    assert everyone[t] == multiset(s.queue)[t] + Me(s.now)[t] + Waiting(s.sems)[t];
    assert t == s.now ==> Me(s.now)[t] == 1;
  }

  lemma NowIsNotQueued(s: State)
    requires Sane(s)
    ensures s.now !in s.queue && s.tasks[s.now].running
  {
    var t := s.now;
    OthersMembers(|s.tasks|, t);
    var everyone := Ready(s) + Waiting(s.sems);
    assert everyone[t] == multiset(s.queue)[t] + Me(t)[t] + Waiting(s.sems)[t];
  }

  /** What `schedule` comes to: the running task stays or the next one takes over, and who does not run
      is queued unless it sleeps. */
  lemma ScheduledShape(s: State) returns (v: State, t: nat)
    requires Core(s)
    ensures t == Next(s) < |s.tasks| && v == Taken(Unflagged(s)) && Core(v) && v.now == s.now < |v.tasks|
    ensures multiset(v.queue) + Me(t) == multiset(s.queue)
    ensures var r := Scheduled(s);
            if !v.tasks[v.now].running then r == v.(slice := r.slice, now := t) && Core(r)
            else if Gives(v, t) then r == Insert(v, v.now).(slice := r.slice, now := t) && Core(r)
            else r == Insert(v, t).(slice := r.slice) && Core(r)
  {
    hide Sorted, Core, Insert, Refilled, Me;
    CoreFacts(s);
    var u := Unflagged(s);
    UnflaggedIsCore(s);
    TakenIsCore(u);
    t, v := Next(u), Taken(u);
    InsertFacts(v, v.now);
    InsertFacts(v, t);
    CoreFacts(v);
    if Gives(v, t) {
      RefilledFacts(if v.tasks[v.now].running then Insert(v, v.now) else v, t);
    } else {
      RefilledFacts(Insert(v, t), t);
    }
  }

  /** `schedule` drops the running task from the ready ones exactly when it sleeps, loses nobody else,
      and leaves runtimes and task states alone. */
  lemma ScheduledMoves(s: State)
    requires Core(s)
    ensures var r := Scheduled(s);
            && Core(r) && r.sems == s.sems && |r.tasks| == |s.tasks|
            && (forall t :: 0 <= t < |s.tasks| ==>
                  r.tasks[t].vrun == s.tasks[t].vrun && r.tasks[t].running == s.tasks[t].running
                    && r.tasks[t].priority == s.tasks[t].priority)
            && Ready(r) + (if s.tasks[s.now].running then multiset{} else Me(s.now)) == Ready(s)
  {
    hide Sorted, Core, Insert, Me, Scheduled;
    CoreFacts(s);
    var v, t := ScheduledShape(s);
    InsertFacts(v, v.now);
    InsertFacts(v, t);
    Regroup(multiset(v.queue), Me(t), Me(s.now));
    var r := Scheduled(s);
    if !s.tasks[s.now].running {
      assert Ready(r) == multiset(v.queue) + Me(t);
    } else if Gives(v, t) {
      assert Ready(r) == multiset(v.queue) + Me(s.now) + Me(t);
    } else {
      assert Ready(r) == multiset(v.queue) + Me(t) + Me(s.now);
    }
  }

  lemma JustMe(t: nat)
    ensures t != 0 ==> Me(t) == multiset{t}
  {
  }

  lemma Regroup(a: multiset<nat>, b: multiset<nat>, c: multiset<nat>)
    ensures (a + b) + c == (a + c) + b
  {
  }

  lemma CoreFacts(s: State)
    requires Core(s)
    ensures s.now < |s.tasks| && s.count > 0
  {
  }

  lemma InsertFacts(s: State, t: nat)
    requires Core(s) && t < |s.tasks|
    ensures var r := Insert(s, t);
            Core(r) && r == s.(queue := r.queue, count := r.count) && r.count > 0
              && multiset(r.queue) == multiset(s.queue) + Me(t)
  {
    InsertKeepsCore(s, t);
  }

  lemma RefilledFacts(s: State, t: nat)
    requires Core(s) && t < |s.tasks|
    ensures var r := Refilled(s, t);
            Core(r) && r == s.(slice := r.slice) && Core(r.(now := t))
  {
  }

  lemma SaneAfterSchedule(s: State)
    requires Sane(s)
    ensures Sane(Scheduled(s))
  {
    hide Core, Scheduled, Waiting, Others;
    ScheduledMoves(s);
    NowIsNotQueued(s);
  }

  lemma SaneAfterCharge(s: State)
    requires Sane(s)
    ensures Sane(Charged(s))
  {
    NowIsNotQueued(s);
    ChargedIsCore(s);
  }

  lemma SaneAfterFork(s: State)
    requires Sane(s)
    ensures Sane(Forked(s))
  {
    hide Core, Insert, Waiting, Others, Me;
    CoreFacts(s);
    var child := s.tasks[s.now].(priority := 2, running := true);
    var u := s.(tasks := s.tasks + [child]);
    var n := |s.tasks|;
    SameTimesSameCore(s, u);
    InsertFacts(u, n);
    OneMoreOther(n);
    NotWaiting(s, n);
    assert Ready(Forked(s)) == Ready(s) + Me(n);
    Regroup(Ready(s), Me(n), Waiting(s.sems));
  }

  lemma OneMoreOther(n: nat)
    requires n > 0
    ensures Others(n + 1) == Others(n) + Me(n)
  {
  }

  lemma NotWaiting(s: State, n: nat)
    requires Sane(s) && n == |s.tasks|
    ensures n !in Waiting(s.sems)
  {
    OthersMembers(n, n);
    var everyone := Ready(s) + Waiting(s.sems);
    assert everyone[n] >= Waiting(s.sems)[n];
  }

  lemma SaneAfterDown(s: State, k: nat)
    requires Sane(s) && Allowed(s, Down(k))
    ensures Sane(DownStep(s, k))
  {
    hide Core, Scheduled, Waiting, Others;
    var sem := s.sems[k];
    CoreFacts(s);
    NowIsNotQueued(s);
    if sem.counter > 0 {
      SameWaiters(s.sems, k, sem.(counter := sem.counter - 1));
      var r := DownStep(s, k);
      SameTimesSameCore(s, r);
    } else {
      var sem' := sem.(waiters := sem.waiters + [s.now]);
      var u := s.(tasks := s.tasks[s.now := s.tasks[s.now].(running := false)], sems := s.sems[k := sem']);
      SameTimesSameCore(s, u);
      WaitingChanges(s.sems, k, sem');
      assert multiset(sem'.waiters) == multiset(sem.waiters) + Me(s.now);
      Cancel(Waiting(u.sems), Waiting(s.sems) + Me(s.now), multiset(sem.waiters));
      ScheduledMoves(u);
      assert DownStep(s, k) == Scheduled(u);
    }
  }

  lemma SaneAfterUp(s: State, k: nat)
    requires Sane(s) && Allowed(s, Up(k))
    ensures Sane(UpStep(s, k))
  {
    hide Core, Insert, Waiting, Others, Me;
    var sem := s.sems[k];
    if sem.waiters == [] {
      SameWaiters(s.sems, k, sem.(counter := sem.counter + 1));
      var r := UpStep(s, k);
      SameTimesSameCore(s, r);
    } else {
      var t := sem.waiters[0];
      WaitersAreTasks(s, k, 0);
      var sem' := sem.(waiters := sem.waiters[1..]);
      var u := s.(tasks := s.tasks[t := s.tasks[t].(running := true)], sems := s.sems[k := sem']);
      SameTimesSameCore(s, u);
      WaitingChanges(s.sems, k, sem');
      assert sem.waiters == [t] + sem'.waiters;
      JustMe(t);
      assert multiset(sem.waiters) == Me(t) + multiset(sem'.waiters);
      Cancel(Waiting(u.sems) + Me(t), Waiting(s.sems), multiset(sem'.waiters));
      InsertFacts(u, t);
      OnlyOnce(s, t);
      Woken(Waiting(s.sems), Waiting(u.sems), t);
      assert Ready(Insert(u, t)) == Ready(s) + Me(t);
      Regroup(Ready(s), Me(t), Waiting(u.sems));
    }
  }

  lemma Woken(before: multiset<nat>, after: multiset<nat>, t: nat)
    requires t != 0 && after + Me(t) == before && before[t] == 1
    ensures forall x :: x in after <==> x in before && x != t
  {
    forall x
      ensures x in after <==> x in before && x != t
    {
      assert before[x] == after[x] + Me(t)[x];
    }
  }

  /** Who moves in `semaphore_down`: nobody while permits are left; else the running task goes to the end of
      the wait list and sleeps, somebody else runs, and all others that were ready stay so. */
  lemma DownMoves(s: State, k: nat) returns (r: State)
    requires Sane(s) && Allowed(s, Down(k))
    ensures r == DownStep(s, k) && Sane(r)
    ensures s.sems[k].counter > 0 ==> r == s.(sems := s.sems[k := s.sems[k].(counter := s.sems[k].counter - 1)])
    ensures s.sems[k].counter <= 0 ==>
              && r.sems == s.sems[k := s.sems[k].(waiters := s.sems[k].waiters + [s.now])]
              && Ready(r) + Me(s.now) == Ready(s) && r.now != s.now && s.now !in r.queue
              && |r.tasks| == |s.tasks| && s.now < |r.tasks| && !r.tasks[s.now].running
  {
    hide Core, Scheduled, Waiting, Others, Me;
    SaneAfterDown(s, k);
    r := DownStep(s, k);
    CoreFacts(s);
    NowIsNotQueued(s);
    var sem := s.sems[k];
    if sem.counter <= 0 {
      var sem' := sem.(waiters := sem.waiters + [s.now]);
      var u := s.(tasks := s.tasks[s.now := s.tasks[s.now].(running := false)], sems := s.sems[k := sem']);
      SameTimesSameCore(s, u);
      ScheduledMoves(u);
      SleeperIsElsewhere(r, s.now);
    }
  }

  /** A task whose state says that it sleeps neither runs nor is queued. */
  lemma SleeperIsElsewhere(s: State, t: nat)
    requires Sane(s) && t < |s.tasks| && !s.tasks[t].running
    ensures t != s.now && t !in s.queue
  {
    var everyone := Ready(s) + Waiting(s.sems);
    OthersMembers(|s.tasks|, t);
    assert everyone[t] == multiset(s.queue)[t] + Me(s.now)[t] + Waiting(s.sems)[t];
    NowIsNotQueued(s);
  }

  /** Who moves in `semaphore_up`: nobody if nobody waits; else the first waiter, and only it, goes to the
      queue, awake. */
  lemma UpMoves(s: State, k: nat) returns (r: State)
    requires Sane(s) && Allowed(s, Up(k))
    ensures r == UpStep(s, k) && Sane(r) && r.now == s.now
    ensures s.sems[k].waiters == [] ==> r == s.(sems := s.sems[k := s.sems[k].(counter := s.sems[k].counter + 1)])
    ensures s.sems[k].waiters != [] ==>
              var t := s.sems[k].waiters[0];
              && r.sems == s.sems[k := s.sems[k].(waiters := s.sems[k].waiters[1..])]
              && multiset(r.queue) == multiset(s.queue) + multiset{t}
              && t < |s.tasks| && r.tasks == s.tasks[t := s.tasks[t].(running := true)]
  {
    hide Core, Insert, Waiting, Others;
    SaneAfterUp(s, k);
    r := UpStep(s, k);
    var sem := s.sems[k];
    if sem.waiters != [] {
      var t := sem.waiters[0];
      WaitersAreTasks(s, k, 0);
      var sem' := sem.(waiters := sem.waiters[1..]);
      var u := s.(tasks := s.tasks[t := s.tasks[t].(running := true)], sems := s.sems[k := sem']);
      SameTimesSameCore(s, u);
      InsertFacts(u, t);
      JustMe(t);
    }
  }

  lemma Cancel(a: multiset<nat>, b: multiset<nat>, c: multiset<nat>)
    requires a + c == b + c
    ensures a == b
  {
    assert (a + c) - c == a && (b + c) - c == b;
  }

  lemma OnlyOnce(s: State, t: nat)
    requires Sane(s) && t in Waiting(s.sems)
    ensures Waiting(s.sems)[t] == 1
  {
    OthersMembers(|s.tasks|, t);
    var everyone := Ready(s) + Waiting(s.sems);
    assert everyone[t] >= Waiting(s.sems)[t];
  }

  /** Every step keeps every task but `init` in exactly one place, the queue sorted, the count one more
      than the queue's length, and semaphores with permits free of waiters. */
  lemma StepKeepsSane(s: State, e: Event)
    requires Sane(s) && Allowed(s, e)
    ensures Sane(Step(s, e))
  {
    hide Core, Scheduled, Charged, Forked, DownStep, UpStep, Waiting, Others;
    CoreFacts(s);
    match e
    case Tick =>
      NowIsNotQueued(s);
      SaneAfterCharge(s);
      SaneAfterSchedule(Charged(s));
    case Reschedule => SaneAfterSchedule(s);
    case Fork => SaneAfterFork(s);
    case Down(k) => SaneAfterDown(s, k);
    case Up(k) => SaneAfterUp(s, k);
  }

  lemma StartIsSane(counters: seq<nat>)
    ensures Sane(Start(counters))
  {
    NobodyWaits(Start(counters).sems);
  }

  lemma {:induction false} NobodyWaits(sems: seq<Semaphore>)
    requires forall k :: 0 <= k < |sems| ==> sems[k].waiters == []
    ensures Waiting(sems) == multiset{}
  {
    if sems != [] {
      NobodyWaits(sems[1..]);
    }
  }

  // ---- what schedule chooses ----

  /** A task that may run next: running, queued, or `init` when the queue is empty. */
  ghost predicate InPool(s: State, t: nat) {
    t < |s.tasks| && (t == s.now || t in s.queue || (t == 0 && s.queue == []))
  }

  /** After every `schedule` no queued task is behind the running one. If the task that ran before does
      not sleep, the same holds for the whole pool, and nobody joined it. */
  lemma ScheduleRunsLeast(s: State)
    requires Core(s)
    ensures var r := Scheduled(s);
            && Core(r)
            && (forall t :: t in r.queue ==> r.tasks[r.now].vrun <= r.tasks[t].vrun)
            && (s.tasks[s.now].running ==>
                  forall t: nat :: InPool(r, t) ==> InPool(s, t) && r.tasks[r.now].vrun <= r.tasks[t].vrun)
  {
    hide Insert, Sorted, Core, Scheduled, Me;
    CoreFacts(s);
    var u := Unflagged(s);
    UnflaggedIsCore(s);
    var v, t := ScheduledShape(s);
    QueueMembers(v, v.now);
    QueueMembers(v, t);
    HeadIsLeast(u);
    var r := Scheduled(s);
    HeadIsLeast(r);
    forall x: nat | x in r.queue
      ensures r.tasks[r.now].vrun <= r.tasks[x].vrun
    {
      assert x in v.queue || x == s.now || x == t;
      assert x in v.queue ==> x in s.queue;
    }
    forall x: nat | s.tasks[s.now].running && InPool(r, x)
      ensures InPool(s, x) && r.tasks[r.now].vrun <= r.tasks[x].vrun
    {
      assert x in r.queue ==> x in v.queue || x == s.now || x == t;
      assert x in v.queue ==> x in s.queue;
      assert s.queue != [] ==> t in s.queue && t > 0;
      if Gives(v, t) {
        assert r.now == t && (s.now != 0 ==> s.now in r.queue);
      } else {
        assert r.now == s.now && (t != 0 ==> t in r.queue);
      }
    }
  }

  lemma HeadIsLeast(s: State)
    requires Core(s)
    ensures forall x :: x in s.queue ==> 0 < x < |s.tasks| && s.tasks[Next(s)].vrun <= s.tasks[x].vrun
  {
  }

  lemma QueueMembers(s: State, t: nat)
    requires Core(s) && t < |s.tasks|
    ensures Core(Insert(s, t)) && Insert(s, t).count > 0
    ensures Insert(s, t) == s.(queue := Insert(s, t).queue, count := Insert(s, t).count)
    ensures forall x :: x in Insert(s, t).queue <==> x in s.queue || (x == t && t != 0)
  {
    hide Insert;
    InsertFacts(s, t);
    assert forall x :: x in Insert(s, t).queue <==> x in multiset(Insert(s, t).queue);
  }

  /** Who runs after `schedule`. With a queue: its first task, exactly when it is not ahead of the running
      one, so that on equal times it takes over, or when the running one sleeps. With an empty queue `init`
      takes the place of the first. */
  lemma WhoRuns(s: State)
    requires Core(s)
    ensures s.queue != [] && s.tasks[s.now].running ==>
              var first := s.queue[0];
              (Scheduled(s).now == first <==> (s.now == first || s.tasks[first].vrun <= s.tasks[s.now].vrun))
    ensures s.queue != [] && !s.tasks[s.now].running ==> Scheduled(s).now == s.queue[0]
    ensures s.queue == [] ==>
              (Scheduled(s).now == 0 <==>
                 !s.tasks[s.now].running || s.tasks[0].vrun <= s.tasks[s.now].vrun || s.now == 0)
    ensures Scheduled(s).now == s.now || Scheduled(s).now == if s.queue == [] then 0 else s.queue[0]
  {
    hide Insert, Sorted, Core, Scheduled, Me;
    CoreFacts(s);
    var v, t := ScheduledShape(s);
    InsertFacts(v, v.now);
    InsertFacts(v, t);
  }

  /** Who waits after `schedule`, besides those that did before: the running task if it gave way, is awake
      and is not `init`. Nobody else comes or goes. */
  lemma WhoWaits(s: State)
    requires Core(s) && s.now !in s.queue
    ensures var r := Scheduled(s);
            r.now != s.now ==>
              multiset(r.queue) + Me(r.now) ==
              multiset(s.queue) + if s.tasks[s.now].running && s.now != 0 then multiset{s.now} else multiset{}
    ensures Scheduled(s).now == s.now ==> multiset(Scheduled(s).queue) == multiset(s.queue)
  {
    hide Insert, Sorted, Core, Scheduled;
    CoreFacts(s);
    var v, t := ScheduledShape(s);
    InsertFacts(v, v.now);
    InsertFacts(v, t);
    var r := Scheduled(s);
    if s.tasks[s.now].running {
      JustMe(s.now);
    }
  }

  /** The flag of the task that ran is cleared and no other task changes; a slice that is not spent exactly
      stays; a spent one becomes 4 ticks, or 12 units for tasks of priority 2 and more, divided among all
      that are ready, where the count includes `init` even when it does not run. */
  lemma FlagAndSlice(s: State)
    requires Core(s)
    ensures var r := Scheduled(s);
            && |r.tasks| == |s.tasks| && r.tasks[s.now] == s.tasks[s.now].(flagged := false)
            && (forall t :: 0 <= t < |s.tasks| && t != s.now ==> r.tasks[t] == s.tasks[t])
            && (s.slice != 0 ==> r.slice == s.slice)
            && (s.slice == 0 ==>
                  var next := if s.queue == [] then 0 else s.queue[0];
                  next < |s.tasks| &&
                  var share := 4 / (|r.queue| + 1);
                  r.slice == if s.tasks[next].priority == 0 || s.tasks[next].priority == 1 then share else share * 3)
  {
    hide Insert, Sorted, Core, Me;
    CoreFacts(s);
    var u := Unflagged(s);
    UnflaggedIsCore(s);
    TakenIsCore(u);
    var t, v := Next(u), Taken(u);
    CoreFacts(v);
    InsertFacts(v, v.now);
    InsertFacts(v, t);
    CountFacts(v);
    CountFacts(Insert(v, v.now));
    CountFacts(Insert(v, t));
  }

  lemma CountFacts(s: State)
    requires Core(s)
    ensures s.count == |s.queue| + 1
  {
  }

  /** A charged tick: one unit for priorities 0 and 1, else two, off the slice and onto the runtime; the flag
      is set when nothing is left. */
  lemma ChargeOfTick(s: State)
    requires s.now < |s.tasks|
    ensures var r, me := Charged(s), s.tasks[s.now];
            var cost := if 0 <= me.priority <= 1 then 1 else 2;
            && r == s.(tasks := r.tasks, slice := r.slice) && r.slice + cost == s.slice
            && |r.tasks| == |s.tasks| && (forall t :: 0 <= t < |s.tasks| && t != s.now ==> r.tasks[t] == s.tasks[t])
            && r.tasks[s.now].vrun - cost == me.vrun
            && r.tasks[s.now] == me.(vrun := r.tasks[s.now].vrun, flagged := r.tasks[s.now].flagged)
            && (r.tasks[s.now].flagged <==> me.flagged || s.slice <= cost)
  {
  }

  /** The child is a new task of priority 2 with its parent's runtime and flag, awake and queued; the parent
      runs on. */
  lemma ForkAddsChild(s: State)
    requires Sane(s)
    ensures var r, child: nat := Forked(s), |s.tasks|;
            && r.now == s.now && r.slice == s.slice && r.sems == s.sems
            && r.tasks == s.tasks + [Task(2, s.tasks[s.now].vrun, true, s.tasks[s.now].flagged)]
            && multiset(r.queue) == multiset(s.queue) + multiset{child} && r.count == s.count + 1
  {
    hide Sorted, Waiting, Others, Place;
    var u := s.(tasks := s.tasks + [s.tasks[s.now].(priority := 2, running := true)]);
    SameTimesSameCore(s, u);
    InsertFacts(u, |s.tasks|);
  }

  /** Among equals the newcomer goes first: it is put before the first task that is not behind it. */
  lemma InsertedBefore(s: State, t: nat)
    requires Core(s) && 0 < t < |s.tasks|
    ensures var r := Insert(s, t);
            && |r.queue| == |s.queue| + 1 && r.count == s.count + 1
            && exists i :: 0 <= i <= |s.queue| && r.queue == s.queue[..i] + [t] + s.queue[i..]
                        && (forall j :: 0 <= j < i ==> s.tasks[s.queue[j]].vrun < s.tasks[t].vrun)
                        && (i < |s.queue| ==> s.tasks[t].vrun <= s.tasks[s.queue[i]].vrun)
  {
    hide Place, Sorted;
    var i := Place(s.tasks, s.queue, s.tasks[t].vrun);
    assert Insert(s, t).queue == s.queue[..i] + [t] + s.queue[i..];
  }
}
