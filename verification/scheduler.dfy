/** The scheduler as it works: a queue, counters and task records that the interrupt handler, `fork`
    and the semaphores change in place. Every method is tied to a step of module Scheduling. */
module SchedulerState {
  import opened Scheduling

  const MAX_TIME: int := 0x7fff_ffff_ffff_ffff

  /** The steps of one processor: `now` is `now_task[0]`, `queue` the ring of the run queue without its
      head, and the head carries the sentinel runtime. */
  class Scheduler {
    var tasks: seq<Task>
    var queue: seq<nat>
    var now: nat
    var runningTaskCount: int
    var sliceLeft: int
    var sems: seq<Semaphore>
    var tempJiffies: nat

    ghost function Now(): State
      reads this
    {
      State(tasks, queue, now, runningTaskCount, sliceLeft, sems)
    }

    /** Runtimes do not pass the sentinel. */
    ghost predicate InTime()
      reads this
    {
      forall t :: 0 <= t < |tasks| ==> tasks[t].vrun <= MAX_TIME
    }

    constructor (counters: seq<nat>)
      ensures Now() == Start(counters) && Sane(Now()) && InTime() && tempJiffies == 0
      ensures tasks == [Task(2, 0, true, false)] && queue == [] && now == 0 && runningTaskCount == 1 && sliceLeft == 4
      ensures |sems| == |counters| && forall k :: 0 <= k < |sems| ==> sems[k] == Semaphore(counters[k], [])
    {
      tasks := [Task(2, 0, true, false)];
      queue, now, runningTaskCount, sliceLeft := [], 0, 1, 4;
      sems := seq(|counters|, k requires 0 <= k < |counters| => Semaphore(counters[k], []));
      tempJiffies := 0;
      new;
      StartIsSane(counters);
    }

    method GetNextTask() returns (tsk: nat)
      requires Core(Now())
      modifies this`queue, this`runningTaskCount
      ensures tsk == Next(old(Now())) && Now() == Taken(old(Now()))
    {
      if queue == [] {
        return 0;
      }
      tsk := queue[0];
      queue := queue[1..];
      runningTaskCount := runningTaskCount - 1;
    }

    /** The runtime of the record at place `i` of the ring, the head's being the sentinel. */
    function TimeAt(i: nat): int
      requires i <= |queue| && forall j :: 0 <= j < |queue| ==> queue[j] < |tasks|
      reads this
    {
      if i < |queue| then tasks[queue[i]].vrun else MAX_TIME
    }

    /** The walk has no bound of its own: the sentinel ends it. */
    method InsertTaskQueue(tsk: nat)
      requires Core(Now()) && InTime() && tsk < |tasks|
      modifies this`queue, this`runningTaskCount
      ensures Now() == Insert(old(Now()), tsk) && Core(Now())
      ensures multiset(queue) == multiset(old(queue)) + Me(tsk)
    {
      InsertKeepsCore(Now(), tsk);
      if tsk == 0 {
        return;
      }
      var tmp := 0;
      if queue != [] {
        while TimeAt(tmp) < tasks[tsk].vrun
          invariant 0 <= tmp <= |queue|
          invariant Place(tasks, queue, tasks[tsk].vrun, tmp) == Place(tasks, queue, tasks[tsk].vrun)
          decreases |queue| - tmp
        {
          tmp := tmp + 1;
        }
      }
      queue := queue[..tmp] + [tsk] + queue[tmp..];
      runningTaskCount := runningTaskCount + 1;
    }

    /** The new slice after a spent one; the divisor is never 0. */
    method Refill(tsk: nat)
      requires Core(Now()) && tsk < |tasks|
      modifies this`sliceLeft
      ensures Now() == Refilled(old(Now()), tsk) && Core(Now())
    {
      if sliceLeft == 0 {
        if tasks[tsk].priority == 0 || tasks[tsk].priority == 1 {
          sliceLeft := 4 / runningTaskCount;
        } else {
          sliceLeft := 4 / runningTaskCount * 3;
        }
      }
    }

    method Schedule()
      requires Core(Now()) && InTime()
      modifies this`tasks, this`queue, this`runningTaskCount, this`sliceLeft, this`now
      ensures Now() == Scheduled(old(Now()))
      ensures forall t :: t in queue ==> t < |tasks| && tasks[now].vrun <= tasks[t].vrun
      ensures |tasks| == |old(tasks)| && InTime()
      ensures old(queue) != [] && old(tasks[now].running) && old(now) != old(queue)[0] ==>
                (now == old(queue)[0] <==> old(tasks)[old(queue)[0]].vrun <= old(tasks[now].vrun))
      ensures old(queue) != [] && !old(tasks[now].running) ==> now == old(queue)[0]
    {
      hide Scheduled, Sorted, Place;
      ghost var s := Now();
      ScheduleRunsLeast(s);
      ScheduledMoves(s);
      WhoRuns(s);
      HeadIsLeast(s);
      HeadIsLeast(Scheduled(s));
      tasks := tasks[now := tasks[now].(flagged := false)];
      UnflaggedIsCore(s);
      PickAndSwitch(s);
    }

    /** The rest of `schedule`, after the flag was cleared: the next task is picked, and the processor is
        switched to it or it is put back. */
    method PickAndSwitch(ghost s: State)
      requires Core(s) && Now() == Unflagged(s) && Core(Now()) && InTime()
      modifies this`queue, this`runningTaskCount, this`sliceLeft, this`now
      ensures Now() == Scheduled(s)
    {
      hide Insert, Refilled, Sorted;
      TakenIsCore(Now());
      var tsk := GetNextTask();
      if tasks[now].vrun >= tasks[tsk].vrun || !tasks[now].running {
        if tasks[now].running {
          InsertTaskQueue(now);
        }
        Refill(tsk);
        now := tsk;
      } else {
        InsertTaskQueue(tsk);
        Refill(tsk);
      }
    }

    /** Every hundredth timer interrupt charges the running task; on the way out of any interrupt a
        flagged task is rescheduled. */
    method TimerInterrupt()
      requires Sane(Now()) && InTime()
      requires tasks[now].vrun + 2 <= MAX_TIME
      modifies this
      ensures tempJiffies == old(tempJiffies) + 1
      ensures Sane(Now()) && InTime()
      ensures tempJiffies % 100 == 0 ==> Now() == Step(old(Now()), Tick)
      ensures tempJiffies % 100 != 0 ==>
                Now() == if old(tasks[now].flagged) then Scheduled(old(Now())) else old(Now())
    {
      hide Scheduled, Insert, Sorted, Waiting, Others;
      ghost var s := Now();
      NowIsNotQueued(s);
      SaneAfterCharge(s);
      StepKeepsSane(s, Tick);
      PitHandler();
      if tasks[now].flagged {
        SaneAfterSchedule(Now());
        Schedule();
      }
    }

    method PitHandler()
      requires now < |tasks| && InTime() && tasks[now].vrun + 2 <= MAX_TIME
      modifies this`tempJiffies, this`sliceLeft, this`tasks
      ensures tempJiffies == old(tempJiffies) + 1 && InTime()
      ensures Now() == if tempJiffies % 100 == 0 then Charged(old(Now())) else old(Now())
    {
      tempJiffies := tempJiffies + 1;
      if tempJiffies % 100 == 0 {
        if tasks[now].priority == 0 || tasks[now].priority == 1 {
          sliceLeft := sliceLeft - 1;
          tasks := tasks[now := tasks[now].(vrun := tasks[now].vrun + 1)];
        } else {
          sliceLeft := sliceLeft - 2;
          tasks := tasks[now := tasks[now].(vrun := tasks[now].vrun + 2)];
        }
        if sliceLeft <= 0 {
          tasks := tasks[now := tasks[now].(flagged := true)];
        }
      }
    }

    /** `do_fork`, as far as the scheduler sees it. */
    method DoFork()
      requires Sane(Now()) && InTime()
      modifies this`tasks, this`queue, this`runningTaskCount
      ensures Now() == Step(old(Now()), Fork) && Sane(Now()) && InTime()
    {
      hide Insert, Sorted, Waiting, Others;
      ghost var s := Now();
      StepKeepsSane(s, Fork);
      var tsk := |tasks|;
      tasks := tasks + [tasks[now].(priority := 2, running := true)];
      SameTimesSameCore(s, Now());
      InsertTaskQueue(tsk);
    }

    method SemaphoreDown(k: nat)
      requires Sane(Now()) && InTime() && Allowed(Now(), Down(k))
      modifies this`tasks, this`queue, this`runningTaskCount, this`sliceLeft, this`now, this`sems
      ensures Now() == Step(old(Now()), Down(k)) && Sane(Now()) && InTime()
    {
      hide Scheduled, Sorted, Waiting, Others;
      ghost var s := Now();
      StepKeepsSane(s, Down(k));
      if sems[k].counter > 0 {
        sems := sems[k := sems[k].(counter := sems[k].counter - 1)];
      } else {
        tasks := tasks[now := tasks[now].(running := false)];
        sems := sems[k := sems[k].(waiters := sems[k].waiters + [now])];
        SameTimesSameCore(s, Now());
        Schedule();
      }
    }

    method SemaphoreUp(k: nat)
      requires Sane(Now()) && InTime() && Allowed(Now(), Up(k))
      modifies this`tasks, this`queue, this`runningTaskCount, this`sems
      ensures Now() == Step(old(Now()), Up(k)) && Sane(Now()) && InTime()
    {
      hide Insert, Sorted, Waiting, Others, Me, Core;
      ghost var s := Now();
      CoreFacts(s);
      StepKeepsSane(s, Up(k));
      if sems[k].waiters == [] {
        sems := sems[k := sems[k].(counter := sems[k].counter + 1)];
      } else {
        var tsk := sems[k].waiters[0];
        WaitersAreTasks(s, k, 0);
        sems := sems[k := sems[k].(waiters := sems[k].waiters[1..])];
        tasks := tasks[tsk := tasks[tsk].(running := true)];
        SameTimesSameCore(s, Now());
        InsertTaskQueue(tsk);
      }
    }
  }
}
