/** The decrement-and-test spin lock, as atomic steps of any number of processors. */
module Spinlock {

  const MIN_WORD: int := -0x8000_0000_0000_0000
  const MAX_WORD: int := 0x7fff_ffff_ffff_ffff

  /** Where a processor is: outside, before the locked decrement, in the waiting loop, or inside. */
  datatype Where = Outside | Decrementing | Waiting | Inside

  /** `preempt` is the one `preempt_count` that every processor changes, that of `now_task[0]`. */
  datatype State = State(lock: int, at: seq<Where>, preempt: int)

  datatype Action = Enter | Decrement | Look | Unlock

  datatype Event = Event(cpu: nat, action: Action)

  /** `decq` on a 64-bit word. */
  function Decremented(word: int): int {
    if word == MIN_WORD then MAX_WORD else word - 1
  }

  ghost predicate Allowed(s: State, e: Event) {
    && e.cpu < |s.at|
    && match e.action
       case Enter => s.at[e.cpu].Outside?
       case Decrement => s.at[e.cpu].Decrementing?
       case Look => s.at[e.cpu].Waiting?
       case Unlock => s.at[e.cpu].Inside?
  }

  ghost function Step(s: State, e: Event): (r: State)
    requires Allowed(s, e)
    ensures |r.at| == |s.at|
  {
    match e.action
    case Enter => s.(at := s.at[e.cpu := Decrementing], preempt := s.preempt + 1)
    case Decrement =>
      var word := Decremented(s.lock);
      s.(lock := word, at := s.at[e.cpu := if word >= 0 then Inside else Waiting])
    case Look => if s.lock <= 0 then s else s.(at := s.at[e.cpu := Decrementing])
    case Unlock => s.(lock := 1, at := s.at[e.cpu := Outside], preempt := s.preempt - 1)
  }

  ghost function Run(s: State, events: seq<Event>): State {
    if events == [] then s
    else
      var n := |events| - 1;
      var p := Run(s, events[..n]);
      if Allowed(p, events[n]) then Step(p, events[n]) else p
  }

  /** `spin_init`, with nobody at the lock yet. */
  function Start(processors: nat): State {
    State(1, seq(processors, _ => Outside), 0)
  }

  // ---- counting ----

  function Count(at: seq<Where>, w: Where): nat {
    if at == [] then 0 else (if at[0] == w then 1 else 0) + Count(at[1..], w)
  }

  lemma {:induction false} CountAfter(at: seq<Where>, i: nat, x: Where, w: Where)
    requires i < |at|
    ensures Count(at[i := x], w) == Count(at, w) - (if at[i] == w then 1 else 0) + (if x == w then 1 else 0)
  {
    var at' := at[i := x];
    if i == 0 {
      assert at'[1..] == at[1..];
    } else {
      assert at'[1..] == at[1..][i - 1 := x];
      CountAfter(at[1..], i - 1, x, w);
    }
  }

  lemma {:induction false} CountHas(at: seq<Where>, i: nat, w: Where)
    requires i < |at|
    ensures at[i] == w ==> Count(at, w) > 0
    ensures Count(at, Inside) + Count(at, Waiting) <= |at|
  {
    if i > 0 {
      CountHas(at[1..], i - 1, w);
    } else {
      BothFit(at[1..]);
    }
  }

  lemma {:induction false} BothFit(at: seq<Where>)
    ensures Count(at, Inside) + Count(at, Waiting) <= |at|
  {
    if at != [] {
      BothFit(at[1..]);
    }
  }

  lemma {:induction false} CountTwo(at: seq<Where>, i: nat, j: nat, w: Where)
    requires i < j < |at| && at[i] == at[j] == w
    ensures Count(at, w) >= 2
  {
    if i == 0 {
      CountHas(at[1..], j - 1, w);
    } else {
      CountTwo(at[1..], i - 1, j - 1, w);
    }
  }

  lemma {:induction false} CountNone(processors: nat, w: Where)
    requires w != Outside
    ensures Count(seq(processors, _ => Outside), w) == 0
  {
    if processors > 0 {
      var at := seq(processors, _ => Outside);
      assert at[1..] == seq(processors - 1, _ => Outside);
      CountNone(processors - 1, w);
    }
  }

  lemma {:induction false} CountAll(processors: nat)
    ensures Count(seq(processors, _ => Outside), Outside) == processors
  {
    if processors > 0 {
      var at := seq(processors, _ => Outside);
      assert at[1..] == seq(processors - 1, _ => Outside);
      CountAll(processors - 1);
    }
  }

  // ---- the invariant ----

  /** The word is 1 while the lock is free. While it is held there is one holder, and the word has been
      decremented once for it and at most once for each processor that waits. The preemption counter is
      the number of processors in one of the two calls or between them. */
  ghost predicate Valid(s: State) {
    && 0 < |s.at| <= MAX_WORD
    && (s.lock == 1 ==> Count(s.at, Inside) == 0)
    && (s.lock != 1 ==> s.lock <= 0 && Count(s.at, Inside) == 1 && -s.lock <= Count(s.at, Waiting))
    && s.preempt + Count(s.at, Outside) == |s.at|
  }

  lemma StepKeepsValid(s: State, e: Event)
    requires Valid(s) && Allowed(s, e)
    ensures Valid(Step(s, e))
  {
    hide Count;
    BothFit(s.at);
    CountAfter(s.at, e.cpu, Step(s, e).at[e.cpu], Inside);
    CountAfter(s.at, e.cpu, Step(s, e).at[e.cpu], Waiting);
    CountAfter(s.at, e.cpu, Step(s, e).at[e.cpu], Outside);
    CountHas(s.at, e.cpu, Inside);
  }

  lemma {:induction false} RunsStayValid(processors: nat, events: seq<Event>)
    requires 0 < processors <= MAX_WORD
    ensures Valid(Run(Start(processors), events)) && |Run(Start(processors), events).at| == processors
  {
    if events == [] {
      CountNone(processors, Inside);
      CountAll(processors);
    } else {
      var n := |events| - 1;
      RunsStayValid(processors, events[..n]);
      var p := Run(Start(processors), events[..n]);
      if Allowed(p, events[n]) {
        StepKeepsValid(p, events[n]);
      }
    }
  }

  /** In every run of any number of processors at most one is inside; the word is at most 0 exactly
      while one is, and never below 1 - N, so that the decrement cannot wrap. */
  lemma MutualExclusion(processors: nat, events: seq<Event>, p: nat, q: nat)
    requires 0 < processors <= MAX_WORD && p < processors && q < processors
    ensures var s := Run(Start(processors), events);
            && |s.at| == processors
            && (s.at[p].Inside? && s.at[q].Inside? ==> p == q)
            && (s.lock <= 0 <==> exists h :: 0 <= h < |s.at| && s.at[h].Inside?)
            && 1 - processors <= s.lock <= 1
  {
    RunsStayValid(processors, events);
    var s := Run(Start(processors), events);
    hide Run;
    BothFit(s.at);
    if s.at[p].Inside? && s.at[q].Inside? && p != q {
      CountTwo(s.at, if p < q then p else q, if p < q then q else p, Inside);
      assert false;
    }
    if h :| 0 <= h < |s.at| && s.at[h].Inside? {
      CountHas(s.at, h, Inside);
    } else {
      NobodyInside(s.at);
    }
  }

  lemma {:induction false} NobodyInside(at: seq<Where>)
    requires !exists h :: 0 <= h < |at| && at[h].Inside?
    ensures Count(at, Inside) == 0
  {
    if at != [] {
      assert forall h :: 0 <= h < |at| - 1 ==> at[1..][h] == at[h + 1];
      NobodyInside(at[1..]);
    }
  }

  /** The lock is not lost: in every reachable state, whoever decrements gets it exactly when nobody has
      it, whatever the waiting processors did to the word before. */
  lemma FreeLockIsTaken(processors: nat, events: seq<Event>, cpu: nat)
    requires 0 < processors <= MAX_WORD
    requires Allowed(Run(Start(processors), events), Event(cpu, Decrement))
    ensures var s := Run(Start(processors), events);
            Step(s, Event(cpu, Decrement)).at[cpu].Inside? <==> forall h :: 0 <= h < |s.at| ==> !s.at[h].Inside?
  {
    MutualExclusion(processors, events, 0, 0);
  }

  /** Nobody waits in vain: in every reachable state a look leads back to the decrement exactly when nobody
      holds the lock. */
  lemma LookSeesFreeLock(processors: nat, events: seq<Event>, cpu: nat)
    requires 0 < processors <= MAX_WORD
    requires Allowed(Run(Start(processors), events), Event(cpu, Look))
    ensures var s := Run(Start(processors), events);
            && (Step(s, Event(cpu, Look)).at[cpu].Decrementing? <==> forall h :: 0 <= h < |s.at| ==> !s.at[h].Inside?)
            && (Step(s, Event(cpu, Look)).at[cpu].Decrementing? || Step(s, Event(cpu, Look)) == s)
            && Step(s, Event(cpu, Look)).lock == s.lock
  {
    MutualExclusion(processors, events, 0, 0);
  }

  /** The holder leaves, and then a waiter looks and decrements: it is inside. */
  lemma WaiterGetsIn(processors: nat, events: seq<Event>, holder: nat, waiter: nat) returns (after: State)
    requires 0 < processors <= MAX_WORD
    requires var s := Run(Start(processors), events);
             Allowed(s, Event(holder, Unlock)) && Allowed(s, Event(waiter, Look))
    ensures after == Run(Start(processors), events + [Event(holder, Unlock), Event(waiter, Look),
                                                      Event(waiter, Decrement)])
    ensures |after.at| == processors && waiter < processors && after.at[waiter].Inside? && after.lock == 0
    ensures holder < processors && after.at[holder].Outside?
  {
    var s, e1, e2, e3 := Start(processors), Event(holder, Unlock), Event(waiter, Look), Event(waiter, Decrement);
    RunsStayValid(processors, events);
    var es1 := events + [e1];
    var es2 := es1 + [e2];
    var es3 := es2 + [e3];
    assert es1[..|events|] == events && es2[..|es1|] == es1 && es3[..|es2|] == es2;
    assert es3 == events + [e1, e2, e3];
    assert Run(s, es1) == Step(Run(s, events), e1);
    assert Run(s, es2) == Step(Run(s, es1), e2);
    assert Run(s, es3) == Step(Run(s, es2), e3);
    after := Run(s, es3);
  }

  /** The other two steps: a processor enters before the decrement, and one that leaves sets the word to 1. */
  lemma EnterAndUnlock(s: State, cpu: nat)
    requires cpu < |s.at|
    ensures s.at[cpu].Outside? ==>
              var r := Step(s, Event(cpu, Enter));
              r.at == s.at[cpu := Decrementing] && r.lock == s.lock && r.preempt == s.preempt + 1
    ensures s.at[cpu].Inside? ==>
              var r := Step(s, Event(cpu, Unlock));
              r.at == s.at[cpu := Outside] && r.lock == 1 && r.preempt == s.preempt - 1
  {
  }

  // ---- the lock in place ----

  /** The lock word, with each processor's place in the code and the preemption counter; each method is one
      atomic step. */
  class Machine {
    var lock: int
    const at: array<Where>
    var preempt: int

    ghost function Now(): State
      reads this, at
    {
      State(lock, at[..], preempt)
    }

    constructor (processors: nat)
      requires 0 < processors <= MAX_WORD
      ensures Now() == Start(processors) && Valid(Now())
      ensures fresh(at)
    {
      lock := 1;
      at := new Where[processors](_ => Outside);
      preempt := 0;
      new;
      RunsStayValid(processors, []);
      assert at[..] == Start(processors).at;
    }

    method EnterStep(cpu: nat)
      requires Valid(Now()) && Allowed(Now(), Event(cpu, Enter))
      modifies this`preempt, at
      ensures Now() == Step(old(Now()), Event(cpu, Enter)) && Valid(Now())
    {
      StepKeepsValid(Now(), Event(cpu, Enter));
      preempt := preempt + 1;
      at[cpu] := Decrementing;
    }

    method DecrementStep(cpu: nat)
      requires Valid(Now()) && Allowed(Now(), Event(cpu, Decrement))
      modifies this`lock, at
      ensures Now() == Step(old(Now()), Event(cpu, Decrement)) && Valid(Now())
    {
      StepKeepsValid(Now(), Event(cpu, Decrement));
      lock := Decremented(lock);
      if lock >= 0 {
        at[cpu] := Inside;
      } else {
        at[cpu] := Waiting;
      }
    }

    method LookStep(cpu: nat)
      requires Valid(Now()) && Allowed(Now(), Event(cpu, Look))
      modifies at
      ensures Now() == Step(old(Now()), Event(cpu, Look)) && Valid(Now())
    {
      StepKeepsValid(Now(), Event(cpu, Look));
      if lock > 0 {
        at[cpu] := Decrementing;
      }
    }

    method UnlockStep(cpu: nat)
      requires Valid(Now()) && Allowed(Now(), Event(cpu, Unlock))
      modifies this`lock, this`preempt, at
      ensures Now() == Step(old(Now()), Event(cpu, Unlock)) && Valid(Now())
    {
      StepKeepsValid(Now(), Event(cpu, Unlock));
      lock := 1;
      preempt := preempt - 1;
      at[cpu] := Outside;
    }
  }
}
