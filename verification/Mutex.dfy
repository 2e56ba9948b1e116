/**
 `Mutex` of src/utils.ts.  Tasks run on one event loop, so each stretch of code
 between two awaits is one step.  The mutex lets a newcomer in ahead of a woken
 waiter, which then finds the lock retaken and queues again, at the tail.
 */
module Mutex {
  import opened Texts

  /** The progress of one `withLock` call. */
  datatype Task = NotStarted | Queued | Woken | Holding | Done

  datatype State = State(locked: bool, queue: seq<nat>, tasks: seq<Task>)

  /** Start: the first run of `acquire`.  Resume: a woken task's.  Release: the body is over. */
  datatype Step = Start(t: nat) | Resume(t: nat) | Release(t: nat)

  function Initial(n: nat): State {
    State(false, [], seq(n, _ => NotStarted))
  }

  predicate Enabled(s: State, step: Step) {
    step.t < |s.tasks| &&
    match step
    case Start(t) => s.tasks[t].NotStarted?
    case Resume(t) => s.tasks[t].Woken?
    case Release(t) => s.tasks[t].Holding?
  }

  /** The loop head of `acquire`. */
  function Acquire(s: State, t: nat): State
    requires t < |s.tasks|
  {
    if s.locked then s.(queue := s.queue + [t], tasks := s.tasks[t := Queued])
    else s.(locked := true, tasks := s.tasks[t := Holding])
  }

  predicate QueueInRange(s: State) {
    forall i :: 0 <= i < |s.queue| ==> s.queue[i] < |s.tasks|
  }

  function Unlock(s: State, t: nat): State
    requires t < |s.tasks| && QueueInRange(s)
  {
    var done := s.(locked := false, tasks := s.tasks[t := Done]);
    if s.queue == [] then done
    else done.(queue := s.queue[1..], tasks := done.tasks[s.queue[0] := Woken])
  }

  function Next(s: State, step: Step): State
    requires Enabled(s, step) && QueueInRange(s)
  {
    if step.Release? then Unlock(s, step.t) else Acquire(s, step.t)
  }

  /** The object itself: what runs between two awaits is one method. */
  class MutexObject {
    var locked: bool
    var waitQueue: seq<nat>     // the tasks whose promises are unresolved
    ghost var tasks: seq<Task>

    ghost function Now(): State
      reads this
    {
      State(locked, waitQueue, tasks)
    }

    constructor (n: nat)
      ensures Now() == Initial(n)
    {
      locked, waitQueue, tasks := false, [], seq(n, _ => NotStarted);
    }

    /** One turn of `while (locked)`: wait for a wakeup, or take the lock. */
    method TryEnter(t: nat) returns (entered: bool)
      requires Inv(Now()) && (Enabled(Now(), Start(t)) || Enabled(Now(), Resume(t)))
      modifies this
      ensures Now() == Acquire(old(Now()), t) && Inv(Now())
      ensures entered <==> tasks[t].Holding?
    {
      AcquireKeepsInv(Now(), t);
      if locked {
        waitQueue, tasks := waitQueue + [t], tasks[t := Queued];
        return false;
      }
      locked, tasks := true, tasks[t := Holding];
      return true;
    }

    /** The release function: unlock, and resolve the promise at the head of the queue. */
    method Leave(t: nat) returns (woken: seq<nat>)
      requires Inv(Now()) && Enabled(Now(), Release(t))
      modifies this
      ensures Now() == Unlock(old(Now()), t) && Inv(Now())
      ensures woken == if old(waitQueue) == [] then [] else [old(waitQueue)[0]]
    {
      UnlockKeepsInv(Now(), t);
      locked, tasks := false, tasks[t := Done];
      if waitQueue == [] {
        return [];
      }
      woken := [waitQueue[0]];
      waitQueue, tasks := waitQueue[1..], tasks[waitQueue[0] := Woken];
    }
  }

  // ----- safety -----

  ghost predicate SomeTask(s: State, what: Task) {
    exists t :: 0 <= t < |s.tasks| && s.tasks[t] == what
  }

  ghost predicate Inv(s: State) {
    && QueueInRange(s)
    // one holder, and only while locked
    && (s.locked <==> SomeTask(s, Holding))
    && (forall t, u :: 0 <= t < |s.tasks| && 0 <= u < |s.tasks| && s.tasks[t].Holding? && s.tasks[u].Holding? ==>
          t == u)
    // every waiting request is queued exactly once, and nothing else is
    && (forall t :: 0 <= t < |s.tasks| ==> (s.tasks[t].Queued? <==> t in s.queue))
    && (forall i, j :: 0 <= i < j < |s.queue| ==> s.queue[i] != s.queue[j])
    // no wakeup is lost
    && (!s.locked && s.queue != [] ==> SomeTask(s, Woken))
  }

  lemma InitialInv(n: nat)
    ensures Inv(Initial(n))
  {}

  lemma AcquireKeepsInv(s: State, t: nat)
    requires Inv(s) && (Enabled(s, Start(t)) || Enabled(s, Resume(t)))
    ensures Inv(Acquire(s, t))
  {
    var s' := Acquire(s, t);
    assert s'.tasks[t] == if s.locked then Queued else Holding;
    assert SomeTask(s', s'.tasks[t]);
    if s.locked {
      var h :| 0 <= h < |s.tasks| && s.tasks[h].Holding?;
      assert s'.tasks[h].Holding?;
    }
  }

  lemma UnlockKeepsInv(s: State, t: nat)
    requires Inv(s) && Enabled(s, Release(t))
    ensures Inv(Unlock(s, t))
  {
    var s' := Unlock(s, t);
    if s.queue != [] {
      assert s'.tasks[s.queue[0]] == Woken;
    }
  }

  lemma StepKeepsInv(s: State, step: Step)
    requires Inv(s) && Enabled(s, step)
    ensures Inv(Next(s, step))
  {
    if step.Release? {
      UnlockKeepsInv(s, step.t);
    } else {
      AcquireKeepsInv(s, step.t);
    }
  }

  // ----- progress -----

  predicate AllServed(s: State) {
    forall t :: 0 <= t < |s.tasks| ==> s.tasks[t].Done?
  }

  /** No deadlock: until all tasks are served some step can be taken. */
  lemma SomeStepIsEnabled(s: State)
    requires Inv(s) && !AllServed(s)
    ensures exists step :: Enabled(s, step)
  {
    var t :| 0 <= t < |s.tasks| && !s.tasks[t].Done?;
    if s.tasks[t].NotStarted? {
      assert Enabled(s, Start(t));
    } else if s.locked {
      var h :| 0 <= h < |s.tasks| && s.tasks[h].Holding?;
      assert Enabled(s, Release(h));
    } else {
      assert s.tasks[t].Queued? ==> s.queue != [];
      var w :| 0 <= w < |s.tasks| && s.tasks[w].Woken?;
      assert Enabled(s, Resume(w));
    }
  }

  function WeightOf(task: Task): nat {
    match task
    case NotStarted => 3
    case Queued => 2
    case Woken => 3
    case Holding => 2
    case Done => 0
  }

  function Weight(tasks: seq<Task>): nat {
    if tasks == [] then 0 else Weight(tasks[..|tasks| - 1]) + WeightOf(tasks[|tasks| - 1])
  }

  lemma {:induction false} WeightUpdate(tasks: seq<Task>, t: nat, task: Task)
    requires t < |tasks|
    ensures Weight(tasks[t := task]) == Weight(tasks) - WeightOf(tasks[t]) + WeightOf(task)
  {
    var last := |tasks| - 1;
    if t == last {
      assert tasks[t := task][..last] == tasks[..last];
    } else {
      assert tasks[t := task][..last] == tasks[..last][t := task];
      WeightUpdate(tasks[..last], t, task);
    }
  }

  lemma {:induction false} InitialWeight(n: nat)
    ensures Weight(Initial(n).tasks) == 3 * n
  {
    if n > 0 {
      assert Initial(n).tasks[..n - 1] == Initial(n - 1).tasks;
      InitialWeight(n - 1);
    }
  }

  /** Every step uses up weight, also the one that sends a woken task back to the queue. */
  lemma StepUsesWeight(s: State, step: Step)
    requires Inv(s) && Enabled(s, step)
    ensures Weight(Next(s, step).tasks) < Weight(s.tasks)
  {
    var t := step.t;
    if step.Release? {
      WeightUpdate(s.tasks, t, Done);
      if s.queue != [] {
        WeightUpdate(s.tasks[t := Done], s.queue[0], Woken);
      }
    } else {
      WeightUpdate(s.tasks, t, if s.locked then Queued else Holding);
    }
  }

  ghost predicate EnabledRun(s: State, steps: seq<Step>)
    decreases |steps|
  {
    QueueInRange(s) &&
    (steps == [] || (Enabled(s, steps[0]) && EnabledRun(Next(s, steps[0]), steps[1..])))
  }

  ghost function Exec(s: State, steps: seq<Step>): State
    requires EnabledRun(s, steps)
    decreases |steps|
  {
    if steps == [] then s else Exec(Next(s, steps[0]), steps[1..])
  }

  lemma {:induction false} RunKeepsInv(s: State, steps: seq<Step>)
    requires Inv(s) && EnabledRun(s, steps)
    ensures Inv(Exec(s, steps))
    ensures Weight(Exec(s, steps).tasks) + |steps| <= Weight(s.tasks)
    ensures |Exec(s, steps).tasks| == |s.tasks|
    decreases |steps|
  {
    if steps != [] {
      StepKeepsInv(s, steps[0]);
      StepUsesWeight(s, steps[0]);
      RunKeepsInv(Next(s, steps[0]), steps[1..]);
    }
  }

  /**
   Main result, for every run of n `withLock` calls whose bodies finish: at most
   one task holds the lock at any time, the run has at most 3n steps, and one
   that cannot go on has served every call.
   */
  lemma EveryRunServesAll(n: nat, steps: seq<Step>)
    requires EnabledRun(Initial(n), steps)
    ensures var s := Exec(Initial(n), steps);
      && Inv(s)
      && |steps| <= 3 * n
      && ((forall step :: !Enabled(s, step)) ==> AllServed(s) && !s.locked && |s.tasks| == n)
  {
    InitialInv(n);
    InitialWeight(n);
    RunKeepsInv(Initial(n), steps);
    var s := Exec(Initial(n), steps);
    if !AllServed(s) {
      SomeStepIsEnabled(s);
    }
  }

  // ----- order of arrival -----

  /** The tasks in the order in which they first ask for the lock. */
  function Arrived(steps: seq<Step>): seq<nat> {
    if steps == [] then [] else (if steps[0].Start? then [steps[0].t] else []) + Arrived(steps[1..])
  }

  /** The tasks in the order in which they take it. */
  ghost function Granted(s: State, steps: seq<Step>): seq<nat>
    requires EnabledRun(s, steps)
    decreases |steps|
  {
    if steps == [] then []
    else (if Takes(s, steps[0]) then [steps[0].t] else []) + Granted(Next(s, steps[0]), steps[1..])
  }

  predicate Takes(s: State, step: Step) {
    !step.Release? && !s.locked
  }

  /** A newcomer takes the free lock past a task that has been woken to take it. */
  ghost predicate Barges(s: State, step: Step) {
    step.Start? && !s.locked && SomeTask(s, Woken)
  }

  ghost predicate NobodyBarges(s: State, steps: seq<Step>)
    requires EnabledRun(s, steps)
    decreases |steps|
  {
    steps == [] || (!Barges(s, steps[0]) && NobodyBarges(Next(s, steps[0]), steps[1..]))
  }

  /** The lock went to those first in line; next is the woken task, if any, and then the queue. */
  ghost predicate InLine(s: State, arrived: seq<nat>, granted: seq<nat>, woken: seq<nat>) {
    && arrived == granted + woken + s.queue
    && |woken| <= 1
    && (forall t :: 0 <= t < |s.tasks| ==> (s.tasks[t].Woken? <==> t in woken))
    && (forall t :: t in woken ==> t < |s.tasks|)
    && (s.locked ==> woken == [])
  }

  lemma WokenIsInLine(s: State, arrived: seq<nat>, granted: seq<nat>, woken: seq<nat>)
    requires InLine(s, arrived, granted, woken)
    ensures woken == [] <==> !SomeTask(s, Woken)
  {
    assert woken != [] ==> woken[0] in woken;
  }

  lemma AcquireKeepsLine(s: State, t: nat, arrived: seq<nat>, granted: seq<nat>, woken: seq<nat>)
    requires Inv(s) && Enabled(s, Start(t)) && InLine(s, arrived, granted, woken) && !Barges(s, Start(t))
    ensures InLine(Next(s, Start(t)), arrived + [t], if s.locked then granted else granted + [t], [])
  {
    WokenIsInLine(s, arrived, granted, woken);
    assert granted + [] == granted && granted + [t] + [] == granted + [t];
    if s.locked {
      assert granted + s.queue + [t] == granted + (s.queue + [t]);
    } else {
      assert s.queue == [];
    }
  }

  lemma ResumeKeepsLine(s: State, t: nat, arrived: seq<nat>, granted: seq<nat>, woken: seq<nat>)
    requires Inv(s) && Enabled(s, Resume(t)) && InLine(s, arrived, granted, woken)
    ensures !s.locked && InLine(Next(s, Resume(t)), arrived, granted + [t], [])
  {
    assert woken == [t];
    assert granted + [t] + [] == granted + [t];
  }

  lemma ReleaseKeepsLine(s: State, t: nat, arrived: seq<nat>, granted: seq<nat>, woken: seq<nat>)
    requires Inv(s) && Enabled(s, Release(t)) && InLine(s, arrived, granted, woken)
    ensures InLine(Next(s, Release(t)), arrived, granted, if s.queue == [] then [] else [s.queue[0]])
  {
    assert woken == [] && granted + [] == granted;
    if s.queue != [] {
      assert s.queue == [s.queue[0]] + s.queue[1..];
      assert granted + s.queue == granted + [s.queue[0]] + s.queue[1..];
    }
  }

  /** Once a newcomer stands where another is first in line, no continuation puts that right. */
  lemma BargingIsForGood(arrived: seq<nat>, granted: seq<nat>, more: seq<nat>, further: seq<nat>, t: nat)
    requires |granted| < |arrived| && arrived[|granted|] != t
    ensures !(granted + [t] + more <= arrived + further)
  {
    assert (granted + [t] + more)[|granted|] == t;
    assert (arrived + further)[|granted|] == arrived[|granted|];
  }

  lemma {:induction false} InOrderIff(s: State, steps: seq<Step>, arrived: seq<nat>, granted: seq<nat>, woken: seq<nat>)
    requires Inv(s) && EnabledRun(s, steps) && InLine(s, arrived, granted, woken)
    ensures granted + Granted(s, steps) <= arrived + Arrived(steps) <==> NobodyBarges(s, steps)
    decreases |steps|
  {
    if steps == [] {
      assert granted + [] == granted && arrived + [] == arrived && granted <= arrived;
      return;
    }
    var step := steps[0];
    var t, s' := step.t, Next(s, step);
    var in', out' := if step.Start? then [t] else [], if Takes(s, step) then [t] else [];
    var granted', arrived' := granted + out', arrived + in';
    Regroup(granted, out', Granted(s', steps[1..]));
    Regroup(arrived, in', Arrived(steps[1..]));
    StepKeepsInv(s, step);
    if Barges(s, step) {
      WokenIsInLine(s, arrived, granted, woken);
      assert woken[0] in woken && arrived[|granted|] == woken[0];
      BargingIsForGood(arrived, granted, Granted(s', steps[1..]), Arrived(steps), t);
    } else if step.Start? {
      AcquireKeepsLine(s, t, arrived, granted, woken);
      assert granted + [] == granted;
      InOrderIff(s', steps[1..], arrived', granted', []);
    } else if step.Resume? {
      ResumeKeepsLine(s, t, arrived, granted, woken);
      assert arrived + [] == arrived;
      InOrderIff(s', steps[1..], arrived', granted', []);
    } else {
      ReleaseKeepsLine(s, t, arrived, granted, woken);
      assert granted + [] == granted && arrived + [] == arrived;
      InOrderIff(s', steps[1..], arrived', granted', if s.queue == [] then [] else [s.queue[0]]);
    }
  }

  /**
   The lock is first come, first served in exactly the runs in which no call
   starts while the lock is free and a woken task has yet to take it.
   */
  lemma FirstComeFirstServedIff(n: nat, steps: seq<Step>)
    requires EnabledRun(Initial(n), steps)
    ensures Granted(Initial(n), steps) <= Arrived(steps) <==> NobodyBarges(Initial(n), steps)
  {
    InitialInv(n);
    InOrderIff(Initial(n), steps, [], [], []);
    assert [] + Granted(Initial(n), steps) == Granted(Initial(n), steps) && [] + Arrived(steps) == Arrived(steps);
  }

  /** And some run is not: task 2 passes task 1. */
  lemma NotFirstComeFirstServed()
    ensures exists steps ::
      && EnabledRun(Initial(3), steps)
      && Exec(Initial(3), steps) == State(true, [1], [Done, Queued, Holding])
      && !(Granted(Initial(3), steps) <= Arrived(steps))
  {
    var s0 := Initial(3);
    var s1 := Next(s0, Start(0));
    var s2 := Next(s1, Start(1));
    var s3 := Next(s2, Release(0));
    var s4 := Next(s3, Start(2));
    var s5 := Next(s4, Resume(1));
    assert s5 == State(true, [1], [Done, Queued, Holding]);
    assert EnabledRun(s5, []) && Exec(s5, []) == s5;
    assert s3.tasks[1] == Woken;
    RunCons(s4, Resume(1), []);
    RunCons(s3, Start(2), [Resume(1)]);
    RunCons(s2, Release(0), [Start(2)] + [Resume(1)]);
    RunCons(s1, Start(1), [Release(0)] + ([Start(2)] + [Resume(1)]));
    var steps := [Start(1)] + ([Release(0)] + ([Start(2)] + [Resume(1)]));
    RunCons(s0, Start(0), steps);
    FirstComeFirstServedIff(3, [Start(0)] + steps);
  }

  lemma RunCons(s: State, step: Step, steps: seq<Step>)
    requires QueueInRange(s) && Enabled(s, step) && EnabledRun(Next(s, step), steps)
    ensures EnabledRun(s, [step] + steps) && Exec(s, [step] + steps) == Exec(Next(s, step), steps)
    ensures NobodyBarges(s, [step] + steps) <==> !Barges(s, step) && NobodyBarges(Next(s, step), steps)
  {
    assert ([step] + steps)[1..] == steps;
  }
}
