/**
 What the split of `readHolder` in src/utils.ts lets happen: which stale verdicts
 lead to two holders of one lock, and a run with two owners.
 */
module FileLockRace {
  import opened LockRecovery
  import opened FileLockProtocol
  import opened FileLockProgress

  /** A new process takes a free lock. */
  function OpenRun(s: State, pid: Pid): seq<Action> {
    [Start(pid), Spawn(pid)] + [Move(s.next), Move(s.next)]
  }

  lemma OpenRunWorks(s: State, pid: Pid)
    requires pid > 0 && pid !in s.live && 0 !in s.files
    ensures EnabledRun(s, OpenRun(s, pid)) && SoundRun(s, OpenRun(s, pid))
    ensures Exec(s, OpenRun(s, pid)) ==
      State(s.files[0 := File(pid, s.next)], s.live + {pid}, s.agents[s.next := Agent(pid, Owner)], s.next + 1)
  {
    var a := s.next;
    TwoSteps(s, Start(pid), Spawn(pid));
    var t := Exec(s, [Start(pid), Spawn(pid)]);
    TwoSteps(t, Move(a), Move(a));
    ExecAppend(s, [Start(pid), Spawn(pid)], [Move(a), Move(a)]);
    assert Next(Next(t, Move(a)), Move(a)).agents == s.agents[a := Agent(pid, Owner)];
  }

  /** The owner releases the lock and its process exits. */
  function CloseRun(a: nat, pid: Pid): seq<Action> {
    [Move(a), Move(a)] + [Move(a), EndProcess(pid)]
  }

  lemma CloseRunWorks(s: State, a: nat, pid: Pid)
    requires a in s.agents && s.agents[a] == Agent(pid, Owner) && pid in s.live
    requires 0 in s.files && s.files[0].pid == pid
    requires forall b :: b in s.agents && b != a ==> s.agents[b].pid != pid
    ensures EnabledRun(s, CloseRun(a, pid)) && SoundRun(s, CloseRun(a, pid))
    ensures Exec(s, CloseRun(a, pid)) == State(s.files - {0}, s.live - {pid}, s.agents - {a}, s.next)
  {
    TwoSteps(s, Move(a), Move(a));
    var t := Exec(s, [Move(a), Move(a)]);
    assert t == At(s, a, FreeUnlink(0, false));
    var u := Next(t, Move(a));
    TwoSteps(t, Move(a), EndProcess(pid));
    assert Next(u, EndProcess(pid)).agents == s.agents - {a};
    ExecAppend(s, [Move(a), Move(a)], [Move(a), EndProcess(pid)]);
  }

  /** The takeover that follows a stale verdict: unlink, then create. */
  lemma TakeoverWorks(s: State, a: nat, l: nat)
    requires a in s.agents && s.agents[a].pc == Unlink(l)
    ensures EnabledRun(s, [Move(a), Move(a)]) && SoundRun(s, [Move(a), Move(a)])
    ensures Exec(s, [Move(a), Move(a)]).agents == s.agents[a := Agent(s.agents[a].pid, FreeRead(l + 1, true))]
  {
    TwoSteps(s, Move(a), Move(a));
    assert Next(Next(s, Move(a)), Move(a)).agents == s.agents[a := Agent(s.agents[a].pid, FreeRead(l + 1, true))];
  }

  /** Agent `a` is about to judge level `l` stale. */
  predicate JudgesStale(s: State, a: nat, l: nat) {
    a in s.agents && s.agents[a].pc.Reprobe? && s.agents[a].pc.level == l && s.agents[a].pc.seen !in s.live
  }

  /** The verdict of `a` is followed, through sound verdicts only, by two holders of one level. */
  ghost predicate LeadsToTwoHolders(s: State, a: nat) {
    a in s.agents &&
    var t := Next(s, Move(a));
    exists acts :: EnabledRun(t, acts) && SoundRun(t, acts) && !MutualExclusion(Exec(t, acts))
  }

  /** At every level: judging stale a file that a live agent holds ends in two holders. */
  lemma UnsoundVerdictBreaksHeldLock(s: State, a: nat, l: nat)
    requires Inv(s) && JudgesStale(s, a, l) && HeldByAgent(s, l)
    ensures LeadsToTwoHolders(s, a)
  {
    var b :| Holder(s, b, l);
    var t := Next(s, Move(a));
    TakeoverWorks(t, a, l);
    var u := Exec(t, [Move(a), Move(a)]);
    assert Holder(u, a, l) && Holder(u, b, l) && a != b;
  }

  lemma FreshPid(live: set<Pid>) returns (pid: Pid)
    ensures pid > 0 && pid !in live
  {
    var bound := 1;
    var rest := live;
    while rest != {}
      invariant rest <= live && bound > 0
      invariant forall p :: p in live && p !in rest ==> p < bound
    {
      var p :| p in rest;
      rest := rest - {p};
      bound := if p < bound then bound else p + 1;
    }
    pid := bound;
  }

  // ----- newcomers at a level whose file has gone -----

  /** Every level below `l` has a file, and none of their processes is alive. */
  predicate StaleBelow(s: State, l: nat) {
    forall i :: 0 <= i < l ==> i in s.files && s.files[i].pid !in s.live
  }

  /** An agent that finds stale files only climbs to the first level without one. */
  lemma {:induction false} Climb(s: State, b: nat, i: nat, l: nat) returns (acts: seq<Action>)
    requires b in s.agents && s.agents[b].pc == Create(i, false) && i <= l <= MAX_LOCK_BREAK_DEPTH
    requires StaleBelow(s, l)
    ensures Reaches(s, acts, At(s, b, Create(l, false)))
    decreases l - i
  {
    if i == l {
      return [];
    }
    FirstLook(s, b, i);
    var t := At(s, b, Create(i + 1, false));
    var rest := Climb(t, b, i + 1, l);
    ReachesThen(s, Moves(b, 3), t, rest, At(s, b, Create(l, false)));
    return Moves(b, 3) + rest;
  }

  /** A new process takes level `l`, all levels below being stale. */
  lemma Newcomer(s: State, l: nat, pid: Pid) returns (acts: seq<Action>, u: State)
    requires StaleBelow(s, l) && l !in s.files && l <= MAX_LOCK_BREAK_DEPTH
    requires pid > 0 && pid !in s.live && forall i :: 0 <= i < l ==> s.files[i].pid != pid
    ensures Reaches(s, acts, u)
    ensures u == State(s.files[l := File(pid, s.next)], s.live + {pid},
                       s.agents[s.next := Agent(pid, Taken(l))], s.next + 1)
  {
    var b := s.next;
    var arrived := State(s.files, s.live + {pid}, s.agents[b := Agent(pid, Idle)], s.next + 1);
    TwoSteps(s, Start(pid), Spawn(pid));
    var begun := At(arrived, b, Create(0, false));
    ExecOne(arrived, Move(b));
    var way := Climb(begun, b, 0, l);
    var top := At(begun, b, Create(l, false));
    u := MoveOf(top, b);
    ExecOne(top, Move(b));
    ReachesThen(s, [Start(pid), Spawn(pid)], arrived, [Move(b)], begun);
    ReachesThen(s, [Start(pid), Spawn(pid)] + [Move(b)], begun, way, top);
    ReachesThen(s, [Start(pid), Spawn(pid)] + [Move(b)] + way, top, [Move(b)], u);
    acts := [Start(pid), Spawn(pid)] + [Move(b)] + way + [Move(b)];
  }

  /** `u` may follow while agent `a` rests: it is as it was, and so is whether level `l` has a file. */
  predicate Rests(s: State, u: State, a: nat, l: nat) {
    && a in s.agents && a in u.agents && u.agents[a] == s.agents[a]
    && s.agents[a].pid in u.live && a < u.next
    && (l in u.files <==> l in s.files)
  }

  /** The pids that a newcomer had better not have: the living ones and those in files. */
  function Used(s: State): set<Pid> {
    s.live + set l | l in s.files :: s.files[l].pid
  }

  /** Newcomers that take the levels below and die, and deaths of those that hold them, leave them all stale. */
  lemma {:induction false} FillBelow(s: State, a: nat, l: nat, j: nat) returns (acts: seq<Action>, u: State)
    requires j <= l <= MAX_LOCK_BREAK_DEPTH && StaleBelow(s, j) && Rests(s, s, a, l)
    requires forall i :: j <= i < l && i in s.files ==> s.files[i].pid != s.agents[a].pid
    ensures Reaches(s, acts, u) && StaleBelow(u, l) && Rests(s, u, a, l)
    decreases l - j
  {
    if j == l {
      return [], s;
    }
    var first, t := FillLevel(s, a, l, j);
    var rest;
    rest, u := FillBelow(t, a, l, j + 1);
    ReachesThen(s, first, t, rest, u);
    acts := first + rest;
  }

  lemma FillLevel(s: State, a: nat, l: nat, j: nat) returns (acts: seq<Action>, t: State)
    requires j < l <= MAX_LOCK_BREAK_DEPTH && StaleBelow(s, j) && Rests(s, s, a, l)
    requires j in s.files ==> s.files[j].pid != s.agents[a].pid
    ensures Reaches(s, acts, t) && StaleBelow(t, j + 1) && Rests(s, t, a, l)
    ensures forall i :: i > j ==> (i in t.files <==> i in s.files) && (i in s.files ==> t.files[i] == s.files[i])
  {
    if j in s.files {
      if s.files[j].pid !in s.live {
        return [], s;
      }
      t := Next(s, EndProcess(s.files[j].pid));
      ExecOne(s, EndProcess(s.files[j].pid));
      return [EndProcess(s.files[j].pid)], t;
    }
    var pid := FreshPid(Used(s));
    var way, u := Newcomer(s, j, pid);
    t := Next(u, EndProcess(pid));
    ExecOne(u, EndProcess(pid));
    ReachesThen(s, way, u, [EndProcess(pid)], t);
    acts := way + [EndProcess(pid)];
  }

  /**
   At every level: judging stale a file that has gone lets a newcomer in, whose
   lock is then unlinked; unless a lower level names the judging process
   itself, which newcomers cannot outlive.
   */
  lemma UnsoundVerdictBreaksFreeLock(s: State, a: nat, l: nat)
    requires Inv(s) && JudgesStale(s, a, l) && l !in s.files
    requires forall j :: 0 <= j < l && j in s.files ==> s.files[j].pid != s.agents[a].pid
    ensures LeadsToTwoHolders(s, a)
  {
    var t := Next(s, Move(a));
    var before, u := FillBelow(t, a, l, 0);
    var pid := FreshPid(Used(u));
    var way, v := Newcomer(u, l, pid);
    TakeoverWorks(v, a, l);
    var w := Exec(v, [Move(a), Move(a)]);
    ReachesThen(t, before, u, way, v);
    ReachesThen(t, before + way, v, [Move(a), Move(a)], w);
    assert Holder(w, a, l) && Holder(w, u.next, l) && a != u.next;
  }

  /**
   Exactly when a stale verdict is harmless: the file is still there and nobody
   alive holds it.  On the lock itself, level 0, the last requirement is empty.
   */
  lemma StaleVerdictIsSafeIff(s: State, a: nat, l: nat)
    requires Inv(s) && JudgesStale(s, a, l)
    requires forall j :: 0 <= j < l && j in s.files ==> s.files[j].pid != s.agents[a].pid
    ensures (l in s.files && !HeldByAgent(s, l)) <==> !LeadsToTwoHolders(s, a)
  {
    if l !in s.files {
      UnsoundVerdictBreaksFreeLock(s, a, l);
    } else if HeldByAgent(s, l) {
      UnsoundVerdictBreaksHeldLock(s, a, l);
    } else {
      var t := Next(s, Move(a));
      StepKeepsInvIff(s, Move(a));
      forall acts | EnabledRun(t, acts) && SoundRun(t, acts)
        ensures MutualExclusion(Exec(t, acts))
      {
        RunKeepsInv(t, acts);
        InvImpliesSafe(Exec(t, acts));
      }
    }
  }

  const EMPTY_DISK := State(map[], {}, map[], 0)
  const FIRST_OWNER := State(map[0 := File(1, 0)], {1}, map[0 := Agent(1, Owner)], 1)
  const FIRST_SEEN :=
    State(map[0 := File(1, 0)], {1, 2}, map[0 := Agent(1, Owner), 1 := Agent(2, Probe(0, false, 1))], 2)
  const BREAKING := State(map[1 := File(2, 1)], {2}, map[1 := Agent(2, Recheck(0))], 2)
  const SECOND_SEEN :=
    State(map[0 := File(3, 2), 1 := File(2, 1)], {2, 3},
          map[1 := Agent(2, Reprobe(0, 3)), 2 := Agent(3, Owner)], 3)
  const SECOND_GONE := State(map[1 := File(2, 1)], {2}, map[1 := Agent(2, Reprobe(0, 3))], 3)

  lemma FirstIsSeen()
    ensures Reaches(FIRST_OWNER, [Start(2), Spawn(2)] + [Move(1), Move(1)] + [Move(1)], FIRST_SEEN)
  {
    TwoSteps(FIRST_OWNER, Start(2), Spawn(2));
    var s := Exec(FIRST_OWNER, [Start(2), Spawn(2)]);
    TwoSteps(s, Move(1), Move(1));
    var t := Exec(s, [Move(1), Move(1)]);
    ExecOne(t, Move(1));
    ReachesThen(FIRST_OWNER, [Start(2), Spawn(2)], s, [Move(1), Move(1)], t);
    ReachesThen(FIRST_OWNER, [Start(2), Spawn(2)] + [Move(1), Move(1)], t, [Move(1)], FIRST_SEEN);
  }

  lemma FirstLeaves()
    ensures Reaches(FIRST_SEEN, CloseRun(0, 1) + [Move(1), Move(1)], BREAKING)
  {
    CloseRunWorks(FIRST_SEEN, 0, 1);
    var s := Exec(FIRST_SEEN, CloseRun(0, 1));
    TwoSteps(s, Move(1), Move(1));
    ReachesThen(FIRST_SEEN, CloseRun(0, 1), s, [Move(1), Move(1)], BREAKING);
  }

  lemma SecondIsSeenAndLeaves()
    ensures Reaches(BREAKING, OpenRun(BREAKING, 3) + [Move(1)] + CloseRun(2, 3), SECOND_GONE)
  {
    OpenRunWorks(BREAKING, 3);
    var s := Exec(BREAKING, OpenRun(BREAKING, 3));
    ExecOne(s, Move(1));
    ReachesThen(BREAKING, OpenRun(BREAKING, 3), s, [Move(1)], SECOND_SEEN);
    CloseRunWorks(SECOND_SEEN, 2, 3);
    ReachesThen(BREAKING, OpenRun(BREAKING, 3) + [Move(1)], SECOND_SEEN, CloseRun(2, 3), SECOND_GONE);
  }

  /**
   The race, from an empty disk and with clean exits only: agent 1 reads the
   PID of a holder that then releases and exits, so it takes the break lock;
   there it reads the next holder's PID, and that one, too, is gone before the
   probe.  `RaceRun` stops right before that probe.
   */
  function RaceRun(): seq<Action> {
    OpenRun(EMPTY_DISK, 1)
    + ([Start(2), Spawn(2)] + [Move(1), Move(1)] + [Move(1)])
    + (CloseRun(0, 1) + [Move(1), Move(1)])
    + (OpenRun(BREAKING, 3) + [Move(1)] + CloseRun(2, 3))
  }

  lemma RaceRunWorks()
    ensures Reaches(EMPTY_DISK, RaceRun(), SECOND_GONE)
  {
    OpenRunWorks(EMPTY_DISK, 1);
    FirstIsSeen();
    FirstLeaves();
    SecondIsSeenAndLeaves();
    var seen := OpenRun(EMPTY_DISK, 1) + ([Start(2), Spawn(2)] + [Move(1), Move(1)] + [Move(1)]);
    ReachesThen(EMPTY_DISK, OpenRun(EMPTY_DISK, 1), FIRST_OWNER,
                [Start(2), Spawn(2)] + [Move(1), Move(1)] + [Move(1)], FIRST_SEEN);
    ReachesThen(EMPTY_DISK, seen, FIRST_SEEN, CloseRun(0, 1) + [Move(1), Move(1)], BREAKING);
    ReachesThen(EMPTY_DISK, seen + (CloseRun(0, 1) + [Move(1), Move(1)]), BREAKING,
                OpenRun(BREAKING, 3) + [Move(1)] + CloseRun(2, 3), SECOND_GONE);
  }

  lemma TwoHoldersFollow(init: State, acts: seq<Action>, s: State, a: nat)
    requires Reaches(init, acts, s) && LeadsToTwoHolders(s, a)
    ensures exists all :: EnabledRun(init, all) && !MutualExclusion(Exec(init, all))
  {
    var t := Next(s, Move(a));
    var rest :| EnabledRun(t, rest) && SoundRun(t, rest) && !MutualExclusion(Exec(t, rest));
    ExecOne(s, Move(a));
    ExecCons(s, Move(a), rest);
    ExecAppend(init, acts, [Move(a)] + rest);
  }

  /** So mutual exclusion does not hold of every run: this one ends with two owners of the lock. */
  lemma MutualExclusionFails()
    ensures exists acts :: EnabledRun(EMPTY_DISK, acts) && !MutualExclusion(Exec(EMPTY_DISK, acts))
  {
    RaceRunWorks();
    InitInv(EMPTY_DISK);
    RunKeepsInv(EMPTY_DISK, RaceRun());
    UnsoundVerdictBreaksFreeLock(SECOND_GONE, 1, 0);
    TwoHoldersFollow(EMPTY_DISK, RaceRun(), SECOND_GONE, 1);
  }
}
