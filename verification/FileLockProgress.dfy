/** How attempts on the lock of src/utils.ts end: within a bound always, and as crash recovery has it when alone. */
module FileLockProgress {
  import opened LockRecovery
  import opened FileLockProtocol

  /** An upper bound on the moves left in an attempt or a release. */
  function MovesLeft(pc: Pc): int {
    match pc
    case Create(l, again) => 39 - 5 * l - (if again then 3 else 1)
    case Read(l, again) => 39 - 5 * l - (if again then 4 else 2)
    case Probe(l, again, _) => 39 - 5 * l - 5
    case Recheck(l) => 6 * l + 6
    case Reprobe(l, _) => 6 * l + 5
    case Unlink(l) => 6 * l + 4
    case Replace(l) => 6 * l + 3
    case FreeRead(l, _) => if l == 0 then 2 else 6 * l - 4
    case FreeUnlink(l, _) => if l == 0 then 1 else 6 * l - 5
    case Idle => 0
    case Owner => 0
  }

  /** A step of the agent itself brings its attempt or release nearer to its end; LevelOk is all it takes. */
  lemma MoveUsesUp(s: State, a: nat)
    requires a in s.agents && LevelOk(s.agents[a].pc) && !s.agents[a].pc.Idle? && !s.agents[a].pc.Owner?
    ensures LevelOk(MoveOf(s, a).agents[a].pc)
    ensures MovesLeft(MoveOf(s, a).agents[a].pc) < MovesLeft(s.agents[a].pc) <= 38
  {}

  ghost predicate LevelsOk(s: State) {
    forall a :: a in s.agents ==> LevelOk(s.agents[a].pc)
  }

  /** No step, sound or not, takes an agent beyond the last level. */
  lemma {:induction false} RunKeepsLevels(s: State, acts: seq<Action>)
    requires LevelsOk(s) && EnabledRun(s, acts)
    ensures LevelsOk(Exec(s, acts))
    decreases |acts|
  {
    if acts != [] {
      RunKeepsLevels(Next(s, acts[0]), acts[1..]);
    }
  }

  /** From the start to the end of the run the agent is alive and busy with one attempt or release. */
  predicate BusyThroughout(s: State, acts: seq<Action>, a: nat)
    requires EnabledRun(s, acts)
    decreases |acts|
  {
    && a in s.agents && !s.agents[a].pc.Idle? && !s.agents[a].pc.Owner?
    && (acts == [] || BusyThroughout(Next(s, acts[0]), acts[1..], a))
  }

  function MovesOf(acts: seq<Action>, a: nat): nat {
    if acts == [] then 0 else (if acts[0] == Move(a) then 1 else 0) + MovesOf(acts[1..], a)
  }

  lemma {:induction false} BusyAgentUsesUp(s: State, acts: seq<Action>, a: nat)
    requires EnabledRun(s, acts) && BusyThroughout(s, acts, a) && LevelOk(s.agents[a].pc)
    ensures MovesOf(acts, a) < MovesLeft(s.agents[a].pc) <= 38
    decreases |acts|
  {
    MoveUsesUp(s, a);
    if acts != [] {
      var t := Next(s, acts[0]);
      BusyAgentUsesUp(t, acts[1..], a);
    }
  }

  /**
   In every run, safe or not, whatever the others do: while an attempt or a
   release goes on, the agent makes fewer than 38 moves, so the 38th ends it.
   */
  lemma AttemptsAreWaitFree(init: State, before: seq<Action>, acts: seq<Action>, a: nat)
    requires Init(init) && EnabledRun(init, before) && EnabledRun(Exec(init, before), acts)
    requires BusyThroughout(Exec(init, before), acts, a)
    ensures MovesOf(acts, a) < 38
  {
    RunKeepsLevels(init, before);
    BusyAgentUsesUp(Exec(init, before), acts, a);
  }

  // ----- an attempt that nobody interrupts -----

  function Moves(a: nat, n: nat): seq<Action> {
    seq(n, _ => Move(a))
  }

  function Pids(files: map<nat, File>): Files {
    map l | l in files :: files[l].pid
  }

  /** Where an undisturbed attempt at level `l` ends. */
  function Settled(s: State, a: nat, l: nat): State
    requires a in s.agents && l <= MAX_LOCK_BREAK_DEPTH
  {
    if Recoverable(Pids(s.files), s.live, l) then
      var k := FirstNotStale(Pids(s.files), s.live, l);
      At(s.(files := Recovered(s.files, l, k, File(s.agents[a].pid, a))), a, Taken(l))
    else At(s, a, Idle)
  }

  /** The run leads from one state to another, whatever its verdicts. */
  predicate Leads(s: State, acts: seq<Action>, t: State) {
    EnabledRun(s, acts) && Exec(s, acts) == t
  }

  lemma MovesThen(s: State, a: nat, m: nat, t: State, n: nat, u: State)
    requires Leads(s, Moves(a, m), t) && Leads(t, Moves(a, n), u)
    ensures Leads(s, Moves(a, m + n), u)
    ensures SoundRun(s, Moves(a, m)) && SoundRun(t, Moves(a, n)) ==> SoundRun(s, Moves(a, m + n))
  {
    assert Moves(a, m + n) == Moves(a, m) + Moves(a, n);
    ExecAppend(s, Moves(a, m), Moves(a, n));
  }

  lemma OneMove(s: State, a: nat)
    requires a in s.agents
    ensures Leads(s, Moves(a, 1), MoveOf(s, a))
    ensures SoundVerdict(s, Move(a)) ==> SoundRun(s, Moves(a, 1))
  {
    ExecOne(s, Move(a));
    assert Moves(a, 1) == [Move(a)];
  }

  lemma TwoMoves(s: State, a: nat)
    requires a in s.agents
    ensures Leads(s, Moves(a, 2), MoveOf(MoveOf(s, a), a))
    ensures SoundVerdict(s, Move(a)) && SoundVerdict(MoveOf(s, a), Move(a)) ==> SoundRun(s, Moves(a, 2))
  {
    OneMove(s, a);
    OneMove(MoveOf(s, a), a);
    MovesThen(s, a, 1, MoveOf(s, a), 1, MoveOf(MoveOf(s, a), a));
  }

  /** Where an undisturbed takeover of the stale level `l` ends: its file replaced, the break lock gone. */
  function Replaced(s: State, a: nat, l: nat): State
    requires a in s.agents
  {
    At(s.(files := s.files[l := File(s.agents[a].pid, a)] - {l + 1}), a, Taken(l))
  }

  lemma UndisturbedTakeover(s: State, a: nat, l: nat)
    requires a in s.agents && s.agents[a].pc == Recheck(l)
    requires l in s.files && s.files[l].pid !in s.live
    requires l + 1 in s.files && s.files[l + 1].pid == s.agents[a].pid
    ensures Leads(s, Moves(a, 6), Replaced(s, a, l))
  {
    var s2 := At(s, a, Unlink(l));
    var s4 := At(s.(files := s.files[l := File(s.agents[a].pid, a)]), a, FreeRead(l + 1, true));
    TwoMoves(s, a);
    UndisturbedReplacement(s2, a, l);
    assert s4 == At(s2.(files := s2.files[l := File(s2.agents[a].pid, a)]), a, FreeRead(l + 1, true));
    UndisturbedFree(s4, a, l);
    MovesThen(s, a, 2, s2, 2, s4);
    MovesThen(s, a, 4, s4, 2, Replaced(s, a, l));
  }

  lemma UndisturbedReplacement(s: State, a: nat, l: nat)
    requires a in s.agents && s.agents[a].pc == Unlink(l) && l in s.files
    ensures Leads(s, Moves(a, 2), At(s.(files := s.files[l := File(s.agents[a].pid, a)]), a, FreeRead(l + 1, true)))
  {
    TwoMoves(s, a);
    var t := MoveOf(MoveOf(s, a), a);
    assert t.files == s.files[l := File(s.agents[a].pid, a)];
  }

  lemma UndisturbedFree(s: State, a: nat, l: nat)
    requires a in s.agents && s.agents[a].pc == FreeRead(l + 1, true)
    requires l + 1 in s.files && s.files[l + 1].pid == s.agents[a].pid
    ensures Leads(s, Moves(a, 2), At(s.(files := s.files - {l + 1}), a, Taken(l)))
  {
    TwoMoves(s, a);
  }

  /** The first look at a lock that exists ends in a refusal or one level up. */
  lemma FirstLook(s: State, a: nat, l: nat)
    requires a in s.agents && s.agents[a].pc == Create(l, false)
    ensures l in s.files ==> Reaches(s, Moves(a, 3),
      At(s, a, if s.files[l].pid in s.live || l >= MAX_LOCK_BREAK_DEPTH then Idle else Create(l + 1, false)))
  {
    if l in s.files {
      var s2 := At(s, a, Probe(l, false, s.files[l].pid));
      TwoMoves(s, a);
      OneMove(s2, a);
      MovesThen(s, a, 2, s2, 1, MoveOf(s2, a));
    }
  }

  lemma SettledHere(s: State, a: nat, l: nat)
    requires a in s.agents && l <= MAX_LOCK_BREAK_DEPTH && s.agents[a].pc == Create(l, false)
    ensures l !in s.files ==> Settled(s, a, l) == MoveOf(s, a)
    ensures l in s.files && (s.files[l].pid in s.live || l == MAX_LOCK_BREAK_DEPTH) ==>
      Settled(s, a, l) == At(s, a, Idle)
  {
    var owner := File(s.agents[a].pid, a);
    if l !in s.files {
      assert Recovered(s.files, l, l, owner) == s.files[l := owner];
    }
  }

  lemma SettledStep(s: State, a: nat, l: nat)
    requires a in s.agents && l < MAX_LOCK_BREAK_DEPTH && l in s.files && s.files[l].pid !in s.live
    ensures var up := Settled(At(s, a, Create(l + 1, false)), a, l + 1);
      if Recoverable(Pids(s.files), s.live, l) then
        up.agents[a].pc == Recheck(l) && l in up.files && up.files[l] == s.files[l] && up.live == s.live &&
        l + 1 in up.files && up.files[l + 1].pid == up.agents[a].pid &&
        Replaced(up, a, l) == Settled(s, a, l)
      else up == Settled(s, a, l)
  {
    var up := Settled(At(s, a, Create(l + 1, false)), a, l + 1);
    var owner := File(s.agents[a].pid, a);
    var k := FirstNotStale(Pids(s.files), s.live, l);
    assert k == FirstNotStale(Pids(s.files), s.live, l + 1);
    assert Recovered(s.files, l + 1, k, owner)[l := owner] - {l + 1} == Recovered(s.files, l, k, owner);
  }

  /**
   Progress, from any state whatever: from the start of an attempt at level `l`,
   the agent alone ends it in at most 9 moves per remaining level, with exactly
   the result that the sequential `TryAcquire` has.
   */
  lemma {:induction false} UndisturbedAttempt(s: State, a: nat, l: nat) returns (n: nat)
    requires a in s.agents && l <= MAX_LOCK_BREAK_DEPTH && s.agents[a].pc == Create(l, false)
    ensures n <= 9 * (MAX_LOCK_BREAK_DEPTH - l) + 3
    ensures Leads(s, Moves(a, n), Settled(s, a, l))
    ensures Inv(s) ==> Reaches(s, Moves(a, n), Settled(s, a, l))
    decreases MAX_LOCK_BREAK_DEPTH - l
  {
    SettledHere(s, a, l);
    FirstLook(s, a, l);
    if l !in s.files {
      OneMove(s, a);
      n := 1;
    } else if s.files[l].pid in s.live || l == MAX_LOCK_BREAK_DEPTH {
      n := 3;
    } else {
      var s3 := At(s, a, Create(l + 1, false));
      var m := UndisturbedAttempt(s3, a, l + 1);
      MovesThen(s, a, 3, s3, m, Settled(s3, a, l + 1));
      var rest := UndisturbedFrameBelow(s, a, l, 3 + m);
      n := 3 + m + rest;
    }
    if Inv(s) {
      OwnMovesAreSound(s, a, n);
    }
  }

  /** Once the level above is settled, the frame at `l` ends the attempt: nothing more to do, or a takeover. */
  lemma UndisturbedFrameBelow(s: State, a: nat, l: nat, m: nat) returns (n: nat)
    requires a in s.agents && l < MAX_LOCK_BREAK_DEPTH && l in s.files && s.files[l].pid !in s.live
    requires Leads(s, Moves(a, m), Settled(At(s, a, Create(l + 1, false)), a, l + 1))
    ensures n <= 6 && Leads(s, Moves(a, m + n), Settled(s, a, l))
  {
    var up := Settled(At(s, a, Create(l + 1, false)), a, l + 1);
    SettledStep(s, a, l);
    if !Recoverable(Pids(s.files), s.live, l) {
      return 0;
    }
    UndisturbedTakeover(up, a, l);
    MovesThen(s, a, m, up, 6, Replaced(up, a, l));
    return 6;
  }

  /** And where the invariant holds its verdicts are sound, each probe following its read at once. */
  lemma {:induction false} OwnMovesAreSound(s: State, a: nat, n: nat)
    requires Inv(s) && a in s.agents && EnabledRun(s, Moves(a, n)) && SoundVerdict(s, Move(a))
    ensures SoundRun(s, Moves(a, n))
    decreases n
  {
    if n > 0 {
      var t := MoveOf(s, a);
      assert Moves(a, n)[1..] == Moves(a, n - 1);
      StepKeepsInvIff(s, Move(a));
      if s.agents[a].pc.Recheck? {
        AtomicReadIsSound(s, a);
      }
      OwnMovesAreSound(t, a, n - 1);
    }
  }
}
