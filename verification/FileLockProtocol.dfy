/**
 The cross-process lock of src/utils.ts as a protocol over shared files.

 Level 0 is the lock file itself and level n is the lock path with n `.break`
 suffixes.  Any number of agents (threads, or lock objects, of any number of
 processes) run `acquire` and `release` one file operation at a time, in any
 interleaving; agents and processes may end at any moment.  The two halves of
 `readHolder`, reading the file and probing the PID, are separate steps, as
 they are in the source.
 */
module FileLockProtocol {
  import opened LockRecovery

  /** A lock file.  `creator` identifies the agent that linked it into place; no step reads it. */
  datatype File = File(pid: Pid, creator: nat)

  /**
   Where an agent stands.  The frames of `tryAcquire` below the active one are
   all suspended at their nested call, so the active level is the whole stack.
   */
  datatype Pc =
    | Idle
    | Create(level: nat, again: bool)
    | Read(level: nat, again: bool)
    | Probe(level: nat, again: bool, seen: Pid)
    | Recheck(level: nat)               // from here on the agent holds level + 1
    | Reprobe(level: nat, seen: Pid)
    | Unlink(level: nat)
    | Replace(level: nat)
    | FreeRead(level: nat, mine: bool)  // releasing `level`; `mine`: the level below was taken
    | FreeUnlink(level: nat, mine: bool)
    | Owner

  datatype Agent = Agent(pid: Pid, pc: Pc)

  datatype State = State(files: map<nat, File>, live: set<Pid>, agents: map<nat, Agent>, next: nat)

  datatype Action =
    | Start(pid: Pid)        // a process starts, possibly reusing a dead process's PID
    | Spawn(pid: Pid)        // a live process gains an agent
    | EndAgent(a: nat)       // an agent is terminated wherever it stands
    | EndProcess(pid: Pid)   // a process exits or crashes, with all its agents
    | Move(a: nat)           // an agent takes its next file operation

  /** The lock at `level` was taken: `acquire` is done, or the frame below goes on. */
  function Taken(level: nat): Pc {
    if level == 0 then Owner else Recheck(level - 1)
  }

  /** What follows the release of `level`. */
  function Freed(level: nat, mine: bool): Pc {
    if mine && level > 0 then Taken(level - 1) else Idle
  }

  predicate Enabled(s: State, act: Action) {
    match act
    case Start(pid) => pid > 0 && pid !in s.live
    case Spawn(pid) => pid in s.live
    case EndAgent(a) => a in s.agents
    case EndProcess(pid) => pid in s.live
    case Move(a) => a in s.agents
  }

  function At(s: State, a: nat, pc: Pc): State
    requires a in s.agents
  {
    s.(agents := s.agents[a := s.agents[a].(pc := pc)])
  }

  /** Link a file naming agent `a` at `level`. */
  function Link(s: State, a: nat, level: nat): State
    requires a in s.agents
  {
    s.(files := s.files[level := File(s.agents[a].pid, a)])
  }

  function Remove(s: State, level: nat): State {
    s.(files := s.files - {level})
  }

  /** One file operation of agent `a`. */
  function MoveOf(s: State, a: nat): State
    requires a in s.agents
  {
    match s.agents[a].pc
    case Idle => At(s, a, Create(0, false))
    case Create(l, again) =>
      if l !in s.files then At(Link(s, a, l), a, Taken(l)) else At(s, a, Read(l, again))
    case Read(l, again) =>
      if l in s.files then At(s, a, Probe(l, again, s.files[l].pid))
      else At(s, a, if again then Idle else Create(l, true))
    case Probe(l, _, seen) =>
      At(s, a, if seen in s.live || l >= MAX_LOCK_BREAK_DEPTH then Idle else Create(l + 1, false))
    case Recheck(l) =>
      At(s, a, if l in s.files then Reprobe(l, s.files[l].pid) else Replace(l))
    case Reprobe(l, seen) => At(s, a, if seen in s.live then FreeRead(l + 1, false) else Unlink(l))
    case Unlink(l) => At(Remove(s, l), a, Replace(l))
    case Replace(l) =>
      if l !in s.files then At(Link(s, a, l), a, FreeRead(l + 1, true)) else At(s, a, FreeRead(l + 1, false))
    case FreeRead(l, mine) =>
      At(s, a, if l in s.files && s.files[l].pid == s.agents[a].pid then FreeUnlink(l, mine) else Freed(l, mine))
    case FreeUnlink(l, mine) => At(Remove(s, l), a, Freed(l, mine))
    case Owner => At(s, a, FreeRead(0, false))
  }

  function Next(s: State, act: Action): State
    requires Enabled(s, act)
  {
    match act
    case Start(pid) => s.(live := s.live + {pid})
    case Spawn(pid) => s.(agents := s.agents[s.next := Agent(pid, Idle)], next := s.next + 1)
    case EndAgent(a) => s.(agents := s.agents - {a})
    case EndProcess(pid) =>
      s.(live := s.live - {pid}, agents := map a | a in s.agents && s.agents[a].pid != pid :: s.agents[a])
    case Move(a) => MoveOf(s, a)
  }

  predicate EnabledRun(s: State, acts: seq<Action>)
    decreases |acts|
  {
    acts == [] || (Enabled(s, acts[0]) && EnabledRun(Next(s, acts[0]), acts[1..]))
  }

  function Exec(s: State, acts: seq<Action>): State
    requires EnabledRun(s, acts)
    decreases |acts|
  {
    if acts == [] then s else Exec(Next(s, acts[0]), acts[1..])
  }

  /** No agent yet; whatever lock files earlier processes left behind. */
  predicate Init(s: State) {
    && s.agents == map[]
    && 0 !in s.live
    && forall l :: l in s.files ==> l <= MAX_LOCK_BREAK_DEPTH && s.files[l].creator < s.next
  }

  // ----- what is promised -----

  /** The agent's code believes it holds the lock at level `l`. */
  predicate Holds(pc: Pc, l: nat) {
    match pc
    case Recheck(k) => l == k + 1
    case Reprobe(k, _) => l == k + 1
    case Unlink(k) => l == k + 1
    case Replace(k) => l == k + 1
    case FreeRead(k, mine) => l == k || (mine && l + 1 == k)
    case FreeUnlink(k, mine) => l == k || (mine && l + 1 == k)
    case Owner => l == 0
    case _ => false
  }

  predicate Holder(s: State, a: nat, l: nat) {
    a in s.agents && Holds(s.agents[a].pc, l)
  }

  ghost predicate HeldByAgent(s: State, l: nat) {
    exists b :: Holder(s, b, l)
  }

  /** At most one live agent holds each level. */
  ghost predicate MutualExclusion(s: State) {
    forall a, b, l :: Holder(s, a, l) && Holder(s, b, l) ==> a == b
  }

  /** A takeover about to unlink a file finds it there, and nobody alive holds it. */
  ghost predicate UnlinksOnlyStale(s: State) {
    forall a :: a in s.agents && s.agents[a].pc.Unlink? ==>
      s.agents[a].pc.level in s.files && !HeldByAgent(s, s.agents[a].pc.level)
  }

  /** Between attempts an agent has left no file at any level, except level 0 when it owns the lock. */
  ghost predicate NothingLeftBehind(s: State) {
    forall a, l :: a in s.agents && l in s.files && s.files[l].creator == a ==>
      !s.agents[a].pc.Idle? && (s.agents[a].pc.Owner? ==> l == 0)
  }

  ghost predicate Safe(s: State) {
    MutualExclusion(s) && UnlinksOnlyStale(s) && NothingLeftBehind(s)
  }

  // ----- the inductive invariant -----

  predicate LevelOk(pc: Pc) {
    match pc
    case Idle => true
    case Owner => true
    case Recheck(l) => l < MAX_LOCK_BREAK_DEPTH
    case Reprobe(l, _) => l < MAX_LOCK_BREAK_DEPTH
    case Unlink(l) => l < MAX_LOCK_BREAK_DEPTH
    case Replace(l) => l < MAX_LOCK_BREAK_DEPTH
    case _ => pc.level <= MAX_LOCK_BREAK_DEPTH
  }

  /** A file whose creator is alive is held by it, and names its process. */
  ghost predicate Owned(s: State) {
    && (forall a :: a in s.agents ==> a < s.next)
    && (forall l :: l in s.files ==> s.files[l].creator < s.next)
    && (forall l :: l in s.files && s.files[l].creator in s.agents ==>
          Holder(s, s.files[l].creator, l) && s.files[l].pid == s.agents[s.files[l].creator].pid)
  }

  /** From level `k` on, what is held is there and is the holder's, and what is about to be unlinked is nobody's. */
  ghost predicate InvFrom(s: State, k: nat) {
    && Owned(s)
    && 0 !in s.live
    && (forall a :: a in s.agents ==> s.agents[a].pid in s.live && LevelOk(s.agents[a].pc))
    && (forall l :: l in s.files ==> l <= MAX_LOCK_BREAK_DEPTH)
    && (forall a, l :: l >= k && Holder(s, a, l) ==> l in s.files && s.files[l].creator == a)
    && (forall a :: a in s.agents && s.agents[a].pc.Unlink? && s.agents[a].pc.level >= k ==>
          s.agents[a].pc.level in s.files && s.files[s.agents[a].pc.level].creator !in s.agents)
  }

  ghost predicate Inv(s: State) {
    InvFrom(s, 0)
  }

  /**
   The one place where the split of `readHolder` matters: a stale verdict, here
   on level `k` or one above, reached while holding the break lock.  It is sound
   when the file is still there and no live agent holds it.
   */
  ghost predicate SoundVerdictFrom(s: State, act: Action, k: nat) {
    act.Move? && act.a in s.agents && s.agents[act.a].pc.Reprobe? && s.agents[act.a].pc.seen !in s.live &&
    s.agents[act.a].pc.level >= k ==>
      s.agents[act.a].pc.level in s.files && !HeldByAgent(s, s.agents[act.a].pc.level)
  }

  ghost predicate SoundVerdict(s: State, act: Action) {
    SoundVerdictFrom(s, act, 0)
  }

  ghost predicate SoundRunFrom(s: State, acts: seq<Action>, k: nat)
    requires EnabledRun(s, acts)
    decreases |acts|
  {
    acts == [] || (SoundVerdictFrom(s, acts[0], k) && SoundRunFrom(Next(s, acts[0]), acts[1..], k))
  }

  ghost predicate SoundRun(s: State, acts: seq<Action>)
    requires EnabledRun(s, acts)
  {
    SoundRunFrom(s, acts, 0)
  }

  lemma InitInv(s: State)
    requires Init(s)
    ensures Inv(s)
  {}

  lemma InvImpliesSafe(s: State)
    requires Inv(s)
    ensures Safe(s)
  {}

  // ----- in every run -----

  lemma EnvironmentKeepsOwned(s: State, act: Action)
    requires Owned(s) && Enabled(s, act) && !act.Move?
    ensures Owned(Next(s, act))
  {
    var t := Next(s, act);
    forall l | l in t.files && t.files[l].creator in t.agents
      ensures Holder(t, t.files[l].creator, l)
    {
      assert Holder(s, s.files[l].creator, l);
    }
  }

  /** What becomes of one file in a move: linked by the agent, removed, or as it was. */
  lemma MoveKeepsOwner(s: State, a: nat, l: nat)
    requires Owned(s) && a in s.agents && l in MoveOf(s, a).files
    ensures var t := MoveOf(s, a);
      && t.files[l].creator < t.next
      && (t.files[l].creator in t.agents ==>
            Holder(t, t.files[l].creator, l) && t.files[l].pid == t.agents[t.files[l].creator].pid)
  {
    assert l in s.files && s.files[l].creator in s.agents ==> Holder(s, s.files[l].creator, l);
  }

  /** Sound or not, a step leaves a file with its holder. */
  lemma StepKeepsOwned(s: State, act: Action)
    requires Owned(s) && Enabled(s, act)
    ensures Owned(Next(s, act))
  {
    if !act.Move? {
      EnvironmentKeepsOwned(s, act);
    } else {
      forall l | l in Next(s, act).files {
        MoveKeepsOwner(s, act.a, l);
      }
    }
  }

  lemma {:induction false} RunKeepsOwned(s: State, acts: seq<Action>)
    requires Owned(s) && EnabledRun(s, acts)
    ensures Owned(Exec(s, acts))
    decreases |acts|
  {
    if acts != [] {
      StepKeepsOwned(s, acts[0]);
      RunKeepsOwned(Next(s, acts[0]), acts[1..]);
    }
  }

  /**
   In every run, whatever its verdicts: after an attempt or a release an agent
   has left no file behind, at any level, but for the lock it owns.
   */
  lemma NothingIsEverLeftBehind(s: State, acts: seq<Action>)
    requires Init(s) && EnabledRun(s, acts)
    ensures NothingLeftBehind(Exec(s, acts))
  {
    RunKeepsOwned(s, acts);
  }

  // ----- one step -----

  /** From level `k` on a file without a live creator is a file nobody alive holds. */
  lemma UnheldIffCreatorGone(s: State, l: nat, k: nat)
    requires InvFrom(s, k) && l in s.files && l >= k
    ensures HeldByAgent(s, l) <==> s.files[l].creator in s.agents
  {
    if s.files[l].creator in s.agents {
      assert Holder(s, s.files[l].creator, l);
    }
  }

  lemma EnvironmentKeepsInv(s: State, act: Action, k: nat)
    requires InvFrom(s, k) && Enabled(s, act) && !act.Move?
    ensures InvFrom(Next(s, act), k)
  {
    var t := Next(s, act);
    StepKeepsOwned(s, act);
    forall a, l | Holder(t, a, l)
      ensures Holder(s, a, l)
    {
    }
  }

  /** The level whose file a move links or removes, if any. */
  predicate Links(s: State, a: nat, l: nat)
    requires a in s.agents
  {
    l !in s.files && (s.agents[a].pc.Create? || s.agents[a].pc.Replace?) && l == s.agents[a].pc.level
  }

  predicate Removes(s: State, a: nat, l: nat)
    requires a in s.agents
  {
    (s.agents[a].pc.Unlink? || s.agents[a].pc.FreeUnlink?) && l == s.agents[a].pc.level
  }

  /** A move changes at most one file, and what the agent holds changes with it. */
  lemma MoveEffect(s: State, a: nat, l: nat, k: nat)
    requires InvFrom(s, k) && a in s.agents
    ensures var t := MoveOf(s, a);
      && (l in t.files <==> Links(s, a, l) || (l in s.files && !Removes(s, a, l)))
      && (l in t.files ==> t.files[l] == if Links(s, a, l) then File(s.agents[a].pid, a) else s.files[l])
      && (l >= k ==> (Holder(t, a, l) <==> Links(s, a, l) || (Holder(s, a, l) && !Removes(s, a, l))))
  {
    var pc := s.agents[a].pc;
    if pc.FreeRead? {
      assert Holder(s, a, pc.level);
    }
  }

  /** Nobody but the agent that removes a file holds it or is about to unlink it. */
  lemma OnlyHolderRemoves(s: State, a: nat, l: nat, b: nat, k: nat)
    requires InvFrom(s, k) && a in s.agents && Removes(s, a, l) && b != a && l >= k
    ensures !Holder(s, b, l)
    ensures b in s.agents ==> s.agents[b].pc != Unlink(l)
  {
    if s.agents[a].pc.FreeUnlink? {
      assert Holder(s, a, l);
    } else {
      assert Holder(s, a, l + 1);
      assert b in s.agents && s.agents[b].pc == Unlink(l) ==> Holder(s, b, l + 1);
    }
  }

  /** `t` differs from `s` as a move of `a` may make it differ. */
  ghost predicate Moved(s: State, a: nat, t: State, k: nat) {
    && a in s.agents && a in t.agents
    && t.live == s.live && t.next == s.next
    && t.agents == s.agents[a := Agent(s.agents[a].pid, t.agents[a].pc)]
    && LevelOk(t.agents[a].pc)
    && (forall l :: l in t.files <==> Links(s, a, l) || (l in s.files && !Removes(s, a, l)))
    && (forall l :: l in t.files ==> t.files[l] == if Links(s, a, l) then File(s.agents[a].pid, a) else s.files[l])
    && (forall l :: l >= k ==> (Holder(t, a, l) <==> Links(s, a, l) || (Holder(s, a, l) && !Removes(s, a, l))))
    && (t.agents[a].pc.Unlink? && t.agents[a].pc.level >= k ==>
          t.agents[a].pc.level in t.files && t.files[t.agents[a].pc.level].creator !in t.agents)
  }

  lemma SoundMoveMoves(s: State, a: nat, k: nat)
    requires InvFrom(s, k) && a in s.agents && SoundVerdictFrom(s, Move(a), k)
    ensures Moved(s, a, MoveOf(s, a), k)
  {
    forall l {
      MoveEffect(s, a, l, k);
    }
    var pc := s.agents[a].pc;
    if pc.Reprobe? && pc.level in s.files && pc.level >= k {
      UnheldIffCreatorGone(s, pc.level, k);
    }
  }

  lemma MovedKeepsHolders(s: State, a: nat, t: State, k: nat, b: nat, l: nat)
    requires InvFrom(s, k) && Moved(s, a, t, k) && l >= k && Holder(t, b, l)
    ensures l in t.files && t.files[l].creator == b
  {
    if b != a {
      assert Holder(s, b, l);
      if Removes(s, a, l) {
        OnlyHolderRemoves(s, a, l, b, k);
      }
    }
  }

  lemma MovedKeepsUnlinks(s: State, a: nat, t: State, k: nat, b: nat)
    requires InvFrom(s, k) && Moved(s, a, t, k)
    requires b in t.agents && t.agents[b].pc.Unlink? && t.agents[b].pc.level >= k
    ensures t.agents[b].pc.level in t.files && t.files[t.agents[b].pc.level].creator !in t.agents
  {
    var l := t.agents[b].pc.level;
    if b != a && Removes(s, a, l) {
      OnlyHolderRemoves(s, a, l, b, k);
    }
  }

  lemma MovedKeepsInv(s: State, a: nat, t: State, k: nat)
    requires InvFrom(s, k) && Moved(s, a, t, k) && Owned(t)
    ensures InvFrom(t, k)
  {
    forall b, l | l >= k && Holder(t, b, l) {
      MovedKeepsHolders(s, a, t, k, b, l);
    }
    forall b | b in t.agents && t.agents[b].pc.Unlink? && t.agents[b].pc.level >= k {
      MovedKeepsUnlinks(s, a, t, k, b);
    }
  }

  /** From any level on, a step keeps the invariant exactly when it is not an unsound verdict there. */
  lemma StepKeepsInvFromIff(s: State, act: Action, k: nat)
    requires InvFrom(s, k) && Enabled(s, act)
    ensures InvFrom(Next(s, act), k) <==> SoundVerdictFrom(s, act, k)
  {
    StepKeepsOwned(s, act);
    if !act.Move? {
      EnvironmentKeepsInv(s, act, k);
    } else if SoundVerdictFrom(s, act, k) {
      SoundMoveMoves(s, act.a, k);
      MovedKeepsInv(s, act.a, Next(s, act), k);
    } else {
      var l := s.agents[act.a].pc.level;
      assert Next(s, act).agents[act.a].pc == Unlink(l);
      if l in s.files {
        UnheldIffCreatorGone(s, l, k);
      }
    }
  }

  /** Every step keeps the whole invariant exactly when it is not an unsound verdict. */
  lemma StepKeepsInvIff(s: State, act: Action)
    requires Inv(s) && Enabled(s, act)
    ensures Inv(Next(s, act)) <==> SoundVerdict(s, act)
  {
    StepKeepsInvFromIff(s, act, 0);
  }

  // ----- sound runs -----

  lemma {:induction false} RunKeepsInvFrom(s: State, acts: seq<Action>, k: nat)
    requires InvFrom(s, k) && EnabledRun(s, acts) && SoundRunFrom(s, acts, k)
    ensures InvFrom(Exec(s, acts), k)
    decreases |acts|
  {
    if acts != [] {
      StepKeepsInvFromIff(s, acts[0], k);
      RunKeepsInvFrom(Next(s, acts[0]), acts[1..], k);
    }
  }

  lemma RunKeepsInv(s: State, acts: seq<Action>)
    requires Inv(s) && EnabledRun(s, acts) && SoundRun(s, acts)
    ensures Inv(Exec(s, acts))
  {
    RunKeepsInvFrom(s, acts, 0);
  }

  /** From level `k` on at most one live agent holds each level, and takeovers there unlink only what nobody holds. */
  ghost predicate SafeFrom(s: State, k: nat) {
    && (forall a, b, l :: l >= k && Holder(s, a, l) && Holder(s, b, l) ==> a == b)
    && (forall a :: a in s.agents && s.agents[a].pc.Unlink? && s.agents[a].pc.level >= k ==>
          s.agents[a].pc.level in s.files && !HeldByAgent(s, s.agents[a].pc.level))
  }

  /**
   Level by level: a level is safe because those above it are.  Unsound verdicts
   below level `k` do no harm from `k` on.
   */
  lemma LevelsAreSafe(s: State, acts: seq<Action>, k: nat)
    requires Init(s) && EnabledRun(s, acts) && SoundRunFrom(s, acts, k)
    ensures SafeFrom(Exec(s, acts), k)
  {
    assert InvFrom(s, k);
    RunKeepsInvFrom(s, acts, k);
  }

  /** There is no verdict on the last level, which is never broken. */
  lemma {:induction false} NoVerdictOnLastLevel(s: State, acts: seq<Action>)
    requires InvFrom(s, MAX_LOCK_BREAK_DEPTH) && EnabledRun(s, acts)
    ensures SoundRunFrom(s, acts, MAX_LOCK_BREAK_DEPTH)
    decreases |acts|
  {
    if acts != [] {
      StepKeepsInvFromIff(s, acts[0], MAX_LOCK_BREAK_DEPTH);
      NoVerdictOnLastLevel(Next(s, acts[0]), acts[1..]);
    }
  }

  /** So in every run, whatever its verdicts, at most one live agent holds the last level. */
  lemma LastLevelIsExclusive(s: State, acts: seq<Action>, a: nat, b: nat)
    requires Init(s) && EnabledRun(s, acts)
    requires Holder(Exec(s, acts), a, MAX_LOCK_BREAK_DEPTH) && Holder(Exec(s, acts), b, MAX_LOCK_BREAK_DEPTH)
    ensures a == b
  {
    NoVerdictOnLastLevel(s, acts);
    LevelsAreSafe(s, acts, MAX_LOCK_BREAK_DEPTH);
  }

  /**
   Main result.  From any leftovers on disk, whatever any number of agents and
   processes do and wherever they stop: as long as no stale verdict under a
   break lock is unsound, at most one agent holds each level, a takeover
   unlinks only files nobody alive holds, and no attempt leaves a file behind.
   */
  lemma SoundRunsAreSafe(s: State, acts: seq<Action>)
    requires Init(s) && EnabledRun(s, acts) && SoundRun(s, acts)
    ensures Safe(Exec(s, acts))
  {
    InitInv(s);
    RunKeepsInv(s, acts);
    InvImpliesSafe(Exec(s, acts));
  }

  // ----- runs put together -----

  lemma {:induction false} ExecAppend(s: State, xs: seq<Action>, ys: seq<Action>)
    requires EnabledRun(s, xs) && EnabledRun(Exec(s, xs), ys)
    ensures EnabledRun(s, xs + ys) && Exec(s, xs + ys) == Exec(Exec(s, xs), ys)
    ensures SoundRun(s, xs) && SoundRun(Exec(s, xs), ys) ==> SoundRun(s, xs + ys)
    decreases |xs|
  {
    if xs == [] {
      assert xs + ys == ys;
    } else {
      assert (xs + ys)[1..] == xs[1..] + ys;
      ExecAppend(Next(s, xs[0]), xs[1..], ys);
    }
  }

  lemma ExecOne(s: State, act: Action)
    requires Enabled(s, act)
    ensures EnabledRun(s, [act]) && Exec(s, [act]) == Next(s, act)
    ensures SoundRun(s, [act]) <==> SoundVerdict(s, act)
  {
    assert [act][1..] == [];
    assert EnabledRun(Next(s, act), []) && SoundRunFrom(Next(s, act), [], 0);
  }

  lemma ExecCons(s: State, act: Action, acts: seq<Action>)
    requires Enabled(s, act) && EnabledRun(Next(s, act), acts)
    ensures EnabledRun(s, [act] + acts) && Exec(s, [act] + acts) == Exec(Next(s, act), acts)
    ensures SoundRun(s, [act] + acts) <==> SoundVerdict(s, act) && SoundRun(Next(s, act), acts)
  {
    assert ([act] + acts)[1..] == acts;
  }

  lemma TwoSteps(s: State, first: Action, second: Action)
    requires Enabled(s, first) && Enabled(Next(s, first), second)
    ensures EnabledRun(s, [first, second]) && Exec(s, [first, second]) == Next(Next(s, first), second)
    ensures SoundRun(s, [first, second]) <==> SoundVerdict(s, first) && SoundVerdict(Next(s, first), second)
  {
    ExecOne(Next(s, first), second);
    ExecCons(s, first, [second]);
    assert [first, second] == [first] + [second];
  }

  ghost predicate Reaches(s: State, acts: seq<Action>, t: State) {
    EnabledRun(s, acts) && SoundRun(s, acts) && Exec(s, acts) == t
  }

  lemma ReachesThen(s: State, xs: seq<Action>, t: State, ys: seq<Action>, u: State)
    requires Reaches(s, xs, t) && Reaches(t, ys, u)
    ensures Reaches(s, xs + ys, u)
  {
    ExecAppend(s, xs, ys);
  }

  // ----- the split of readHolder -----

  /** Reading the file and probing its PID without a step in between gives a sound verdict. */
  lemma AtomicReadIsSound(s: State, a: nat)
    requires Inv(s) && a in s.agents && s.agents[a].pc.Recheck?
    ensures SoundVerdict(MoveOf(s, a), Move(a))
  {
    var t := MoveOf(s, a);
    var l := s.agents[a].pc.level;
    if l in s.files && s.files[l].pid !in s.live {
      UnheldIffCreatorGone(s, l, 0);
      forall b
        ensures Holder(t, b, l) ==> Holder(s, b, l)
      {
      }
    }
  }

  /**
   Every `readHolder` under a break lock runs as one step: after a read that
   found a file the agent's probe comes next, unless the agent ends there.
   Where the read finds no file there is no probe, and others may move.
   */
  ghost predicate AtomicSchedule(s: State, acts: seq<Action>)
    requires EnabledRun(s, acts)
    decreases |acts|
  {
    acts == [] ||
    (&& AtomicSchedule(Next(s, acts[0]), acts[1..])
     && (StopsBetween(s, acts[0]) && |acts| > 1 ==> Probes(Next(s, acts[0]), acts[0].a, acts[1])))
  }

  /** The step takes its agent between the read and the probe. */
  predicate StopsBetween(s: State, act: Action) {
    act.Move? && act.a in s.agents && s.agents[act.a].pc.Recheck? && MoveOf(s, act.a).agents[act.a].pc.Reprobe?
  }

  /** The step is the probe of `a`, or ends it. */
  predicate Probes(s: State, a: nat, act: Action)
    requires Enabled(s, act)
  {
    act == Move(a) || a !in Next(s, act).agents
  }

  /** Nobody stands between the two halves, except perhaps `a`. */
  ghost predicate NobodyBetween(s: State, a: nat) {
    forall b :: b in s.agents && s.agents[b].pc.Reprobe? ==> b == a
  }

  lemma {:induction false} AtomicSchedulesAreSound(s: State, acts: seq<Action>)
    requires Inv(s) && EnabledRun(s, acts) && AtomicSchedule(s, acts)
    requires NobodyBetween(s, s.next)
    ensures SoundRun(s, acts)
    decreases |acts|
  {
    if acts != [] {
      var t := Next(s, acts[0]);
      StepKeepsInvIff(s, acts[0]);
      if StopsBetween(s, acts[0]) && |acts| > 1 {
        ProbeEndsBetween(s, acts[0], acts[1]);
        assert acts[1..][1..] == acts[2..];
        AtomicSchedulesAreSound(Next(t, acts[1]), acts[2..]);
      } else if |acts| > 1 {
        NobodyComesBetween(s, acts[0]);
        AtomicSchedulesAreSound(t, acts[1..]);
      }
    }
  }

  lemma NobodyComesBetween(s: State, act: Action)
    requires Enabled(s, act) && NobodyBetween(s, s.next) && !StopsBetween(s, act) && Owned(s)
    ensures NobodyBetween(Next(s, act), Next(s, act).next)
  {}

  /** The read and the step after it take a sound verdict and leave nobody between the two. */
  lemma ProbeEndsBetween(s: State, read: Action, probe: Action)
    requires Inv(s) && Enabled(s, read) && StopsBetween(s, read) && NobodyBetween(s, s.next)
    requires Enabled(Next(s, read), probe) && Probes(Next(s, read), read.a, probe)
    ensures var t := Next(s, read);
      Inv(t) && SoundVerdict(t, probe) && Inv(Next(t, probe)) && NobodyBetween(Next(t, probe), Next(t, probe).next)
  {
    var t := Next(s, read);
    StepKeepsInvIff(s, read);
    AtomicReadIsSound(s, read.a);
    StepKeepsInvIff(t, probe);
  }

  /** If `readHolder` were atomic the lock would be safe in every run. */
  lemma AtomicReadsAreSafe(s: State, acts: seq<Action>)
    requires Init(s) && EnabledRun(s, acts) && AtomicSchedule(s, acts)
    ensures Safe(Exec(s, acts))
  {
    InitInv(s);
    AtomicSchedulesAreSound(s, acts);
    SoundRunsAreSafe(s, acts);
  }
}
