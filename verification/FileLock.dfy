/**
 `FileLock` of src/utils.ts as the object it is.  Other processes may run
 between any two file operations.  In every directory what the object does to
 the files is what an agent of FileLockProtocol does, move by move; and in a
 quiet directory, one that the others leave alone, the result is stated outright.
 */
module FileLock {
  import opened LockRecovery
  import opened Options
  import opened FileLockProgress
  import P = FileLockProtocol

  /** The answer of `readHolder`. */
  datatype LockHolder = Free | Held(pid: Option<Pid>) | Stale

  /** The directory the lock files live in, the processes that are alive, and the run that led here. */
  class LockDir {
    var files: Files
    var live: set<Pid>
    const quiet: bool
    ghost const start: P.State
    ghost var run: seq<P.Action>
    ghost var state: P.State

    ghost predicate Valid()
      reads this
    {
      Runs() && files == Pids(state.files) && live == state.live
    }

    ghost predicate Runs()
      reads this
    {
      P.EnabledRun(start, run) && P.Exec(start, run) == state
    }

    constructor (files: Files, live: set<Pid>, quiet: bool, ghost start: P.State)
      requires files == Pids(start.files) && live == start.live
      ensures this.files == files && this.live == live && this.quiet == quiet
      ensures this.start == start == state && run == [] && Valid()
    {
      this.files, this.live, this.quiet, this.start := files, live, quiet, start;
      run, state := [], start;
    }

    /** Other agents run here, `a` does not; callers know no more, but that a quiet directory stays as it was. */
    method Elsewhere(ghost a: nat)
      requires Valid() && a in state.agents
      modifies this
      ensures Valid() && old(run) <= run && P.Move(a) !in run[|old(run)|..]
      ensures a in state.agents && state.agents[a] == old(state.agents[a])
      ensures quiet ==> files == old(files) && live == old(live) && state == old(state)
    {
    }

    /** The run goes on by one action. */
    ghost method Log(act: P.Action)
      requires Runs() && P.Enabled(state, act)
      modifies this`run, this`state
      ensures Runs() && run == old(run) + [act] && state == P.Next(old(state), act)
    {
      P.ExecOne(state, act);
      P.ExecAppend(start, run, [act]);
      run, state := run + [act], P.Next(state, act);
    }
  }

  /** Where an agent stands after a create. */
  function AfterCreate(pc: P.Pc, ok: bool): P.Pc {
    match pc
    case Create(l, again) => if ok then P.Taken(l) else P.Read(l, again)
    case Replace(l) => P.FreeRead(l + 1, ok)
    case _ => pc
  }

  /** And after reading who holds the lock; the last read of a lost replacement is no move. */
  function AfterRead(pc: P.Pc, holder: LockHolder): P.Pc {
    match pc
    case Read(l, again) => AfterFirstRead(l, again, holder)
    case Recheck(l) =>
      if holder.Free? then P.Replace(l) else if holder.Held? then P.FreeRead(l + 1, false) else P.Unlink(l)
    case _ => pc
  }

  function AfterFirstRead(l: nat, again: bool, holder: LockHolder): P.Pc {
    match holder
    case Free => if again then P.Idle else P.Create(l, true)
    case Held(_) => P.Idle
    case Stale => if l >= MAX_LOCK_BREAK_DEPTH then P.Idle else P.Create(l + 1, false)
  }

  /** The read and the probe of it, one by one. */
  function AfterLook(pc: P.Pc, content: Option<Pid>): P.Pc {
    match pc
    case Read(l, again) => if content.None? then AfterFirstRead(l, again, Free) else P.Probe(l, again, content.value)
    case Recheck(l) => if content.None? then P.Replace(l) else P.Reprobe(l, content.value)
    case _ => pc
  }

  function AfterProbe(pc: P.Pc, alive: bool): P.Pc {
    match pc
    case Probe(l, again, who) => AfterFirstRead(l, again, if alive then Held(Some(who)) else Stale)
    case Reprobe(l, _) => if alive then P.FreeRead(l + 1, false) else P.Unlink(l)
    case _ => pc
  }

  /** After an unlink, of a takeover or of a release. */
  function AfterUnlink(pc: P.Pc): P.Pc {
    match pc
    case Unlink(l) => P.Replace(l)
    case FreeUnlink(l, mine) => P.Freed(l, mine)
    case _ => pc
  }

  /** And after a release. */
  function AfterRelease(pc: P.Pc): P.Pc {
    match pc
    case FreeRead(l, mine) => P.Freed(l, mine)
    case _ => P.Idle
  }

  class Lock {
    const dir: LockDir
    const level: nat         // how many `.break` suffixes the path has
    const pid: Pid           // process.pid
    ghost const agent: nat   // who runs this code
    var held: bool

    ghost predicate Valid()
      reads this, dir
    {
      dir.Valid() && agent in dir.state.agents && dir.state.agents[agent].pid == pid
    }

    /** Where the code stands. */
    ghost function Pc(): P.Pc
      reads this, dir
      requires Valid()
    {
      dir.state.agents[agent].pc
    }

    constructor (dir: LockDir, level: nat, pid: Pid, ghost agent: nat)
      ensures this.dir == dir && this.level == level && this.pid == pid && this.agent == agent && !held
    {
      this.dir, this.level, this.pid, this.agent := dir, level, pid, agent;
      held := false;
    }

    /** Makes the lock file, with the PID in it, unless there is one. */
    method Create() returns (ok: bool)
      requires Valid() && (Pc().Create? || Pc().Replace?) && Pc().level == level
      modifies dir
      ensures Valid() && old(dir.run) <= dir.run && Pc() == AfterCreate(old(Pc()), ok)
      ensures dir.quiet ==> dir.live == old(dir.live)
      ensures dir.quiet ==> (ok <==> level !in old(dir.files))
      ensures dir.quiet ==> (dir.files == if ok then old(dir.files)[level := pid] else old(dir.files))
    {
      dir.Elsewhere(agent);
      ok := level !in dir.files;
      if ok {
        dir.files := dir.files[level := pid];
      }
      dir.Log(P.Move(agent));
    }

    method ReadHolder() returns (holder: LockHolder)
      requires Valid() && (Pc().Read? || Pc().Recheck? ==> Pc().level == level)
      requires !Pc().Probe? && !Pc().Reprobe?
      modifies dir
      ensures Valid() && old(dir.run) <= dir.run && Pc() == AfterRead(old(Pc()), holder)
      ensures dir.quiet ==> dir.live == old(dir.live) && dir.files == old(dir.files)
      ensures dir.quiet ==> holder == HolderOf(dir.files, dir.live, level)
    {
      var content := ReadPid();
      if content.None? {
        return Free;
      }
      var alive := IsAlive(content.value);
      return if alive then Held(content) else Stale;
    }

    /** The PID in the lock file, if there is one. */
    method ReadPid() returns (content: Option<Pid>)
      requires Valid() && (Pc().Read? || Pc().Recheck? ==> Pc().level == level)
      requires !Pc().Probe? && !Pc().Reprobe?
      modifies dir
      ensures Valid() && old(dir.run) <= dir.run && Pc() == AfterLook(old(Pc()), content)
      ensures dir.quiet ==> dir.live == old(dir.live) && dir.files == old(dir.files)
      ensures dir.quiet ==> content == if level in dir.files then Some(dir.files[level]) else None
    {
      dir.Elsewhere(agent);
      content := if level in dir.files then Some(dir.files[level]) else None;
      if Pc().Read? || Pc().Recheck? {
        dir.Log(P.Move(agent));
      }
    }

    /** Whether the process read of is alive, as its probe says. */
    method IsAlive(who: Pid) returns (alive: bool)
      requires Valid() && (Pc().Probe? || Pc().Reprobe? ==> Pc().seen == who)
      modifies dir
      ensures Valid() && old(dir.run) <= dir.run && Pc() == AfterProbe(old(Pc()), alive)
      ensures dir.quiet ==> dir.live == old(dir.live) && dir.files == old(dir.files)
      ensures dir.quiet ==> (alive <==> who in dir.live)
    {
      dir.Elsewhere(agent);
      alive := who in dir.live;
      if Pc().Probe? || Pc().Reprobe? {
        dir.Log(P.Move(agent));
      }
    }

    /** Unlinks the lock that was judged stale, or that was seen to be this process's. */
    method Unlink()
      requires Valid() && (Pc().Unlink? || Pc().FreeUnlink?) && Pc().level == level
      modifies dir
      ensures Valid() && old(dir.run) <= dir.run && Pc() == AfterUnlink(old(Pc()))
      ensures dir.quiet ==> dir.live == old(dir.live) && dir.files == old(dir.files) - {level}
    {
      dir.Elsewhere(agent);
      dir.files := dir.files - {level};
      dir.Log(P.Move(agent));
    }

    /** Whether the file names this process, as a release looks. */
    method NamesUs() returns (mine: bool)
      requires Valid() && Pc().FreeRead? && Pc().level == level
      modifies dir
      ensures Valid() && old(dir.run) <= dir.run
      ensures Pc() == if mine then P.FreeUnlink(level, old(Pc()).mine) else P.Freed(level, old(Pc()).mine)
      ensures dir.quiet ==> dir.live == old(dir.live) && dir.files == old(dir.files)
      ensures dir.quiet ==> (mine <==> level in dir.files && dir.files[level] == pid)
    {
      dir.Elsewhere(agent);
      mine := level in dir.files && dir.files[level] == pid;
      dir.Log(P.Move(agent));
    }

    /** Tries for the lock, over its break locks where it is stale; the answer is the refusal, if there is one. */
    method TryAcquire(depth: nat) returns (refusal: Option<LockHolder>)
      requires depth == level <= MAX_LOCK_BREAK_DEPTH && !held
      requires Valid() && Pc() == P.Create(level, false)
      modifies this, dir
      ensures Valid() && old(dir.run) <= dir.run && Pc() == if refusal.None? then P.Taken(level) else P.Idle
      ensures held <==> refusal.None?
      ensures dir.quiet ==> dir.live == old(dir.live)
      ensures dir.quiet ==> refusal == RefusalOf(old(dir.files), dir.live, level)
      ensures dir.quiet ==> dir.files == FilesAfter(old(dir.files), dir.live, level, pid)
      decreases MAX_LOCK_BREAK_DEPTH - depth, 1
    {
      var created := Create();
      if created {
        assert dir.quiet ==> dir.files == Recovered(old(dir.files), level, level, pid);
        refusal := Taken();
        return;
      }
      var holder := ReadHolder();
      if holder.Free? {
        created := Create();
        if created {
          refusal := Taken();
          return;
        }
        holder := ReadHolder();
      }
      if !holder.Stale? {
        return Some(holder);
      }
      if depth >= MAX_LOCK_BREAK_DEPTH {
        return Some(Held(None));
      }
      refusal := Break(depth);
    }

    /** The rest of an attempt that found the lock stale: replace it under the break lock. */
    method Break(depth: nat) returns (refusal: Option<LockHolder>)
      requires depth == level < MAX_LOCK_BREAK_DEPTH && !held
      requires Valid() && Pc() == P.Create(level + 1, false)
      requires dir.quiet ==> level in dir.files && dir.files[level] !in dir.live
      modifies this, dir
      ensures Valid() && old(dir.run) <= dir.run && Pc() == if refusal.None? then P.Taken(level) else P.Idle
      ensures held <==> refusal.None?
      ensures dir.quiet ==> dir.live == old(dir.live)
      ensures dir.quiet ==> refusal == RefusalOf(old(dir.files), dir.live, level)
      ensures dir.quiet ==> dir.files == FilesAfter(old(dir.files), dir.live, level, pid)
      decreases MAX_LOCK_BREAK_DEPTH - depth, 0
    {
      if dir.quiet {
        BreakRecovers(dir.files, dir.live, level, pid);
      }
      var breaker := new Lock(dir, level + 1, pid, agent);
      refusal := breaker.TryAcquire(depth + 1);
      if refusal.None? {
        refusal := ReplaceUnder(breaker);
      }
    }

    /** Replaces the lock under the break lock, and releases that. */
    method ReplaceUnder(breaker: Lock) returns (refusal: Option<LockHolder>)
      requires breaker != this && breaker.dir == dir && breaker.agent == agent && breaker.pid == pid
      requires breaker.level == level + 1 && breaker.held && !held
      requires Valid() && Pc() == P.Recheck(level)
      modifies this, breaker, dir
      ensures Valid() && old(dir.run) <= dir.run && Pc() == if refusal.None? then P.Taken(level) else P.Idle
      ensures held <==> refusal.None?
      ensures dir.quiet ==> dir.live == old(dir.live)
      ensures dir.quiet ==> (refusal.None? <==> !HolderOf(old(dir.files), dir.live, level).Held?)
      ensures dir.quiet && refusal.None? && level + 1 in old(dir.files) && old(dir.files)[level + 1] == pid ==>
        dir.files == old(dir.files)[level := pid] - {level + 1}
    {
      refusal := Replace();
      breaker.Release();
    }

    /** Once the break lock is ours: read again, and replace a lock still stale. */
    method Replace() returns (refusal: Option<LockHolder>)
      requires !held && Valid() && Pc() == P.Recheck(level)
      modifies this, dir
      ensures Valid() && old(dir.run) <= dir.run && Pc() == P.FreeRead(level + 1, refusal.None?)
      ensures held <==> refusal.None?
      ensures dir.quiet ==> dir.live == old(dir.live)
      ensures dir.quiet ==> (refusal.None? <==> !HolderOf(old(dir.files), dir.live, level).Held?)
      ensures dir.quiet ==> (dir.files == if refusal.None? then old(dir.files)[level := pid] else old(dir.files))
    {
      var current := ReadHolder();
      if current.Held? {
        return Some(current);
      }
      if current.Stale? {
        Unlink();
      }
      var created := Create();
      if created {
        refusal := Taken();
      } else {
        current := ReadHolder();
        refusal := Some(current);
      }
    }

    /** Throws, here with the PID to report, if the lock is refused; else the agent is an owner. */
    method Acquire() returns (error: Option<Option<Pid>>)
      requires level == 0 && !held
      requires Valid() && Pc() == P.Idle
      modifies this, dir
      ensures Valid() && old(dir.run) <= dir.run && Pc() == if error.None? then P.Owner else P.Idle
      ensures held <==> error.None?
      ensures dir.quiet ==> (error.None? <==> RefusalOf(old(dir.files), dir.live, 0).None?)
      ensures dir.quiet ==> dir.files == FilesAfter(old(dir.files), dir.live, 0, pid)
      ensures dir.quiet && error.Some? && error.value.Some? ==> error.value.value in dir.live
    {
      dir.Log(P.Move(agent));
      var refusal := TryAcquire(0);
      match refusal
      case None => return None;
      case Some(Held(who)) => return Some(who);
      case Some(_) => return Some(None);
    }

    method Taken() returns (refusal: Option<LockHolder>)
      modifies this
      ensures held && refusal == None
    {
      held := true;
      return None;
    }

    /** Unlinks the file only if it still names this process. */
    method Release()
      requires Valid()
      requires held ==> (Pc() == P.Owner && level == 0) || (Pc().FreeRead? && Pc().level == level)
      modifies this, dir
      ensures Valid() && old(dir.run) <= dir.run
      ensures !held && Pc() == if old(held) then AfterRelease(old(Pc())) else old(Pc())
      ensures !old(held) ==> dir.files == old(dir.files) && dir.live == old(dir.live)
      ensures dir.quiet ==> dir.live == old(dir.live)
      ensures dir.quiet ==> (dir.files ==
        if old(held) && level in old(dir.files) && old(dir.files)[level] == pid then old(dir.files) - {level}
        else old(dir.files))
    {
      if !held {
        return;
      }
      if Pc().Owner? {
        dir.Log(P.Move(agent));
      }
      var mine := NamesUs();
      if mine {
        Unlink();
      }
      held := false;
    }
  }

  /**
   So what is proved of the protocol is proved of the objects: in a directory
   whose run is sound, two objects that are owners are one agent's.
   */
  lemma OwnerIsAlone(one: Lock, other: Lock)
    requires one.dir == other.dir && one.Valid() && other.Valid()
    requires P.Init(one.dir.start) && P.SoundRun(one.dir.start, one.dir.run)
    requires one.Pc() == P.Owner && other.Pc() == P.Owner
    ensures one.agent == other.agent
  {
    P.SoundRunsAreSafe(one.dir.start, one.dir.run);
    assert P.Holder(one.dir.state, one.agent, 0) && P.Holder(one.dir.state, other.agent, 0);
  }

  /** The lock files after an attempt at `level`. */
  function FilesAfter(files: Files, live: set<Pid>, level: nat, pid: Pid): Files
    requires level <= MAX_LOCK_BREAK_DEPTH + 1
  {
    if Recoverable(files, live, level) then Recovered(files, level, FirstNotStale(files, live, level), pid) else files
  }

  /** Over a stale lock: what is recovered one level up, with the lock replaced, is what is recovered here. */
  lemma BreakRecovers(files: Files, live: set<Pid>, level: nat, pid: Pid)
    requires level < MAX_LOCK_BREAK_DEPTH && level in files && files[level] !in live
    ensures RefusalOf(files, live, level) == RefusalOf(files, live, level + 1)
    ensures RefusalOf(files, live, level).None? ==>
      var mid := FilesAfter(files, live, level + 1, pid);
      !HolderOf(mid, live, level).Held? && mid[level := pid] - {level + 1} == FilesAfter(files, live, level, pid)
    ensures RefusalOf(files, live, level).Some? ==>
      FilesAfter(files, live, level, pid) == files == FilesAfter(files, live, level + 1, pid)
  {}

  function HolderOf(files: Files, live: set<Pid>, level: nat): LockHolder {
    if level !in files then Free else if files[level] in live then Held(Some(files[level])) else Stale
  }

  /** What an attempt at `level` answers: nothing, the live process in the way, or four stale levels. */
  function RefusalOf(files: Files, live: set<Pid>, level: nat): Option<LockHolder>
    requires level <= MAX_LOCK_BREAK_DEPTH + 1
  {
    var k := FirstNotStale(files, live, level);
    if k > MAX_LOCK_BREAK_DEPTH then Some(Held(None))
    else if k in files then Some(Held(Some(files[k])))
    else None
  }

  /**
   Crash recovery is exact: with k the lowest level whose file is absent, an
   attempt on the lock succeeds when all levels below k are stale, and then
   levels 1..k are absent, level 0 names the caller and higher levels are as
   they were.  It refuses, changing nothing, when a live process is met first
   or all four levels are stale.
   */
  lemma RecoveryIsExact(files: Files, live: set<Pid>, pid: Pid, k: nat)
    requires forall i :: 0 <= i < k ==> i in files
    requires k !in files
    ensures RefusalOf(files, live, 0).None? <==>
      k <= MAX_LOCK_BREAK_DEPTH && forall i :: 0 <= i < k ==> files[i] !in live
    ensures RefusalOf(files, live, 0) == Some(Held(None)) <==>
      k > MAX_LOCK_BREAK_DEPTH && forall i :: 0 <= i <= MAX_LOCK_BREAK_DEPTH ==> files[i] !in live
    ensures var after := FilesAfter(files, live, 0, pid);
      if RefusalOf(files, live, 0).None? then
        && 0 in after && after[0] == pid
        && (forall i :: 1 <= i <= k ==> i !in after)
        && (forall i :: i > k ==> (i in after <==> i in files))
        && (forall i :: i > k && i in files ==> after[i] == files[i])
      else after == files
  {
    var first := FirstNotStale(files, live, 0);
    assert first < k ==> files[first] in live || first == MAX_LOCK_BREAK_DEPTH + 1;
  }
}
