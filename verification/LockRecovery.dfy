/**
 What one attempt to take the lock does to the lock files, when nobody else
 touches them meanwhile (src/utils.ts, `FileLock.tryAcquire`).
 */
module LockRecovery {

  /** A PID; 0 stands for file content that names no process. */
  type Pid = nat

  /** The highest `.break` level there is. */
  const MAX_LOCK_BREAK_DEPTH: nat := 3

  /** The lock files that exist, by level, with the PID each names. */
  type Files = map<nat, Pid>

  /** The lowest level from `l` up whose file is absent or names a live process; none gives MAX + 1. */
  function FirstNotStale(files: Files, live: set<Pid>, l: nat): (k: nat)
    requires l <= MAX_LOCK_BREAK_DEPTH + 1
    ensures l <= k <= MAX_LOCK_BREAK_DEPTH + 1
    ensures forall i :: l <= i < k ==> i in files && files[i] !in live
    ensures k <= MAX_LOCK_BREAK_DEPTH ==> k !in files || files[k] in live
    decreases MAX_LOCK_BREAK_DEPTH + 1 - l
  {
    if l > MAX_LOCK_BREAK_DEPTH || l !in files || files[l] in live then l else FirstNotStale(files, live, l + 1)
  }

  /** An attempt at level `l` succeeds exactly when that first level is a free one. */
  predicate Recoverable(files: Files, live: set<Pid>, l: nat)
    requires l <= MAX_LOCK_BREAK_DEPTH + 1
  {
    var k := FirstNotStale(files, live, l);
    k <= MAX_LOCK_BREAK_DEPTH && k !in files
  }

  /** The stale levels up to the free one are gone, and level `l` names the new owner. */
  function Recovered<V>(files: map<nat, V>, l: nat, k: nat, owner: V): map<nat, V> {
    (map i | i in files && !(l <= i <= k) :: files[i])[l := owner]
  }
}
