/** Taking the lock of a forced key generation, and the whole forced write: what comes of it under
    each sequence of answers. */
module ForceLock {
  import opened Basics
  import opened Disk
  import opened Keypair
  import opened KeypairExact

  const LOCK_FILE := File(0, [])

  /** The attempts from `attempt` on, `patience` more of which may end in a sleep: the directory, the
      number of calls made, and the result. */
  function Acquire(lock: Name, patience: nat, stale: nat -> bool, attempt: nat,
                   disk: Disk, clock: nat, script: nat -> Answer): (Disk, nat, Verdict)
    decreases patience, if lock in disk then 1 else 0
  {
    var (created, reply) := Perform(CreateNew(lock, 0), disk, script(clock));
    match reply
    case Fine => (created, clock + 1, Success)
    case Failed => (disk, clock + 1, Failure(FileWrite(lock)))
    case AlreadyExists =>
      if stale(attempt) && Perform(Remove(lock), disk, script(clock + 1)).1 == Fine then
        Acquire(lock, patience, stale, attempt + 1, disk - {lock}, clock + 2, script)
      else
        var clock' := if stale(attempt) then clock + 2 else clock + 1;
        if patience == 0 then (disk, clock', Failure(LockTimeout))
        else Acquire(lock, patience - 1, stale, attempt + 1, disk, clock', script)
  }

  /** The forced write: the lock, the program of the transaction, and the deletion of the lock. */
  function ForceWrite(prog: Prog, lock: Name, patience: nat, stale: nat -> bool,
                      disk: Disk, clock: nat, script: nat -> Answer): (Disk, nat, Verdict)
  {
    var (locked, mid, held) := Acquire(lock, patience, stale, 0, disk, clock, script);
    if held != Success then (locked, mid, held) else RunLocked(prog, lock, locked, mid, script)
  }

  /** A program run to its end, and the deletion of the lock. */
  function RunLocked(prog: Prog, lock: Name, disk: Disk, clock: nat, script: nat -> Answer): (Disk, nat, Verdict) {
    var (written, end, r) := RunAll(prog, disk, clock, script);
    (Perform(Remove(lock), written, script(end)).0, end + 1, r)
  }

  lemma LockedRun(prog: Prog, lock: Name, patience: nat, stale: nat -> bool,
                  disk: Disk, clock: nat, script: nat -> Answer, locked: Disk, mid: nat)
    requires Acquire(lock, patience, stale, 0, disk, clock, script) == (locked, mid, Success)
    ensures ForceWrite(prog, lock, patience, stale, disk, clock, script) == RunLocked(prog, lock, locked, mid, script)
  {
  }

  // ---- the lock -------------------------------------------------------------------------------------

  /** A lock that is free is taken with one call, if that is let through; else that is the error. */
  lemma FreeLockTaken(lock: Name, patience: nat, stale: nat -> bool, attempt: nat,
                      disk: Disk, clock: nat, script: nat -> Answer)
    requires lock !in disk
    ensures Acquire(lock, patience, stale, attempt, disk, clock, script) ==
              if script(clock).ok then (disk[lock := LOCK_FILE], clock + 1, Success)
              else (disk, clock + 1, Failure(FileWrite(lock)))
  {
  }

  /** A stale lock is broken and taken with three calls. */
  lemma StaleLockTaken(lock: Name, patience: nat, stale: nat -> bool, attempt: nat,
                       disk: Disk, clock: nat, script: nat -> Answer)
    requires lock in disk && stale(attempt)
    requires script(clock).ok && script(clock + 1).ok && script(clock + 2).ok
    ensures Acquire(lock, patience, stale, attempt, disk, clock, script) ==
              (disk[lock := LOCK_FILE], clock + 3, Success)
  {
    FreeLockTaken(lock, patience, stale, attempt + 1, disk - {lock}, clock + 2, script);
    assert (disk - {lock})[lock := LOCK_FILE] == disk[lock := LOCK_FILE];
  }

  /** A lock that stays and is never judged stale is waited for `patience` times, with one call to
      an attempt. */
  lemma {:induction false} HeldLockTimesOut(lock: Name, patience: nat, stale: nat -> bool, attempt: nat,
                                            disk: Disk, clock: nat, script: nat -> Answer)
    requires lock in disk && forall n :: !stale(n)
    requires forall n :: clock <= n <= clock + patience ==> script(n).ok
    ensures Acquire(lock, patience, stale, attempt, disk, clock, script) ==
              (disk, clock + patience + 1, Failure(LockTimeout))
    decreases patience
  {
    assert script(clock).ok;
    if patience > 0 { HeldLockTimesOut(lock, patience - 1, stale, attempt + 1, disk, clock + 1, script); }
  }

  /** The lock, and nothing else, is created, or removed where it was judged stale. */
  lemma {:induction false} AcquireKeeps(lock: Name, patience: nat, stale: nat -> bool, attempt: nat,
                                        disk: Disk, clock: nat, script: nat -> Answer)
    ensures var (disk', clock', r) := Acquire(lock, patience, stale, attempt, disk, clock, script);
            clock' > clock &&
            (r == Success ==> disk' == disk[lock := LOCK_FILE] && (lock in disk ==> exists n :: stale(n))) &&
            (r != Success ==> disk' == disk || (disk' == disk - {lock} && exists n :: stale(n))) &&
            (r == Success || r == Failure(FileWrite(lock)) || r == Failure(LockTimeout))
    decreases patience, if lock in disk then 1 else 0
  {
    if lock in disk && script(clock).ok {
      if stale(attempt) && script(clock + 1).ok {
        AcquireKeeps(lock, patience, stale, attempt + 1, disk - {lock}, clock + 2, script);
        assert (disk - {lock})[lock := LOCK_FILE] == disk[lock := LOCK_FILE];
        assert disk - {lock} - {lock} == disk - {lock};
      } else if patience > 0 {
        AcquireKeeps(lock, patience - 1, stale, attempt + 1, disk, if stale(attempt) then clock + 2 else clock + 1, script);
      }
    }
  }

  /** An error of the file system was one: the last call made was refused. Giving up is after
      `patience + 1` attempts that found the lock, which is still there. */
  lemma {:induction false} ErrorsAreReal(lock: Name, patience: nat, stale: nat -> bool, attempt: nat,
                                         disk: Disk, clock: nat, script: nat -> Answer)
    ensures var (disk', clock', r) := Acquire(lock, patience, stale, attempt, disk, clock, script);
            clock' > clock && (r == Failure(FileWrite(lock)) ==> !script(clock' - 1).ok) &&
            (r == Failure(LockTimeout) ==> lock in disk' && disk' == disk && clock' >= clock + patience + 1)
    decreases patience, if lock in disk then 1 else 0
  {
    if lock in disk && script(clock).ok {
      if stale(attempt) && script(clock + 1).ok {
        ErrorsAreReal(lock, patience, stale, attempt + 1, disk - {lock}, clock + 2, script);
      } else if patience > 0 {
        ErrorsAreReal(lock, patience - 1, stale, attempt + 1, disk, if stale(attempt) then clock + 2 else clock + 1, script);
      }
    }
  }

  /** So many attempts find the lock in the way, and none of them gets rid of it. */
  predicate InTheWay(count: nat, stale: nat -> bool, attempt: nat, clock: nat, script: nat -> Answer)
    decreases count
  {
    count == 0 ||
    (script(clock).ok && (stale(attempt) ==> !script(clock + 1).ok) &&
     InTheWay(count - 1, stale, attempt + 1, if stale(attempt) then clock + 2 else clock + 1, script))
  }

  /** A timeout is exactly `patience + 1` attempts in a row that find the lock in the way. */
  lemma {:induction false} TimeoutIff(lock: Name, patience: nat, stale: nat -> bool, attempt: nat,
                                      disk: Disk, clock: nat, script: nat -> Answer)
    ensures Acquire(lock, patience, stale, attempt, disk, clock, script).2 == Failure(LockTimeout) <==>
              lock in disk && InTheWay(patience + 1, stale, attempt, clock, script)
    decreases patience, if lock in disk then 1 else 0
  {
    if lock in disk && script(clock).ok {
      var clock' := if stale(attempt) then clock + 2 else clock + 1;
      if stale(attempt) && script(clock + 1).ok {
        TimeoutIff(lock, patience, stale, attempt + 1, disk - {lock}, clock + 2, script);
      } else if patience > 0 {
        TimeoutIff(lock, patience - 1, stale, attempt + 1, disk, clock', script);
      } else {
        assert InTheWay(0, stale, attempt + 1, clock', script);
      }
    }
  }

  // ---- the forced write --------------------------------------------------------------------------------

  /** A forced write of which every call is let through, on a directory where the lock is free, or
      stale, succeeds: it leaves the new pair, drops the lock, and changes nothing else. */
  lemma ForceWriteSucceeds(j: Job, lock: Name, patience: nat, stale: nat -> bool,
                           disk: Disk, clock: nat, script: nat -> Answer)
    requires j.Fresh(disk) && lock !in j.Names() && (lock in disk ==> stale(0))
    requires forall n :: script(n).ok
    ensures var (disk', _, r) := ForceWrite(Overwrite(j), lock, patience, stale, disk, clock, script);
            r == Success && disk' == disk[j.secret := j.secretFile][j.public := j.publicFile] - {lock}
  {
    var mid := if lock in disk then clock + 3 else clock + 1;
    var locked := disk[lock := LOCK_FILE];
    if lock in disk {
      StaleLockTaken(lock, patience, stale, 0, disk, clock, script);
    } else {
      FreeLockTaken(lock, patience, stale, 0, disk, clock, script);
    }
    GrantedIsLegal(Overwrite(j), locked, mid, script);
    OverwriteSucceeds(j, locked, {}, mid, script);
    RunLockedEnds(Overwrite(j), j, lock, disk, mid, script);
  }

  lemma RunLockedEnds(prog: Prog, j: Job, lock: Name, disk: Disk, mid: nat, script: nat -> Answer)
    requires lock !in j.Names() && forall n :: script(n).ok
    requires var (d, _, r) := RunAll(prog, disk[lock := LOCK_FILE], mid, script);
             r == Success && d == disk[lock := LOCK_FILE][j.secret := j.secretFile][j.public := j.publicFile]
    ensures var (d, _, r) := RunLocked(prog, lock, disk[lock := LOCK_FILE], mid, script);
            r == Success && d == disk[j.secret := j.secretFile][j.public := j.publicFile] - {lock}
  {
    var pair := disk[j.secret := j.secretFile][j.public := j.publicFile];
    var (written, end, _) := RunAll(prog, disk[lock := LOCK_FILE], mid, script);
    assert script(end).ok && lock in written;
    assert disk[lock := LOCK_FILE][j.secret := j.secretFile][j.public := j.publicFile] - {lock} == pair - {lock};
  }
}
