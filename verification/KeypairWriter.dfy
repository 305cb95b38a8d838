/** The overwrite transaction as it is executed: calls issued one by one on a `FileSystem`,
    proved to carry out exactly the program in `Keypair`. The ghost arguments name what the
    caller goes on to do. */
module KeypairWriter {
  import opened Disk
  import K = Keypair
  import L = ForceLock
  import C = CreateOnly

  method WriteTempFile(fs: FileSystem, tmp: Name, file: File, ghost fine: Prog, ghost failed: Prog)
    returns (ok: bool)
    modifies fs
    ensures fs.Outcome(if ok then fine else failed)
         == old(fs.Outcome(K.WriteTempFile(tmp, file, fine, failed)))
  {
    ghost var plan := K.WriteTempFile(tmp, file, fine, failed);
    var reply;
    reply, plan := fs.Call(CreateNew(tmp, file.ino), plan);
    if reply != Fine { return false; }
    reply, plan := fs.Call(WriteSome(tmp, file.data), plan);
    if reply != Fine { return false; }
    reply, plan := fs.Call(WriteRest(tmp, file.data), plan);
    if reply != Fine { return false; }
    reply, plan := fs.Call(SyncFile(tmp), plan);
    ok := reply == Fine;
  }

  /** A failure here is only warned about. */
  method Attempt(fs: FileSystem, op: Op, ghost phase: Phase, ghost next: Prog)
    modifies fs
    ensures fs.Outcome(next) == old(fs.Outcome(Then(op, phase, next)))
  {
    var _, rest := fs.Call(op, Then(op, phase, next));
  }

  method DropTemps(fs: FileSystem, j: K.Job, ghost next: Prog)
    modifies fs
    ensures fs.Outcome(next) == old(fs.Outcome(K.DropTemps(j, next)))
  {
    Attempt(fs, Remove(j.secretTmp), Cleanup, Then(Remove(j.publicTmp), Cleanup, next));
    Attempt(fs, Remove(j.publicTmp), Cleanup, next);
  }

  method Restore(fs: FileSystem, had: bool, backup: Name, path: Name, ghost next: Prog)
    modifies fs
    ensures fs.Outcome(next) == old(fs.Outcome(K.Restore(had, backup, path, next)))
  {
    if had { Attempt(fs, Rename(backup, path), Undo, next); }
  }

  method CommitKeypairFiles(fs: FileSystem, j: K.Job, ghost k: Verdict -> Prog)
    returns (r: Verdict)
    modifies fs
    ensures fs.Outcome(k(r)) == old(fs.Outcome(K.Commit(j, k)))
  {
    ghost var plan := K.Commit(j, k);
    var reply;
    reply, plan := fs.Call(Rename(j.publicTmp, j.public), plan);
    if reply != Fine { return CommitFailure(FileWrite(j.public), Started); }
    reply, plan := fs.Call(SyncDir(j.public), plan);
    if reply != Fine { return CommitFailure(ParentSync(j.public), PublicRenamed); }
    reply, plan := fs.Call(Rename(j.secretTmp, j.secret), plan);
    if reply != Fine { return CommitFailure(FileWrite(j.secret), PublicRenamed); }
    reply, plan := fs.Call(SyncDir(j.secret), plan);
    if reply != Fine { return CommitFailure(ParentSync(j.secret), SecretRenamed); }
    return Success;
  }

  method RollbackKeypairCommit(fs: FileSystem, j: K.Job, hadSecret: bool, hadPublic: bool,
                               stage: Stage, ghost next: Prog)
    modifies fs
    ensures fs.Outcome(next) == old(fs.Outcome(K.Rollback(j, hadSecret, hadPublic, stage, next)))
  {
    ghost var restorePublic := K.Restore(hadPublic, j.publicBak, j.public, next);
    ghost var restore := K.Restore(hadSecret, j.secretBak, j.secret, restorePublic);
    if stage == SecretRenamed {
      Attempt(fs, Remove(j.secret), Undo, Then(Remove(j.public), Undo, restore));
    }
    if stage == PublicRenamed || stage == SecretRenamed {
      Attempt(fs, Remove(j.public), Undo, restore);
    }
    Restore(fs, hadSecret, j.secretBak, j.secret, restorePublic);
    Restore(fs, hadPublic, j.publicBak, j.public, next);
  }

  /** Move an existing secret key aside. */
  method BackUpSecret(fs: FileSystem, j: K.Job) returns (had: bool, r: Verdict)
    modifies fs
    ensures fs.Outcome(if r == Success then K.BackUpPublic(j, had) else Done(r))
         == old(fs.Outcome(K.BackUpSecret(j)))
  {
    ghost var plan := K.BackUpSecret(j);
    var reply;
    reply, plan := fs.Call(Probe(j.secret), plan);
    if reply != Fine { return false, Success; }
    reply, plan := fs.Call(Rename(j.secret, j.secretBak), plan);
    if reply != Fine {
      r := Failure(FileWrite(j.secret));
      DropTemps(fs, j, Done(r));
      return true, r;
    }
    reply, plan := fs.Call(SyncDir(j.secret), plan);
    if reply != Fine {
      r := Failure(ParentSync(j.secret));
      DropTemps(fs, j, K.Restore(true, j.secretBak, j.secret, Done(r)));
      Restore(fs, true, j.secretBak, j.secret, Done(r));
      return true, r;
    }
    return true, Success;
  }

  /** Move an existing public key aside, putting the secret key back if that fails. */
  method BackUpPublic(fs: FileSystem, j: K.Job, hadSecret: bool) returns (had: bool, r: Verdict)
    modifies fs
    ensures fs.Outcome(if r == Success then K.Commit(j, c => K.AfterCommit(j, hadSecret, had, c))
                       else Done(r))
         == old(fs.Outcome(K.BackUpPublic(j, hadSecret)))
  {
    ghost var plan := K.BackUpPublic(j, hadSecret);
    var reply;
    reply, plan := fs.Call(Probe(j.public), plan);
    if reply != Fine { return false, Success; }
    reply, plan := fs.Call(Rename(j.public, j.publicBak), plan);
    if reply != Fine {
      r := Failure(FileWrite(j.public));
      DropTemps(fs, j, K.Restore(hadSecret, j.secretBak, j.secret, Done(r)));
      Restore(fs, hadSecret, j.secretBak, j.secret, Done(r));
      return true, r;
    }
    reply, plan := fs.Call(SyncDir(j.public), plan);
    if reply != Fine {
      r := Failure(ParentSync(j.public));
      ghost var restoreSecret := K.Restore(hadSecret, j.secretBak, j.secret, Done(r));
      DropTemps(fs, j, K.Restore(true, j.publicBak, j.public, restoreSecret));
      Restore(fs, true, j.publicBak, j.public, restoreSecret);
      Restore(fs, hadSecret, j.secretBak, j.secret, Done(r));
      return true, r;
    }
    return true, Success;
  }

  /** `write_keypair_files_with_overwrite` between taking and dropping the lock. */
  method WriteKeypairFilesWithOverwrite(fs: FileSystem, j: K.Job) returns (r: Verdict)
    modifies fs
    ensures (fs.disk, fs.clock, r) == old(fs.Outcome(K.Overwrite(j)))
  {
    var ok := WriteTempFile(fs, j.secretTmp, j.secretFile,
                            K.StagePublic(j), Done(Failure(FileWrite(j.secretTmp))));
    if !ok { return Failure(FileWrite(j.secretTmp)); }
    ghost var dropSecret := Done(Failure(FileWrite(j.publicTmp)));
    ok := WriteTempFile(fs, j.publicTmp, j.publicFile,
                        K.BackUpSecret(j), Then(Remove(j.secretTmp), Cleanup, dropSecret));
    if !ok {
      Attempt(fs, Remove(j.secretTmp), Cleanup, dropSecret);
      return Failure(FileWrite(j.publicTmp));
    }

    var hadSecret, hadPublic;
    hadSecret, r := BackUpSecret(fs, j);
    if r != Success { return; }
    hadPublic, r := BackUpPublic(fs, j, hadSecret);
    if r != Success { return; }
    r := FinishOrRollBack(fs, j, hadSecret, hadPublic);
  }

  /** The commit and the two ways on from it. */
  method FinishOrRollBack(fs: FileSystem, j: K.Job, hadSecret: bool, hadPublic: bool)
    returns (r: Verdict)
    modifies fs
    ensures (fs.disk, fs.clock, r)
         == old(fs.Outcome(K.Commit(j, c => K.AfterCommit(j, hadSecret, hadPublic, c))))
  {
    var c := CommitKeypairFiles(fs, j, c => K.AfterCommit(j, hadSecret, hadPublic, c));
    match c
    case CommitFailure(e, stage) =>
      DropTemps(fs, j, K.Rollback(j, hadSecret, hadPublic, stage, Done(Failure(e))));
      RollbackKeypairCommit(fs, j, hadSecret, hadPublic, stage, Done(Failure(e)));
      r := Failure(e);
    case _ =>
      ghost var dropPublic := K.DropBackup(hadPublic, j.publicBak, Done(Success));
      if hadSecret { Attempt(fs, Remove(j.secretBak), Finish, dropPublic); }
      if hadPublic { Attempt(fs, Remove(j.publicBak), Finish, Done(Success)); }
      r := Success;
  }

  /** `acquire_force_overwrite_lock`: retry while the lock is there, sleeping at most `patience`
      times, and remove it where `stale` judges it so (by the number of the attempt). */
  method AcquireForceOverwriteLock(fs: FileSystem, lock: Name, patience: nat, stale: nat -> bool)
    returns (r: Verdict)
    modifies fs
    ensures (fs.disk, fs.clock, r) == L.Acquire(lock, patience, stale, 0, old(fs.disk), old(fs.clock), fs.script)
  {
    var polls: nat, attempt: nat := 0, 0;
    while true
      invariant polls <= patience
      invariant L.Acquire(lock, patience, stale, 0, old(fs.disk), old(fs.clock), fs.script)
             == L.Acquire(lock, patience - polls, stale, attempt, fs.disk, fs.clock, fs.script)
      decreases patience - polls, if lock in fs.disk then 1 else 0
    {
      ghost var held := lock in fs.disk;
      var reply, _ := fs.Call(CreateNew(lock, 0), Then(CreateNew(lock, 0), Forward, Done(Success)));
      if reply == Fine { return Success; }
      if reply == Failed { return Failure(FileWrite(lock)); }
      assert held;
      if stale(attempt) {
        var removed, _ := fs.Call(Remove(lock), Then(Remove(lock), Forward, Done(Success)));
        if removed == Fine {
          attempt := attempt + 1;
          continue;
        }
      }
      if polls == patience { return Failure(LockTimeout); }
      polls, attempt := polls + 1, attempt + 1;
    }
  }

  /** The whole forced write: without the lock the transaction does not run; with it, it runs on
      the directory as the lock left it, and the lock is dropped whatever the result. */
  method ForceWriteKeypair(fs: FileSystem, j: K.Job, lock: Name, patience: nat, stale: nat -> bool)
    returns (r: Verdict)
    modifies fs
    ensures (fs.disk, fs.clock, r) == L.ForceWrite(K.Overwrite(j), lock, patience, stale, old(fs.disk), old(fs.clock), fs.script)
  {
    r := AcquireForceOverwriteLock(fs, lock, patience, stale);
    if r != Success { return; }
    L.LockedRun(K.Overwrite(j), lock, patience, stale, old(fs.disk), old(fs.clock), fs.script, fs.disk, fs.clock);
    r := RunUnderLock(fs, j, lock);
  }

  /** The transaction, and the end of the guard. */
  method RunUnderLock(fs: FileSystem, j: K.Job, lock: Name) returns (r: Verdict)
    modifies fs
    ensures (fs.disk, fs.clock, r) == L.RunLocked(K.Overwrite(j), lock, old(fs.disk), old(fs.clock), fs.script)
  {
    r := WriteKeypairFilesWithOverwrite(fs, j);
    DropLock(fs, lock);
  }

  /** The guard goes out of scope. */
  method DropLock(fs: FileSystem, lock: Name)
    modifies fs
    ensures fs.disk == Perform(Remove(lock), old(fs.disk), fs.script(old(fs.clock))).0 && fs.clock == old(fs.clock) + 1
  {
    var _, _ := fs.Call(Remove(lock), Then(Remove(lock), Cleanup, Done(Success)));
  }

  /** `write_keypair_files_create_new`. */
  method WriteKeypairFilesCreateNew(fs: FileSystem, j: K.Job) returns (r: Verdict)
    modifies fs
    ensures (fs.disk, fs.clock, r) == old(fs.Outcome(C.CreatePair(j)))
  {
    ghost var plan := C.CreatePair(j);
    var reply;
    reply, plan := fs.Call(Probe(j.secret), plan);
    if reply == Fine { return Failure(FileExists(j.secret)); }
    reply, plan := fs.Call(Probe(j.public), plan);
    if reply == Fine { return Failure(FileExists(j.public)); }
    assert plan == C.StageBoth(j);

    ghost var dropSecret := Done(Failure(FileWrite(j.publicTmp)));
    ghost var stagePublic := K.WriteTempFile(j.publicTmp, j.publicFile, C.LinkSecret(j),
                                             Then(Remove(j.secretTmp), Cleanup, dropSecret));
    var ok := WriteTempFile(fs, j.secretTmp, j.secretFile, stagePublic,
                            Done(Failure(FileWrite(j.secretTmp))));
    if !ok { return Failure(FileWrite(j.secretTmp)); }
    ok := WriteTempFile(fs, j.publicTmp, j.publicFile, C.LinkSecret(j),
                        Then(Remove(j.secretTmp), Cleanup, dropSecret));
    if !ok {
      Attempt(fs, Remove(j.secretTmp), Cleanup, dropSecret);
      return Failure(FileWrite(j.publicTmp));
    }
    r := LinkBoth(fs, j);
  }

  /** Link the secret key, then the public key, undoing in the opposite order. */
  method LinkBoth(fs: FileSystem, j: K.Job) returns (r: Verdict)
    modifies fs
    ensures (fs.disk, fs.clock, r) == old(fs.Outcome(C.LinkSecret(j)))
  {
    ghost var plan := C.LinkSecret(j);
    var reply;
    reply, plan := fs.Call(Link(j.secretTmp, j.secret), plan);
    if reply != Fine {
      r := Failure(FileWrite(j.secret));
      DropTemps(fs, j, Done(r));
      return;
    }
    reply, plan := fs.Call(SyncDir(j.secret), plan);
    if reply != Fine {
      r := UndoSecret(fs, j, ParentSync(j.secret));
      return;
    }
    reply, plan := fs.Call(Link(j.publicTmp, j.public), plan);
    if reply != Fine {
      r := UndoSecret(fs, j, FileWrite(j.public));
      return;
    }
    reply, plan := fs.Call(SyncDir(j.public), plan);
    if reply != Fine {
      Attempt(fs, Remove(j.public), Undo, C.UndoSecret(j, ParentSync(j.public)));
      r := UndoSecret(fs, j, ParentSync(j.public));
      return;
    }
    DropTemps(fs, j, Done(Success));
    r := Success;
  }

  method UndoSecret(fs: FileSystem, j: K.Job, e: Error) returns (r: Verdict)
    modifies fs
    ensures (fs.disk, fs.clock, r) == old(fs.Outcome(C.UndoSecret(j, e)))
  {
    r := Failure(e);
    Attempt(fs, Remove(j.secret), Undo, K.DropTemps(j, Done(r)));
    DropTemps(fs, j, Done(r));
  }
}
