/** Exactly when the rollback of the keypair transaction is exact: which calls may fail. */
module KeypairExact {
  import opened Basics
  import opened Disk
  import opened Keypair

  predicate BothOld(j: Job, start: Disk, disk: Disk) {
    Lookup(disk, j.secret) == Lookup(start, j.secret) && Lookup(disk, j.public) == Lookup(start, j.public)
  }

  predicate BothNew(j: Job, disk: Disk) {
    Lookup(disk, j.secret) == Some(j.secretFile) && Lookup(disk, j.public) == Some(j.publicFile)
  }

  /** The run has ended, and the final paths hold neither the old pair nor the new one. */
  predicate Mixed(j: Job, start: Disk, rest: Prog, disk: Disk) {
    rest.Done? && !BothOld(j, start, disk) && !BothNew(j, disk)
  }

  ghost function Misses(j: Job, start: Disk): (Prog, Disk) -> bool {
    (rest, disk) => Mixed(j, start, rest, disk)
  }

  ghost function Exact(j: Job, start: Disk): (Prog, Disk) -> bool {
    (rest, disk) => ExactOutcome(j, start, rest, disk)
  }

  // ---- when nothing but checks, cleanup and undo calls can fail ------------------------------------

  /** The run has ended with Ok, both new files in place, nothing staged left, and no backup unless
      its deletion failed. */
  predicate Succeeded(j: Job, faults: set<Phase>, rest: Prog, disk: Disk) {
    rest.Done? ==>
      rest.result == Success && BothNew(j, disk) && j.secretTmp !in disk && j.publicTmp !in disk &&
      (Finish !in faults ==> j.secretBak !in disk && j.publicBak !in disk)
  }

  ghost function Succeeds(j: Job, start: Disk, faults: set<Phase>): (Prog, Disk) -> bool {
    (rest: Prog, disk: Disk) => rest.Done? ==> Succeeded(j, faults, rest, disk) && OthersUntouched(j, start, disk)
  }

  predicate BothStaged(j: Job, disk: Disk) {
    Lookup(disk, j.secretTmp) == Some(j.secretFile) && Lookup(disk, j.publicTmp) == Some(j.publicFile)
  }

  /** A backup that was not taken is not there. */
  predicate BackUps(j: Job, disk: Disk, hadSecret: bool, hadPublic: bool) {
    (!hadSecret ==> j.secretBak !in disk) && (!hadPublic ==> j.publicBak !in disk)
  }

  lemma DropBackupsSucceeds(j: Job, start: Disk, faults: set<Phase>, disk: Disk, hadSecret: bool, hadPublic: bool)
    requires j.DistinctNames() && BothNew(j, disk) && OthersUntouched(j, start, disk)
    requires j.secretTmp !in disk && j.publicTmp !in disk
    requires Finish !in faults ==> BackUps(j, disk, hadSecret, hadPublic)
    ensures Always(DropBackup(hadSecret, j.secretBak, DropBackup(hadPublic, j.publicBak, Done(Success))),
                   disk, faults, Succeeds(j, start, faults))
    decreases hadSecret, hadPublic
  {
    var prog := DropBackup(hadSecret, j.secretBak, DropBackup(hadPublic, j.publicBak, Done(Success)));
    if hadSecret || hadPublic {
      forall a: Answer | Allowed(prog.phase, a, faults)
        ensures var (disk', reply) := Perform(prog.op, disk, a);
                Always(Next(prog, reply), disk', faults, Succeeds(j, start, faults))
      {
        DropBackupsSucceeds(j, start, faults, Perform(prog.op, disk, a).0, false, hadSecret && hadPublic);
      }
    }
  }

  lemma CommitSucceeds(j: Job, start: Disk, faults: set<Phase>, disk: Disk, hadSecret: bool, hadPublic: bool)
    requires j.DistinctNames() && BothStaged(j, disk) && Forward !in faults && OthersUntouched(j, start, disk)
    requires BackUps(j, disk, hadSecret, hadPublic)
    ensures Always(Commit(j, r => AfterCommit(j, hadSecret, hadPublic, r)), disk, faults, Succeeds(j, start, faults))
  {
    var k, inv := r => AfterCommit(j, hadSecret, hadPublic, r), Succeeds(j, start, faults);
    var d1 := (disk - {j.publicTmp})[j.public := j.publicFile];
    var d2 := (d1 - {j.secretTmp})[j.secret := j.secretFile];
    DropBackupsSucceeds(j, start, faults, d2, hadSecret, hadPublic);
    AlwaysFine(CommitSecret(j, k).fine, d2, faults, inv);
    AlwaysFine(CommitSecret(j, k), d1, faults, inv);
    AlwaysFine(CommitAfterPublic(j, k), d1, faults, inv);
    AlwaysFine(Commit(j, k), disk, faults, inv);
  }

  /** A check, whose both outcomes are dealt with. */
  lemma ProbeAlways(prog: Prog, disk: Disk, faults: set<Phase>, inv: (Prog, Disk) -> bool)
    requires prog.Do? && prog.op.Probe? && inv(prog, disk)
    requires prog.op.path in disk ==> Always(prog.fine, disk, faults, inv)
    requires Always(prog.failed, disk, faults, inv)
    ensures Always(prog, disk, faults, inv)
  {
  }

  /** An old file moves aside. */
  lemma AsideAlways(faults: set<Phase>, disk: Disk, path: Name, backup: Name, next: Prog, unsynced: Prog,
                    unmoved: Prog, inv: (Prog, Disk) -> bool)
    requires path in disk && Forward !in faults && OfTheEnd(inv)
    requires Always(next, (disk - {path})[backup := disk[path]], faults, inv)
    ensures Always(Step(Rename(path, backup), Forward, Step(SyncDir(path), Forward, next, unsynced), unmoved),
                   disk, faults, inv)
  {
    var sync := Step(SyncDir(path), Forward, next, unsynced);
    AlwaysFine(sync, (disk - {path})[backup := disk[path]], faults, inv);
    AlwaysFine(Step(Rename(path, backup), Forward, sync, unmoved), disk, faults, inv);
  }

  lemma BackUpPublicSucceeds(j: Job, start: Disk, faults: set<Phase>, disk: Disk, hadSecret: bool)
    requires j.DistinctNames() && BothStaged(j, disk) && Forward !in faults && OthersUntouched(j, start, disk)
    requires BackUps(j, disk, hadSecret, false)
    ensures Always(BackUpPublic(j, hadSecret), disk, faults, Succeeds(j, start, faults))
  {
    var prog, inv := BackUpPublic(j, hadSecret), Succeeds(j, start, faults);
    CommitSucceeds(j, start, faults, disk, hadSecret, false);
    if j.public in disk {
      CommitSucceeds(j, start, faults, (disk - {j.public})[j.publicBak := disk[j.public]], hadSecret, true);
      AsideAlways(faults, disk, j.public, j.publicBak, prog.fine.fine.fine, prog.fine.fine.failed, prog.fine.failed, inv);
    }
    ProbeAlways(prog, disk, faults, inv);
  }

  lemma BackUpSecretSucceeds(j: Job, start: Disk, faults: set<Phase>, disk: Disk)
    requires j.DistinctNames() && BothStaged(j, disk) && Forward !in faults && OthersUntouched(j, start, disk)
    requires BackUps(j, disk, false, false)
    ensures Always(BackUpSecret(j), disk, faults, Succeeds(j, start, faults))
  {
    var prog, inv := BackUpSecret(j), Succeeds(j, start, faults);
    BackUpPublicSucceeds(j, start, faults, disk, false);
    if j.secret in disk {
      BackUpPublicSucceeds(j, start, faults, (disk - {j.secret})[j.secretBak := disk[j.secret]], true);
      AsideAlways(faults, disk, j.secret, j.secretBak, prog.fine.fine.fine, prog.fine.fine.failed, prog.fine.failed, inv);
    }
    ProbeAlways(prog, disk, faults, inv);
  }

  lemma WriteTempFileFine(faults: set<Phase>, disk: Disk, tmp: Name, file: File, fine: Prog, failed: Prog,
                          inv: (Prog, Disk) -> bool)
    requires tmp !in disk && Forward !in faults && OfTheEnd(inv)
    requires Always(fine, disk[tmp := file], faults, inv)
    ensures Always(WriteTempFile(tmp, file, fine, failed), disk, faults, inv)
  {
    var prog := WriteTempFile(tmp, file, fine, failed);
    var created := disk[tmp := File(file.ino, [])];
    AlwaysFine(prog.fine.fine.fine, disk[tmp := file], faults, inv);
    forall part: nat
      ensures Always(prog.fine.fine, Perform(prog.fine.op, created, Answer(true, part)).0, faults, inv)
    {
      var d := Perform(prog.fine.op, created, Answer(true, part)).0;
      assert d[tmp := file] == disk[tmp := file];
      AlwaysFine(prog.fine.fine, d, faults, inv);
    }
    AlwaysFine(prog.fine, created, faults, inv);
    AlwaysFine(prog, disk, faults, inv);
  }

  lemma OverwriteAlwaysSucceeds(j: Job, start: Disk, faults: set<Phase>)
    requires j.Fresh(start) && Forward !in faults
    ensures Always(Overwrite(j), start, faults, Succeeds(j, start, faults))
  {
    var inv := Succeeds(j, start, faults);
    var d1 := start[j.secretTmp := j.secretFile];
    BackUpSecretSucceeds(j, start, faults, d1[j.publicTmp := j.publicFile]);
    WriteTempFileFine(faults, d1, j.publicTmp, j.publicFile, BackUpSecret(j),
      Then(Remove(j.secretTmp), Cleanup, Done(Failure(FileWrite(j.publicTmp)))), inv);
    WriteTempFileFine(faults, start, j.secretTmp, j.secretFile, StagePublic(j),
      Done(Failure(FileWrite(j.secretTmp))), inv);
  }

  /** Unless a forward call fails, the transaction succeeds, whatever was there and whatever the
      checks say; and unless a backup could not be deleted, the directory differs in the two files
      alone. */
  lemma OverwriteSucceeds(j: Job, start: Disk, faults: set<Phase>, clock: nat, script: nat -> Answer)
    requires j.Fresh(start) && Forward !in faults
    requires LegalScript(Overwrite(j), start, clock, script, faults)
    ensures var (disk, _, r) := RunAll(Overwrite(j), start, clock, script);
            r == Success && BothNew(j, disk) && OthersUntouched(j, start, disk) &&
            (Finish !in faults ==> disk == start[j.secret := j.secretFile][j.public := j.publicFile])
  {
    OverwriteAlwaysSucceeds(j, start, faults);
    EndOfSuccess(Overwrite(j), j, start, faults, clock, script);
  }

  lemma EndOfSuccess(prog: Prog, j: Job, start: Disk, faults: set<Phase>, clock: nat, script: nat -> Answer)
    requires j.Fresh(start) && Always(prog, start, faults, Succeeds(j, start, faults))
    requires LegalScript(prog, start, clock, script, faults)
    ensures var (disk, _, r) := RunAll(prog, start, clock, script);
            r == Success && BothNew(j, disk) && OthersUntouched(j, start, disk) &&
            (Finish !in faults ==> disk == start[j.secret := j.secretFile][j.public := j.publicFile])
  {
    RunAllHolds(prog, start, faults, Succeeds(j, start, faults), clock, script);
    var (disk, _, r) := RunAll(prog, start, clock, script);
    assert Succeeded(j, faults, Done(r), disk) && OthersUntouched(j, start, disk);
    if Finish !in faults { OnlyThePair(j, start, disk); }
  }

  lemma OnlyThePair(j: Job, start: Disk, disk: Disk)
    requires j.Fresh(start) && BothNew(j, disk) && OthersUntouched(j, start, disk)
    requires j.secretTmp !in disk && j.publicTmp !in disk && j.secretBak !in disk && j.publicBak !in disk
    ensures disk == start[j.secret := j.secretFile][j.public := j.publicFile]
  {
    SameLookups(disk, start[j.secret := j.secretFile][j.public := j.publicFile]);
  }

  /** If no forward call can fail, there is nothing to roll back. */
  lemma OverwriteExact(j: Job, start: Disk, faults: set<Phase>)
    requires j.Fresh(start) && Forward !in faults
    ensures Always(Overwrite(j), start, faults, Exact(j, start))
  {
    OverwriteAlwaysSucceeds(j, start, faults);
    AlwaysWeaker(Overwrite(j), start, faults, Succeeds(j, start, faults), Exact(j, start));
  }

  // ---- runs whose rollback misses ---------------------------------------------------------------------

  predicate Differs(j: Job, start: Disk) {
    (j.secret in start ==> start[j.secret] != j.secretFile) &&
    (j.public in start ==> start[j.public] != j.publicFile)
  }

  /** The new secret key is neither in place nor under the backup name. */
  predicate SecretNotNew(j: Job, disk: Disk) {
    Lookup(disk, j.secret) != Some(j.secretFile) && Lookup(disk, j.secretBak) != Some(j.secretFile)
  }

  const OK := Answer(true, 0)
  const FAIL := Answer(false, 0)

  /** The end of a rollback that leaves a final path wrong, the backup of the public key failing
      to come back. */
  lemma RestoreMisses(j: Job, start: Disk, faults: set<Phase>, disk: Disk, hadSecret: bool, hadPublic: bool, e: Error)
    requires j.DistinctNames() && (hadPublic ==> Undo in faults)
    requires Lookup(disk, j.public) != Lookup(start, j.public) && SecretNotNew(j, disk)
    ensures CanReach(Restore(hadSecret, j.secretBak, j.secret,
                       Restore(hadPublic, j.publicBak, j.public, Done(Failure(e)))), disk, faults, Misses(j, start))
  {
    var bad := Misses(j, start);
    var restorePublic := Restore(hadPublic, j.publicBak, j.public, Done(Failure(e)));
    var d1 := if hadSecret then Perform(Rename(j.secretBak, j.secret), disk, OK).0 else disk;
    CanReachNow(Done(Failure(e)), d1, faults, bad);
    if hadPublic { CanReachStep(restorePublic, d1, faults, bad, FAIL); }
    if hadSecret { CanReachStep(Restore(true, j.secretBak, j.secret, restorePublic), disk, faults, bad, OK); }
  }

  lemma DropTempsCanReach(j: Job, faults: set<Phase>, disk: Disk, next: Prog, bad: (Prog, Disk) -> bool)
    requires CanReach(next, disk - {j.secretTmp} - {j.publicTmp}, faults, bad)
    ensures CanReach(DropTemps(j, next), disk, faults, bad)
  {
    var second := Then(Remove(j.publicTmp), Cleanup, next);
    var d1 := disk - {j.secretTmp};
    assert j.publicTmp !in d1 ==> d1 - {j.publicTmp} == d1;
    assert j.secretTmp !in disk ==> d1 == disk;
    CanReachStep(second, d1, faults, bad, OK);
    CanReachStep(DropTemps(j, next), disk, faults, bad, OK);
  }

  /** The public key is in place when the commit fails; it stays because undo calls fail, or it
      goes and the old one, of which no backup was taken, is gone with it. */
  lemma RollbackMissesPublic(j: Job, start: Disk, faults: set<Phase>, disk: Disk, hadSecret: bool, hadPublic: bool, e: Error)
    requires j.DistinctNames() && Differs(j, start) && Lookup(disk, j.public) == Some(j.publicFile)
    requires SecretNotNew(j, disk)
    requires Undo in faults || (!hadPublic && j.public in start)
    ensures CanReach(Rollback(j, hadSecret, hadPublic, PublicRenamed, Done(Failure(e))), disk, faults, Misses(j, start))
  {
    var bad, prog := Misses(j, start), Rollback(j, hadSecret, hadPublic, PublicRenamed, Done(Failure(e)));
    if Undo in faults {
      RestoreMisses(j, start, faults, disk, hadSecret, hadPublic, e);
      CanReachStep(prog, disk, faults, bad, FAIL);
    } else {
      RestoreMisses(j, start, faults, disk - {j.public}, hadSecret, hadPublic, e);
      CanReachStep(prog, disk, faults, bad, OK);
    }
  }

  lemma CommitMissesPublic(j: Job, start: Disk, faults: set<Phase>, disk: Disk, hadSecret: bool, hadPublic: bool)
    requires j.DistinctNames() && Differs(j, start) && BothStaged(j, disk) && Forward in faults
    requires SecretNotNew(j, disk)
    requires Undo in faults || (!hadPublic && j.public in start)
    ensures CanReach(Commit(j, r => AfterCommit(j, hadSecret, hadPublic, r)), disk, faults, Misses(j, start))
  {
    var bad, k := Misses(j, start), r => AfterCommit(j, hadSecret, hadPublic, r);
    var e := ParentSync(j.public);
    var renamed := (disk - {j.publicTmp})[j.public := j.publicFile];
    var rollback := Rollback(j, hadSecret, hadPublic, PublicRenamed, Done(Failure(e)));
    RollbackMissesPublic(j, start, faults, renamed - {j.secretTmp} - {j.publicTmp}, hadSecret, hadPublic, e);
    DropTempsCanReach(j, faults, renamed, rollback, bad);
    assert k(CommitFailure(e, PublicRenamed)) == DropTemps(j, rollback);
    CanReachStep(CommitAfterPublic(j, k), renamed, faults, bad, FAIL);
    CanReachStep(Commit(j, k), disk, faults, bad, OK);
  }

  /** The secret key was not seen, so no backup was taken; it is renamed over, and the rollback
      removes the new one. */
  lemma CommitMissesSecret(j: Job, start: Disk, faults: set<Phase>, disk: Disk, hadPublic: bool)
    requires j.DistinctNames() && BothStaged(j, disk) && Forward in faults && j.secret in start
    ensures CanReach(Commit(j, r => AfterCommit(j, false, hadPublic, r)), disk, faults, Misses(j, start))
  {
    var bad, k := Misses(j, start), r => AfterCommit(j, false, hadPublic, r);
    var e := ParentSync(j.secret);
    var d1 := (disk - {j.publicTmp})[j.public := j.publicFile];
    var d2 := (d1 - {j.secretTmp})[j.secret := j.secretFile];
    var rollback := Rollback(j, false, hadPublic, SecretRenamed, Done(Failure(e)));
    RemovedMisses(j, start, faults, d2 - {j.secretTmp} - {j.publicTmp}, hadPublic, e);
    DropTempsCanReach(j, faults, d2, rollback, bad);
    CanReachStep(CommitSecret(j, k).fine, d2, faults, bad, FAIL);
    CanReachStep(CommitSecret(j, k), d1, faults, bad, OK);
    CanReachStep(CommitAfterPublic(j, k), d1, faults, bad, OK);
    CanReachStep(Commit(j, k), disk, faults, bad, OK);
  }

  lemma RemovedMisses(j: Job, start: Disk, faults: set<Phase>, disk: Disk, hadPublic: bool, e: Error)
    requires j.DistinctNames() && j.secret in start
    requires j.secret in disk && j.public in disk
    ensures CanReach(Rollback(j, false, hadPublic, SecretRenamed, Done(Failure(e))), disk, faults, Misses(j, start))
  {
    var bad := Misses(j, start);
    var prog := Rollback(j, false, hadPublic, SecretRenamed, Done(Failure(e)));
    var restore := Restore(hadPublic, j.publicBak, j.public, Done(Failure(e)));
    var d1 := disk - {j.secret};
    var d2 := d1 - {j.public};
    var d3 := if hadPublic then Perform(Rename(j.publicBak, j.public), d2, OK).0 else d2;
    CanReachNow(Done(Failure(e)), d3, faults, bad);
    if hadPublic { CanReachStep(restore, d2, faults, bad, OK); }
    CanReachStep(prog.fine, d1, faults, bad, OK);
    CanReachStep(prog, disk, faults, bad, OK);
  }

  /** An old file moves aside. */
  lemma AsideCanReach(faults: set<Phase>, disk: Disk, path: Name, backup: Name, next: Prog,
                      unsynced: Prog, unmoved: Prog, bad: (Prog, Disk) -> bool)
    requires path in disk && CanReach(next, (disk - {path})[backup := disk[path]], faults, bad)
    ensures CanReach(Step(Rename(path, backup), Forward, Step(SyncDir(path), Forward, next, unsynced), unmoved),
                     disk, faults, bad)
  {
    var d1 := (disk - {path})[backup := disk[path]];
    var sync := Step(SyncDir(path), Forward, next, unsynced);
    CanReachStep(sync, d1, faults, bad, OK);
    CanReachStep(Step(Rename(path, backup), Forward, sync, unmoved), disk, faults, bad, OK);
  }

  /** A check that goes one way or the other. */
  lemma ProbeCanReach(faults: set<Phase>, disk: Disk, path: Name, seen: Prog, unseen: Prog, bad: (Prog, Disk) -> bool)
    requires (path in disk && CanReach(seen, disk, faults, bad)) ||
             ((path !in disk || Check(path) in faults) && CanReach(unseen, disk, faults, bad))
    ensures CanReach(Step(Probe(path), Check(path), seen, unseen), disk, faults, bad)
  {
    var prog := Step(Probe(path), Check(path), seen, unseen);
    if path in disk && CanReach(seen, disk, faults, bad) {
      CanReachStep(prog, disk, faults, bad, OK);
    } else if path !in disk {
      CanReachStep(prog, disk, faults, bad, OK);
    } else {
      CanReachStep(prog, disk, faults, bad, FAIL);
    }
  }

  lemma CommitMisses(j: Job, start: Disk, faults: set<Phase>, disk: Disk, hadSecret: bool, hadPublic: bool)
    requires j.DistinctNames() && Differs(j, start) && BothStaged(j, disk) && Forward in faults
    requires SecretNotNew(j, disk)
    requires Undo in faults || (j.public in start && !hadPublic) || (!hadSecret && j.secret in start)
    ensures CanReach(Commit(j, r => AfterCommit(j, hadSecret, hadPublic, r)), disk, faults, Misses(j, start))
  {
    if Undo in faults || (j.public in start && !hadPublic) {
      CommitMissesPublic(j, start, faults, disk, hadSecret, hadPublic);
    } else {
      CommitMissesSecret(j, start, faults, disk, hadPublic);
    }
  }

  lemma BackUpPublicMisses(j: Job, start: Disk, faults: set<Phase>, disk: Disk, hadSecret: bool)
    requires j.DistinctNames() && Differs(j, start) && BothStaged(j, disk) && Forward in faults
    requires SecretNotNew(j, disk)
    requires Undo in faults || (j.public in start && Check(j.public) in faults) ||
             (!hadSecret && j.secret in start)
    ensures CanReach(BackUpPublic(j, hadSecret), disk, faults, Misses(j, start))
  {
    var bad, prog := Misses(j, start), BackUpPublic(j, hadSecret);
    if j.public !in disk || (j.public in start && Check(j.public) in faults) {
      CommitMisses(j, start, faults, disk, hadSecret, false);
    } else {
      CommitMisses(j, start, faults, (disk - {j.public})[j.publicBak := disk[j.public]], hadSecret, true);
      AsideCanReach(faults, disk, j.public, j.publicBak, prog.fine.fine.fine, prog.fine.fine.failed, prog.fine.failed, bad);
    }
    ProbeCanReach(faults, disk, j.public, prog.fine, prog.failed, bad);
  }

  lemma BackUpSecretMisses(j: Job, start: Disk, faults: set<Phase>, disk: Disk)
    requires j.DistinctNames() && Differs(j, start) && BothStaged(j, disk) && Forward in faults
    requires SecretNotNew(j, disk)
    requires !Undoable(j, start, faults)
    ensures CanReach(BackUpSecret(j), disk, faults, Misses(j, start))
  {
    var bad, prog := Misses(j, start), BackUpSecret(j);
    if j.secret !in disk || (j.secret in start && Check(j.secret) in faults) {
      BackUpPublicMisses(j, start, faults, disk, false);
    } else {
      BackUpPublicMisses(j, start, faults, (disk - {j.secret})[j.secretBak := disk[j.secret]], true);
      AsideCanReach(faults, disk, j.secret, j.secretBak, prog.fine.fine.fine, prog.fine.fine.failed, prog.fine.failed, bad);
    }
    ProbeCanReach(faults, disk, j.secret, prog.fine, prog.failed, bad);
  }

  // ---- the main result ------------------------------------------------------------------------------------

  /** Every legal run, cut off or complete, that has ended leaves the old pair or the new one. */
  ghost predicate AlwaysExact(j: Job, start: Disk, faults: set<Phase>) {
    forall answers :: Legal(Overwrite(j), start, answers, faults) ==>
      ExactOutcome(j, start, Run(Overwrite(j), start, answers).0, Run(Overwrite(j), start, answers).1)
  }

  /** Nothing to roll back, or undo calls that go through and checks that are right. */
  predicate Sound(j: Job, start: Disk, faults: set<Phase>) {
    Forward !in faults || Undoable(j, start, faults)
  }

  lemma SoundIsExact(j: Job, start: Disk, faults: set<Phase>)
    requires j.Fresh(start) && Sound(j, start, faults)
    ensures Always(Overwrite(j), start, faults, Exact(j, start))
  {
    if Undoable(j, start, faults) {
      OverwriteKept(j, start, faults);
      assert Always(Overwrite(j), start, faults, KeptBy(j, start, faults));
      AlwaysWeaker(Overwrite(j), start, faults, KeptBy(j, start, faults), Exact(j, start));
    } else {
      OverwriteExact(j, start, faults);
    }
  }

  /** Rollback is exact exactly when there is nothing to roll back, or undo calls go through and
      no existing file can be taken for absent. */
  lemma ExactRollbackIff(j: Job, start: Disk, faults: set<Phase>)
    requires j.Fresh(start) && Differs(j, start)
    ensures AlwaysExact(j, start, faults) <==> Forward !in faults || Undoable(j, start, faults)
  {
    if Sound(j, start, faults) {
      SoundIsExact(j, start, faults);
      forall answers | Legal(Overwrite(j), start, answers, faults)
        ensures ExactOutcome(j, start, Run(Overwrite(j), start, answers).0, Run(Overwrite(j), start, answers).1)
      {
        AlwaysHolds(Overwrite(j), start, faults, Exact(j, start), answers);
      }
    } else {
      OverwriteMisses(j, start, faults);
      var answers := MissingRun(j, start, faults, Overwrite(j), start);
    }
  }

  lemma MissingRun(j: Job, start: Disk, faults: set<Phase>, prog: Prog, disk: Disk) returns (answers: seq<Answer>)
    requires CanReach(prog, disk, faults, Misses(j, start))
    ensures Legal(prog, disk, answers, faults)
    ensures var (rest, disk') := Run(prog, disk, answers);
            Mixed(j, start, rest, disk') && !ExactOutcome(j, start, rest, disk')
  {
    answers :| Legal(prog, disk, answers, faults) &&
      Mixed(j, start, Run(prog, disk, answers).0, Run(prog, disk, answers).1);
  }

  /** A run that ends with neither pair in place. */
  lemma OverwriteMisses(j: Job, start: Disk, faults: set<Phase>)
    requires j.Fresh(start) && Differs(j, start)
    requires Forward in faults && !Undoable(j, start, faults)
    ensures CanReach(Overwrite(j), start, faults, Misses(j, start))
  {
    BackUpSecretMisses(j, start, faults, start[j.secretTmp := j.secretFile][j.publicTmp := j.publicFile]);
    OverwriteCanReach(j, start, faults, Misses(j, start));
  }
}
