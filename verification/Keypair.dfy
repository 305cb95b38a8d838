/** The keypair write transaction with overwrite (`generate --force`), after its lock is held:
    stage both files, move the old pair aside, rename the new pair in, and undo on failure. */
module Keypair {
  import opened Basics
  import opened Disk

  /** One run: where the pair goes, the names it stages under, and the files it writes. */
  datatype Job = Job(
    secret: Name, public: Name,
    secretTmp: Name, publicTmp: Name, secretBak: Name, publicBak: Name,
    secretFile: File, publicFile: File)
  {
    predicate DistinctNames() {
      secret != public && secretTmp != publicTmp && secretBak != publicBak &&
      secret !in {secretTmp, publicTmp, secretBak, publicBak} &&
      public !in {secretTmp, publicTmp, secretBak, publicBak} &&
      secretTmp !in {secretBak, publicBak} && publicTmp !in {secretBak, publicBak}
    }

    /** The nonces in staged names are fresh. */
    predicate Fresh(disk: Disk) {
      DistinctNames() &&
      secretTmp !in disk && publicTmp !in disk && secretBak !in disk && publicBak !in disk
    }

    function Names(): set<Name> {
      {secret, public, secretTmp, publicTmp, secretBak, publicBak}
    }
  }

  // ---- the program ----------------------------------------------------------------------

  function WriteTempFile(tmp: Name, file: File, fine: Prog, failed: Prog): Prog {
    Step(CreateNew(tmp, file.ino), Forward,
         Step(WriteSome(tmp, file.data), Forward,
              Step(WriteRest(tmp, file.data), Forward,
                   Step(SyncFile(tmp), Forward, fine, failed),
                   failed),
              failed),
         failed)
  }

  function DropTemps(j: Job, next: Prog): Prog {
    Then(Remove(j.secretTmp), Cleanup, Then(Remove(j.publicTmp), Cleanup, next))
  }

  function Restore(had: bool, backup: Name, path: Name, next: Prog): Prog {
    if had then Then(Rename(backup, path), Undo, next) else next
  }

  function Overwrite(j: Job): Prog {
    WriteTempFile(j.secretTmp, j.secretFile, StagePublic(j), Done(Failure(FileWrite(j.secretTmp))))
  }

  function StagePublic(j: Job): Prog {
    WriteTempFile(j.publicTmp, j.publicFile, BackUpSecret(j),
                  Then(Remove(j.secretTmp), Cleanup, Done(Failure(FileWrite(j.publicTmp)))))
  }

  function BackUpSecret(j: Job): Prog {
    Step(Probe(j.secret), Check(j.secret),
         Step(Rename(j.secret, j.secretBak), Forward,
              Step(SyncDir(j.secret), Forward,
                   BackUpPublic(j, true),
                   DropTemps(j, Restore(true, j.secretBak, j.secret, Done(Failure(ParentSync(j.secret)))))),
              DropTemps(j, Done(Failure(FileWrite(j.secret))))),
         BackUpPublic(j, false))
  }

  function BackUpPublic(j: Job, hadSecret: bool): Prog {
    Step(Probe(j.public), Check(j.public),
         Step(Rename(j.public, j.publicBak), Forward,
              Step(SyncDir(j.public), Forward,
                   Commit(j, r => AfterCommit(j, hadSecret, true, r)),
                   DropTemps(j,
                     Restore(true, j.publicBak, j.public,
                       Restore(hadSecret, j.secretBak, j.secret, Done(Failure(ParentSync(j.public))))))),
              DropTemps(j,
                Restore(hadSecret, j.secretBak, j.secret, Done(Failure(FileWrite(j.public)))))),
         Commit(j, r => AfterCommit(j, hadSecret, false, r)))
  }

  /** `commit_keypair_files`, continued by `k` with its result. */
  function Commit(j: Job, k: Verdict -> Prog): Prog {
    Step(Rename(j.publicTmp, j.public), Forward,
         CommitAfterPublic(j, k),
         k(CommitFailure(FileWrite(j.public), Started)))
  }

  /** The rest of the commit once the public key is in place. */
  function CommitAfterPublic(j: Job, k: Verdict -> Prog): Prog {
    Step(SyncDir(j.public), Forward, CommitSecret(j, k),
         k(CommitFailure(ParentSync(j.public), PublicRenamed)))
  }

  function CommitSecret(j: Job, k: Verdict -> Prog): Prog {
    Step(Rename(j.secretTmp, j.secret), Forward,
         Step(SyncDir(j.secret), Forward,
              k(Success),
              k(CommitFailure(ParentSync(j.secret), SecretRenamed))),
         k(CommitFailure(FileWrite(j.secret), PublicRenamed)))
  }

  function AfterCommit(j: Job, hadSecret: bool, hadPublic: bool, r: Verdict): Prog {
    match r
    case CommitFailure(e, stage) =>
      DropTemps(j, Rollback(j, hadSecret, hadPublic, stage, Done(Failure(e))))
    case _ =>
      DropBackup(hadSecret, j.secretBak, DropBackup(hadPublic, j.publicBak, Done(Success)))
  }

  function DropBackup(had: bool, backup: Name, next: Prog): Prog {
    if had then Then(Remove(backup), Finish, next) else next
  }

  /** `rollback_keypair_commit`. */
  function Rollback(j: Job, hadSecret: bool, hadPublic: bool, stage: Stage, next: Prog): Prog {
    var restore := Restore(hadSecret, j.secretBak, j.secret,
                     Restore(hadPublic, j.publicBak, j.public, next));
    var withPublic := if stage == Started then restore else Then(Remove(j.public), Undo, restore);
    if stage == SecretRenamed then Then(Remove(j.secret), Undo, withPublic) else withPublic
  }

  // ---- what every run keeps --------------------------------------------------------------

  predicate HoldsOld(j: Job, old_: File, disk: Disk) {
    Lookup(disk, j.secret) == Some(old_) || Lookup(disk, j.secretBak) == Some(old_)
  }

  /** The commit has returned Ok: only backups are left to delete. */
  predicate Committed(rest: Prog) {
    rest == Done(Success) || (rest.Do? && rest.phase == Finish)
  }

  /** The old secret key is complete under its own name or its backup name until the commit
      has returned Ok, and from then on the new one is complete at the final path. */
  predicate NoLoss(j: Job, start: Disk, rest: Prog, disk: Disk) {
    j.secret in start ==>
      if Committed(rest) then Lookup(disk, j.secret) == Some(j.secretFile)
      else HoldsOld(j, start[j.secret], disk)
  }

  /** At the end both final paths hold the new pair, or both hold exactly what they held. */
  predicate ExactOutcome(j: Job, start: Disk, rest: Prog, disk: Disk) {
    match rest
    case Done(Success) =>
      Lookup(disk, j.secret) == Some(j.secretFile) && Lookup(disk, j.public) == Some(j.publicFile)
    case Done(_) =>
      Lookup(disk, j.secret) == Lookup(start, j.secret) &&
      Lookup(disk, j.public) == Lookup(start, j.public)
    case _ => true
  }

  ghost predicate OthersUntouched(j: Job, start: Disk, disk: Disk) {
    forall p :: p !in j.Names() ==> Lookup(disk, p) == Lookup(start, p)
  }

  /** The undo calls go through and the existence checks report the truth: a check can only be
      wrong about a file that is there. */
  predicate Undoable(j: Job, start: Disk, faults: set<Phase>) {
    Undo !in faults && (j.secret in start ==> Check(j.secret) !in faults) &&
    (j.public in start ==> Check(j.public) !in faults)
  }

  /** After Ok no staged file is left, and no backup if its deletion went through. */
  predicate Tidy(j: Job, faults: set<Phase>, rest: Prog, disk: Disk) {
    rest == Done(Success) ==>
      Lookup(disk, j.secretTmp) == None && Lookup(disk, j.publicTmp) == None &&
      (Finish !in faults ==> Lookup(disk, j.secretBak) == None && Lookup(disk, j.publicBak) == None)
  }

  ghost predicate Kept(j: Job, start: Disk, faults: set<Phase>, rest: Prog, disk: Disk) {
    OthersUntouched(j, start, disk) &&
    NoLoss(j, start, rest, disk) &&
    Tidy(j, faults, rest, disk) &&
    (Undoable(j, start, faults) ==> ExactOutcome(j, start, rest, disk))
  }

  ghost predicate AlwaysKept(j: Job, start: Disk, faults: set<Phase>, prog: Prog, disk: Disk) {
    Always(prog, disk, faults, KeptBy(j, start, faults))
  }

  ghost function KeptBy(j: Job, start: Disk, faults: set<Phase>): (Prog, Disk) -> bool {
    (rest, disk) => Kept(j, start, faults, rest, disk)
  }

  // ---- stage by stage, from the last to the first -----------------------------------------

  /** A name the transaction leaves alone for good, or a backup still to be restored. */
  predicate Restorable(had: bool, backup: Name, path: Name, start: Disk, disk: Disk) {
    if had then path in start && Lookup(disk, backup) == Lookup(start, path)
    else Lookup(disk, path) == Lookup(start, path)
  }

  /** The weaker fact that survives failed undo calls. */
  predicate SecretSafe(j: Job, start: Disk, disk: Disk) {
    j.secret in start ==> HoldsOld(j, start[j.secret], disk)
  }

  /** One call: what holds now, and what holds after each answer. */
  lemma StepKept(j: Job, start: Disk, faults: set<Phase>, prog: Prog, disk: Disk)
    requires prog.Do? && Kept(j, start, faults, prog, disk)
    requires forall a: Answer :: Allowed(prog.phase, a, faults) ==>
               AlwaysKept(j, start, faults,
                 Next(prog, Perform(prog.op, disk, a).1), Perform(prog.op, disk, a).0)
    ensures AlwaysKept(j, start, faults, prog, disk)
  {
    forall a: Answer | Allowed(prog.phase, a, faults)
      ensures var (disk', reply) := Perform(prog.op, disk, a);
              Always(Next(prog, reply), disk', faults, KeptBy(j, start, faults))
    {
      assert AlwaysKept(j, start, faults,
               Next(prog, Perform(prog.op, disk, a).1), Perform(prog.op, disk, a).0);
    }
  }

  /** Putting both backups back, in either order. */
  lemma RestoreKept(j: Job, start: Disk, faults: set<Phase>, disk: Disk,
                    hadSecret: bool, hadPublic: bool, secretFirst: bool, e: Error)
    requires j.Fresh(start) && OthersUntouched(j, start, disk) && SecretSafe(j, start, disk)
    requires hadSecret ==> j.secret in start && Lookup(disk, j.secretBak) == Some(start[j.secret])
    requires Undoable(j, start, faults) ==>
               Restorable(hadSecret, j.secretBak, j.secret, start, disk) &&
               Restorable(hadPublic, j.publicBak, j.public, start, disk)
    ensures AlwaysKept(j, start, faults,
              if secretFirst
              then Restore(hadSecret, j.secretBak, j.secret,
                     Restore(hadPublic, j.publicBak, j.public, Done(Failure(e))))
              else Restore(hadPublic, j.publicBak, j.public,
                     Restore(hadSecret, j.secretBak, j.secret, Done(Failure(e)))),
              disk)
    decreases hadSecret, hadPublic
  {
    var last := Done(Failure(e));
    var prog := if secretFirst
      then Restore(hadSecret, j.secretBak, j.secret, Restore(hadPublic, j.publicBak, j.public, last))
      else Restore(hadPublic, j.publicBak, j.public, Restore(hadSecret, j.secretBak, j.secret, last));
    if !hadSecret && !hadPublic {
      assert prog == last;
    } else {
      var doSecret := hadSecret && (secretFirst || !hadPublic);
      forall a: Answer | Allowed(prog.phase, a, faults)
        ensures AlwaysKept(j, start, faults,
                  Next(prog, Perform(prog.op, disk, a).1), Perform(prog.op, disk, a).0)
      {
        var disk' := Perform(prog.op, disk, a).0;
        if doSecret {
          RestoreKept(j, start, faults, disk', false, hadPublic, secretFirst, e);
        } else {
          RestoreKept(j, start, faults, disk', hadSecret, false, secretFirst, e);
        }
      }
      StepKept(j, start, faults, prog, disk);
    }
  }

  ghost predicate SameButTemps(j: Job, disk: Disk, disk': Disk) {
    forall p :: p != j.secretTmp && p != j.publicTmp ==> Lookup(disk', p) == Lookup(disk, p)
  }

  lemma DropTempsKept(j: Job, start: Disk, faults: set<Phase>, disk: Disk, next: Prog)
    requires j.Fresh(start) && OthersUntouched(j, start, disk) && SecretSafe(j, start, disk)
    requires forall d :: SameButTemps(j, disk, d) ==> AlwaysKept(j, start, faults, next, d)
    ensures AlwaysKept(j, start, faults, DropTemps(j, next), disk)
  {
    var second := Then(Remove(j.publicTmp), Cleanup, next);
    forall a: Answer | Allowed(Cleanup, a, faults)
      ensures AlwaysKept(j, start, faults, second, Perform(Remove(j.secretTmp), disk, a).0)
    {
      var d1 := Perform(Remove(j.secretTmp), disk, a).0;
      forall b: Answer | Allowed(Cleanup, b, faults)
        ensures AlwaysKept(j, start, faults, next, Perform(Remove(j.publicTmp), d1, b).0)
      {
        assert SameButTemps(j, disk, Perform(Remove(j.publicTmp), d1, b).0);
      }
      StepKept(j, start, faults, second, d1);
    }
    StepKept(j, start, faults, DropTemps(j, next), disk);
  }

  /** The old pair has been moved aside as far as it was seen to exist. */
  ghost predicate Aside(j: Job, start: Disk, faults: set<Phase>, disk: Disk,
                        hadSecret: bool, hadPublic: bool) {
    OthersUntouched(j, start, disk) &&
    (hadSecret <==> j.secret in start) &&
    (if hadSecret then Lookup(disk, j.secretBak) == Some(start[j.secret])
     else Lookup(disk, j.secretBak) == None) &&
    (!hadPublic ==> Lookup(disk, j.publicBak) == None) &&
    (Undoable(j, start, faults) ==>
       (hadPublic <==> j.public in start) &&
       (hadPublic ==> Lookup(disk, j.publicBak) == Some(start[j.public])))
  }

  /** Exactly the renames named by `stage` are in place. */
  predicate RenamesDone(j: Job, stage: Stage, disk: Disk) {
    (if stage == SecretRenamed then Lookup(disk, j.secret) == Some(j.secretFile)
     else Lookup(disk, j.secret) == None) &&
    (if stage != Started then Lookup(disk, j.public) == Some(j.publicFile)
     else Lookup(disk, j.public) == None)
  }

  lemma RollbackKept(j: Job, start: Disk, faults: set<Phase>, disk: Disk,
                     hadSecret: bool, hadPublic: bool, stage: Stage, e: Error)
    requires j.Fresh(start) && Aside(j, start, faults, disk, hadSecret, hadPublic)
    requires Undoable(j, start, faults) ==> RenamesDone(j, stage, disk)
    ensures AlwaysKept(j, start, faults,
              Rollback(j, hadSecret, hadPublic, stage, Done(Failure(e))), disk)
  {
    var prog := Rollback(j, hadSecret, hadPublic, stage, Done(Failure(e)));
    if stage == Started {
      RestoreKept(j, start, faults, disk, hadSecret, hadPublic, true, e);
    } else {
      forall a: Answer | Allowed(prog.phase, a, faults)
        ensures AlwaysKept(j, start, faults,
                  Next(prog, Perform(prog.op, disk, a).1), Perform(prog.op, disk, a).0)
      {
        var disk' := Perform(prog.op, disk, a).0;
        if stage == SecretRenamed {
          RollbackAfterSecret(j, start, faults, disk', hadSecret, hadPublic, e);
        } else {
          RestoreKept(j, start, faults, disk', hadSecret, hadPublic, true, e);
        }
      }
      StepKept(j, start, faults, prog, disk);
    }
  }

  /** The new secret key has been removed again; the public one is still to go. */
  lemma RollbackAfterSecret(j: Job, start: Disk, faults: set<Phase>, disk: Disk,
                            hadSecret: bool, hadPublic: bool, e: Error)
    requires j.Fresh(start) && Aside(j, start, faults, disk, hadSecret, hadPublic)
    requires Undoable(j, start, faults) ==> RenamesDone(j, PublicRenamed, disk)
    ensures AlwaysKept(j, start, faults,
              Rollback(j, hadSecret, hadPublic, PublicRenamed, Done(Failure(e))), disk)
  {
    var prog := Rollback(j, hadSecret, hadPublic, PublicRenamed, Done(Failure(e)));
    forall a: Answer | Allowed(prog.phase, a, faults)
      ensures AlwaysKept(j, start, faults,
                Next(prog, Perform(prog.op, disk, a).1), Perform(prog.op, disk, a).0)
    {
      RestoreKept(j, start, faults, Perform(prog.op, disk, a).0, hadSecret, hadPublic, true, e);
    }
    StepKept(j, start, faults, prog, disk);
  }

  lemma CommitFailedKept(j: Job, start: Disk, faults: set<Phase>, disk: Disk,
                         hadSecret: bool, hadPublic: bool, stage: Stage, e: Error)
    requires j.Fresh(start) && Aside(j, start, faults, disk, hadSecret, hadPublic)
    requires Undoable(j, start, faults) ==> RenamesDone(j, stage, disk)
    ensures AlwaysKept(j, start, faults,
              AfterCommit(j, hadSecret, hadPublic, CommitFailure(e, stage)), disk)
  {
    var next := Rollback(j, hadSecret, hadPublic, stage, Done(Failure(e)));
    forall d | SameButTemps(j, disk, d)
      ensures AlwaysKept(j, start, faults, next, d)
    {
      RollbackKept(j, start, faults, d, hadSecret, hadPublic, stage, e);
    }
    DropTempsKept(j, start, faults, disk, next);
  }

  /** Deleting the backups after the commit. */
  lemma FinishKept(j: Job, start: Disk, faults: set<Phase>, disk: Disk,
                   hadSecret: bool, hadPublic: bool)
    requires j.Fresh(start) && OthersUntouched(j, start, disk)
    requires RenamesDone(j, SecretRenamed, disk)
    requires Lookup(disk, j.secretTmp) == None && Lookup(disk, j.publicTmp) == None
    requires hadSecret || Finish in faults || Lookup(disk, j.secretBak) == None
    requires hadPublic || Finish in faults || Lookup(disk, j.publicBak) == None
    ensures AlwaysKept(j, start, faults,
              DropBackup(hadSecret, j.secretBak, DropBackup(hadPublic, j.publicBak, Done(Success))),
              disk)
    decreases hadSecret, hadPublic
  {
    var prog := DropBackup(hadSecret, j.secretBak, DropBackup(hadPublic, j.publicBak, Done(Success)));
    if hadSecret || hadPublic {
      forall a: Answer | Allowed(Finish, a, faults)
        ensures AlwaysKept(j, start, faults,
                  Next(prog, Perform(prog.op, disk, a).1), Perform(prog.op, disk, a).0)
      {
        FinishKept(j, start, faults, Perform(prog.op, disk, a).0, false, hadSecret && hadPublic);
      }
      StepKept(j, start, faults, prog, disk);
    }
  }

  /** The call after which `stage` is reached, then a directory sync; `k` takes the outcome. */
  lemma RenameStepKept(j: Job, start: Disk, faults: set<Phase>, disk: Disk, prog: Prog)
    requires j.Fresh(start) && OthersUntouched(j, start, disk) && SecretSafe(j, start, disk)
    requires prog.Do? && prog.op.Rename? && prog.phase == Forward
    requires prog.op.source in disk
    requires AlwaysKept(j, start, faults, prog.failed, disk)
    requires AlwaysKept(j, start, faults, prog.fine,
               (disk - {prog.op.source})[prog.op.path := disk[prog.op.source]])
    ensures AlwaysKept(j, start, faults, prog, disk)
  {
    StepKept(j, start, faults, prog, disk);
  }

  lemma SyncStepKept(j: Job, start: Disk, faults: set<Phase>, disk: Disk, prog: Prog)
    requires j.Fresh(start) && OthersUntouched(j, start, disk) && SecretSafe(j, start, disk)
    requires prog.Do? && prog.op.SyncDir? && prog.phase == Forward
    requires AlwaysKept(j, start, faults, prog.fine, disk)
    requires AlwaysKept(j, start, faults, prog.failed, disk)
    ensures AlwaysKept(j, start, faults, prog, disk)
  {
    StepKept(j, start, faults, prog, disk);
  }

  lemma ProbeStepKept(j: Job, start: Disk, faults: set<Phase>, disk: Disk, prog: Prog)
    requires j.Fresh(start) && OthersUntouched(j, start, disk) && SecretSafe(j, start, disk)
    requires prog.Do? && prog.op.Probe? && prog.phase == Check(prog.op.path)
    requires prog.op.path in disk ==> AlwaysKept(j, start, faults, prog.fine, disk)
    requires prog.op.path !in disk || prog.phase in faults ==>
               AlwaysKept(j, start, faults, prog.failed, disk)
    ensures AlwaysKept(j, start, faults, prog, disk)
  {
    StepKept(j, start, faults, prog, disk);
  }

  lemma CommitKept(j: Job, start: Disk, faults: set<Phase>, disk: Disk,
                   hadSecret: bool, hadPublic: bool)
    requires j.Fresh(start) && Aside(j, start, faults, disk, hadSecret, hadPublic)
    requires Undoable(j, start, faults) ==> RenamesDone(j, Started, disk)
    requires Lookup(disk, j.secretTmp) == Some(j.secretFile)
    requires Lookup(disk, j.publicTmp) == Some(j.publicFile)
    ensures AlwaysKept(j, start, faults,
              Commit(j, r => AfterCommit(j, hadSecret, hadPublic, r)), disk)
  {
    var k := r => AfterCommit(j, hadSecret, hadPublic, r);
    var first := Commit(j, k);
    CommitFailedKept(j, start, faults, disk, hadSecret, hadPublic, Started, FileWrite(j.public));
    var d1 := (disk - {j.publicTmp})[j.public := disk[j.publicTmp]];
    CommitPublicRenamed(j, start, faults, d1, hadSecret, hadPublic, k);
    assert first.fine == CommitAfterPublic(j, k);
    RenameStepKept(j, start, faults, disk, first);
  }

  lemma CommitPublicRenamed(j: Job, start: Disk, faults: set<Phase>, disk: Disk,
                            hadSecret: bool, hadPublic: bool, k: Verdict -> Prog)
    requires j.Fresh(start) && Aside(j, start, faults, disk, hadSecret, hadPublic)
    requires k == (r => AfterCommit(j, hadSecret, hadPublic, r))
    requires Undoable(j, start, faults) ==> RenamesDone(j, PublicRenamed, disk)
    requires Lookup(disk, j.secretTmp) == Some(j.secretFile) && Lookup(disk, j.publicTmp) == None
    requires Lookup(disk, j.public) == Some(j.publicFile)
    ensures AlwaysKept(j, start, faults, CommitAfterPublic(j, k), disk)
  {
    CommitFailedKept(j, start, faults, disk, hadSecret, hadPublic, PublicRenamed, ParentSync(j.public));
    CommitFailedKept(j, start, faults, disk, hadSecret, hadPublic, PublicRenamed, FileWrite(j.secret));
    var d2 := (disk - {j.secretTmp})[j.secret := disk[j.secretTmp]];
    CommitFailedKept(j, start, faults, d2, hadSecret, hadPublic, SecretRenamed, ParentSync(j.secret));
    FinishKept(j, start, faults, d2, hadSecret, hadPublic);
    SyncStepKept(j, start, faults, d2, CommitSecret(j, k).fine);
    RenameStepKept(j, start, faults, disk, CommitSecret(j, k));
    SyncStepKept(j, start, faults, disk, CommitAfterPublic(j, k));
  }

  /** Staged files dropped, then whatever was moved aside put back. */
  lemma DropAndRestoreKept(j: Job, start: Disk, faults: set<Phase>, disk: Disk,
                           hadSecret: bool, hadPublic: bool, e: Error)
    requires j.Fresh(start) && OthersUntouched(j, start, disk) && SecretSafe(j, start, disk)
    requires hadSecret ==> j.secret in start && Lookup(disk, j.secretBak) == Some(start[j.secret])
    requires Undoable(j, start, faults) ==>
               Restorable(hadSecret, j.secretBak, j.secret, start, disk) &&
               Restorable(hadPublic, j.publicBak, j.public, start, disk)
    ensures AlwaysKept(j, start, faults,
              DropTemps(j, Restore(hadPublic, j.publicBak, j.public,
                             Restore(hadSecret, j.secretBak, j.secret, Done(Failure(e))))), disk)
  {
    var next := Restore(hadPublic, j.publicBak, j.public,
                  Restore(hadSecret, j.secretBak, j.secret, Done(Failure(e))));
    forall d | SameButTemps(j, disk, d)
      ensures AlwaysKept(j, start, faults, next, d)
    {
      RestoreKept(j, start, faults, d, hadSecret, hadPublic, false, e);
    }
    DropTempsKept(j, start, faults, disk, next);
  }

  lemma BackUpPublicKept(j: Job, start: Disk, faults: set<Phase>, disk: Disk, hadSecret: bool)
    requires j.Fresh(start) && OthersUntouched(j, start, disk)
    requires hadSecret <==> j.secret in start
    requires if hadSecret then Lookup(disk, j.secretBak) == Some(start[j.secret])
             else Lookup(disk, j.secretBak) == None
    requires Lookup(disk, j.secret) == None && Lookup(disk, j.publicBak) == None
    requires Lookup(disk, j.public) == Lookup(start, j.public)
    requires Lookup(disk, j.secretTmp) == Some(j.secretFile)
    requires Lookup(disk, j.publicTmp) == Some(j.publicFile)
    ensures AlwaysKept(j, start, faults, BackUpPublic(j, hadSecret), disk)
  {
    var prog := BackUpPublic(j, hadSecret);
    if j.public !in disk || Check(j.public) in faults {
      CommitKept(j, start, faults, disk, hadSecret, false);
    }
    if j.public in disk {
      DropAndRestoreKept(j, start, faults, disk, hadSecret, false, FileWrite(j.public));
      var d1 := (disk - {j.public})[j.publicBak := disk[j.public]];
      DropAndRestoreKept(j, start, faults, d1, hadSecret, true, ParentSync(j.public));
      CommitKept(j, start, faults, d1, hadSecret, true);
      SyncStepKept(j, start, faults, d1, prog.fine.fine);
      RenameStepKept(j, start, faults, disk, prog.fine);
    }
    ProbeStepKept(j, start, faults, disk, prog);
  }

  lemma BackUpSecretKept(j: Job, start: Disk, faults: set<Phase>, disk: Disk)
    requires j.Fresh(start) && OthersUntouched(j, start, disk)
    requires j.secret in start ==> Check(j.secret) !in faults
    requires Lookup(disk, j.secretBak) == None && Lookup(disk, j.publicBak) == None
    requires Lookup(disk, j.secret) == Lookup(start, j.secret)
    requires Lookup(disk, j.public) == Lookup(start, j.public)
    requires Lookup(disk, j.secretTmp) == Some(j.secretFile)
    requires Lookup(disk, j.publicTmp) == Some(j.publicFile)
    ensures AlwaysKept(j, start, faults, BackUpSecret(j), disk)
  {
    if j.secret in disk {
      MoveSecretKept(j, start, faults, disk);
    } else {
      BackUpPublicKept(j, start, faults, disk, false);
    }
    ProbeStepKept(j, start, faults, disk, BackUpSecret(j));
  }

  lemma MoveSecretKept(j: Job, start: Disk, faults: set<Phase>, disk: Disk)
    requires j.Fresh(start) && OthersUntouched(j, start, disk) && j.secret in disk
    requires Lookup(disk, j.publicBak) == None
    requires Lookup(disk, j.secret) == Lookup(start, j.secret)
    requires Lookup(disk, j.public) == Lookup(start, j.public)
    requires Lookup(disk, j.secretTmp) == Some(j.secretFile)
    requires Lookup(disk, j.publicTmp) == Some(j.publicFile)
    ensures AlwaysKept(j, start, faults, BackUpSecret(j).fine, disk)
  {
    var prog := BackUpSecret(j).fine;
    DropAndRestoreKept(j, start, faults, disk, false, false, FileWrite(j.secret));
    var d1 := (disk - {j.secret})[j.secretBak := disk[j.secret]];
    assert AlwaysKept(j, start, faults, prog.fine, d1) by {
      DropAndRestoreKept(j, start, faults, d1, true, false, ParentSync(j.secret));
      BackUpPublicKept(j, start, faults, d1, true);
      SyncStepKept(j, start, faults, d1, prog.fine);
    }
    RenameStepKept(j, start, faults, disk, prog);
  }

  /** Nothing but staged names has been touched. */
  ghost predicate Staging(j: Job, start: Disk, disk: Disk) {
    forall p :: p != j.secretTmp && p != j.publicTmp ==> Lookup(disk, p) == Lookup(start, p)
  }

  lemma StagingKept(j: Job, start: Disk, faults: set<Phase>, disk: Disk, prog: Prog)
    requires j.Fresh(start) && Staging(j, start, disk)
    requires prog != Done(Success) && (prog.Do? ==> prog.phase != Finish)
    ensures Kept(j, start, faults, prog, disk)
  {
    assert Lookup(disk, j.secret) == Lookup(start, j.secret);
    assert Lookup(disk, j.public) == Lookup(start, j.public);
  }

  /** `write_temp_file` under either staged name. */
  lemma WriteTempFileKept(j: Job, start: Disk, faults: set<Phase>, disk: Disk,
                          tmp: Name, file: File, fine: Prog, failed: Prog)
    requires j.Fresh(start) && Staging(j, start, disk)
    requires tmp !in disk && tmp in {j.secretTmp, j.publicTmp}
    requires AlwaysKept(j, start, faults, fine, disk[tmp := file])
    requires forall d :: (forall p :: p != tmp ==> Lookup(d, p) == Lookup(disk, p)) ==>
               AlwaysKept(j, start, faults, failed, d)
    ensures AlwaysKept(j, start, faults, WriteTempFile(tmp, file, fine, failed), disk)
  {
    var prog := WriteTempFile(tmp, file, fine, failed);
    var write := prog.fine;
    var rest := write.fine;
    StagingKept(j, start, faults, disk[tmp := file], rest.fine);
    StepKept(j, start, faults, rest.fine, disk[tmp := file]);
    forall data: Bytes ensures AlwaysKept(j, start, faults, rest, disk[tmp := File(file.ino, data)]) {
      var d := disk[tmp := File(file.ino, data)];
      assert d[tmp := file] == disk[tmp := file];
      StagingKept(j, start, faults, d, rest);
      StepKept(j, start, faults, rest, d);
    }
    var created := disk[tmp := File(file.ino, [])];
    forall part: nat
      ensures created[tmp := File(file.ino, Prefix(file.data, part))]
           == disk[tmp := File(file.ino, Prefix(file.data, part))]
    {
    }
    StagingKept(j, start, faults, created, write);
    StepKept(j, start, faults, write, created);
    StagingKept(j, start, faults, disk, prog);
    StepKept(j, start, faults, prog, disk);
  }

  lemma StagePublicKept(j: Job, start: Disk, faults: set<Phase>, disk: Disk)
    requires j.Fresh(start) && disk == start[j.secretTmp := j.secretFile]
    requires j.secret in start ==> Check(j.secret) !in faults
    ensures AlwaysKept(j, start, faults, StagePublic(j), disk)
  {
    BackUpSecretKept(j, start, faults, disk[j.publicTmp := j.publicFile]);
    var failed := Then(Remove(j.secretTmp), Cleanup, Done(Failure(FileWrite(j.publicTmp))));
    forall d | forall p :: p != j.publicTmp ==> Lookup(d, p) == Lookup(disk, p)
      ensures AlwaysKept(j, start, faults, failed, d)
    {
      assert Staging(j, start, d) by {
        forall p | p != j.secretTmp && p != j.publicTmp ensures Lookup(d, p) == Lookup(start, p) {
          assert Lookup(d, p) == Lookup(disk, p);
        }
      }
      forall a: Answer {
        StagingKept(j, start, faults, Perform(failed.op, d, a).0, failed.fine);
      }
      StagingKept(j, start, faults, d, failed);
      StepKept(j, start, faults, failed, d);
    }
    WriteTempFileKept(j, start, faults, disk, j.publicTmp, j.publicFile, BackUpSecret(j), failed);
  }

  // ---- the main results --------------------------------------------------------------------

  lemma OverwriteKept(j: Job, start: Disk, faults: set<Phase>)
    requires j.Fresh(start)
    requires j.secret in start ==> Check(j.secret) !in faults
    ensures AlwaysKept(j, start, faults, Overwrite(j), start)
  {
    StagePublicKept(j, start, faults, start[j.secretTmp := j.secretFile]);
    WriteTempFileKept(j, start, faults, start, j.secretTmp, j.secretFile, StagePublic(j),
                      Done(Failure(FileWrite(j.secretTmp))));
  }

  /** Every configuration a legal run reaches. */
  lemma OverwriteReaches(j: Job, start: Disk, faults: set<Phase>, answers: seq<Answer>)
    requires j.Fresh(start) && (j.secret in start ==> Check(j.secret) !in faults)
    requires Legal(Overwrite(j), start, answers, faults)
    ensures var (rest, disk) := Run(Overwrite(j), start, answers);
            Kept(j, start, faults, rest, disk)
  {
    var prog := Overwrite(j);
    assert Always(prog, start, faults, KeptBy(j, start, faults)) by {
      OverwriteKept(j, start, faults);
    }
    AlwaysHolds(prog, start, faults, KeptBy(j, start, faults), answers);
  }

  /** Some legal run reaches a state without the old key before the commit has returned. */
  ghost predicate CanLose(j: Job, start: Disk, faults: set<Phase>, prog: Prog, disk: Disk) {
    CanReach(prog, disk, faults, Loses(j, start))
  }

  ghost function Loses(j: Job, start: Disk): (Prog, Disk) -> bool {
    (rest, disk) => !NoLoss(j, start, rest, disk)
  }

  /** Every state every legal run of the transaction reaches, crashes included. */
  ghost predicate NeverLoses(j: Job, start: Disk, faults: set<Phase>) {
    forall answers :: Legal(Overwrite(j), start, answers, faults) ==>
      NoLoss(j, start, Run(Overwrite(j), start, answers).0, Run(Overwrite(j), start, answers).1)
  }

  lemma CommitCanLose(j: Job, start: Disk, faults: set<Phase>, disk: Disk, k: Verdict -> Prog)
    requires j.Fresh(start) && j.secret in start && start[j.secret] != j.secretFile
    requires Lookup(disk, j.secretTmp) == Some(j.secretFile) && j.publicTmp in disk
    requires Lookup(disk, j.secretBak) == None
    ensures CanLose(j, start, faults, Commit(j, k), disk)
  {
    var ok := Answer(true, 0);
    var d1 := Perform(Rename(j.publicTmp, j.public), disk, ok).0;
    var d2 := Perform(Rename(j.secretTmp, j.secret), d1, ok).0;
    var last := CommitSecret(j, k).fine;
    CanReachNow(last, d2, faults, Loses(j, start));
    CanReachStep(CommitSecret(j, k), d1, faults, Loses(j, start), ok);
    CanReachStep(CommitAfterPublic(j, k), d1, faults, Loses(j, start), ok);
    CanReachStep(Commit(j, k), disk, faults, Loses(j, start), ok);
  }

  lemma BackUpPublicCanLose(j: Job, start: Disk, faults: set<Phase>, disk: Disk)
    requires j.Fresh(start) && j.secret in start && start[j.secret] != j.secretFile
    requires Lookup(disk, j.secretTmp) == Some(j.secretFile) && j.publicTmp in disk
    requires Lookup(disk, j.secretBak) == None
    ensures CanLose(j, start, faults, BackUpPublic(j, false), disk)
  {
    var ok := Answer(true, 0);
    var prog := BackUpPublic(j, false);
    if j.public in disk {
      MovePublicCanLose(j, start, faults, disk);
      assert Next(prog, Perform(prog.op, disk, ok).1) == prog.fine;
    } else {
      CommitCanLose(j, start, faults, disk, r => AfterCommit(j, false, false, r));
      assert Next(prog, Perform(prog.op, disk, ok).1) == prog.failed;
    }
    CanReachStep(prog, disk, faults, Loses(j, start), ok);
  }

  lemma MovePublicCanLose(j: Job, start: Disk, faults: set<Phase>, disk: Disk)
    requires j.Fresh(start) && j.secret in start && start[j.secret] != j.secretFile
    requires Lookup(disk, j.secretTmp) == Some(j.secretFile) && j.publicTmp in disk
    requires Lookup(disk, j.secretBak) == None && j.public in disk
    ensures CanLose(j, start, faults, BackUpPublic(j, false).fine, disk)
  {
    var ok := Answer(true, 0);
    var prog := BackUpPublic(j, false).fine;
    var d1 := Perform(prog.op, disk, ok).0;
    assert CanLose(j, start, faults, prog.fine.fine, d1) by {
      CommitCanLose(j, start, faults, d1, r => AfterCommit(j, false, true, r));
    }
    CanReachStep(prog.fine, d1, faults, Loses(j, start), ok);
    CanReachStep(prog, disk, faults, Loses(j, start), ok);
  }

  lemma WriteTempFileCanReach(faults: set<Phase>, disk: Disk, tmp: Name, file: File, fine: Prog,
                              failed: Prog, bad: (Prog, Disk) -> bool)
    requires tmp !in disk && CanReach(fine, disk[tmp := file], faults, bad)
    ensures CanReach(WriteTempFile(tmp, file, fine, failed), disk, faults, bad)
  {
    var prog := WriteTempFile(tmp, file, fine, failed);
    var ok := Answer(true, |file.data|);
    var created := disk[tmp := File(file.ino, [])];
    var written := disk[tmp := file];
    assert created[tmp := file] == written && written[tmp := file] == written;
    CanReachStep(prog.fine.fine.fine, written, faults, bad, ok);
    CanReachStep(prog.fine.fine, written, faults, bad, ok);
    CanReachStep(prog.fine, created, faults, bad, ok);
    CanReachStep(prog, disk, faults, bad, ok);
  }

  /** A run that stages both files gets to move the old pair aside. */
  lemma OverwriteCanReach(j: Job, start: Disk, faults: set<Phase>, bad: (Prog, Disk) -> bool)
    requires j.Fresh(start)
    requires CanReach(BackUpSecret(j), start[j.secretTmp := j.secretFile][j.publicTmp := j.publicFile], faults, bad)
    ensures CanReach(Overwrite(j), start, faults, bad)
  {
    WriteTempFileCanReach(faults, start[j.secretTmp := j.secretFile], j.publicTmp, j.publicFile, BackUpSecret(j),
      Then(Remove(j.secretTmp), Cleanup, Done(Failure(FileWrite(j.publicTmp)))), bad);
    WriteTempFileCanReach(faults, start, j.secretTmp, j.secretFile, StagePublic(j),
      Done(Failure(FileWrite(j.secretTmp))), bad);
  }

  /** Both files staged, the check for the old secret key fails, and the commit renames over it. */
  lemma OverwriteCanLose(j: Job, start: Disk, faults: set<Phase>)
    requires j.Fresh(start) && j.secret in start && start[j.secret] != j.secretFile
    requires Check(j.secret) in faults
    ensures CanLose(j, start, faults, Overwrite(j), start)
  {
    var d1 := start[j.secretTmp := j.secretFile];
    var d2 := d1[j.publicTmp := j.publicFile];
    BackUpPublicCanLose(j, start, faults, d2);
    CanReachStep(BackUpSecret(j), d2, faults, Loses(j, start), Answer(false, 0));
    OverwriteCanReach(j, start, faults, Loses(j, start));
  }

  /** No lost key. Whatever other calls fail (forward, cleanup and undo calls included) and
      wherever the run is cut off, the old secret key is complete under its own name or its
      backup name until the commit has returned Ok with the new one in place. This holds exactly
      when the existence check of the secret path cannot fail: `Path::exists` turns an error into
      "absent", no backup is taken, and the commit renames the new key over the only copy. */
  lemma NoLostKey(j: Job, start: Disk, faults: set<Phase>)
    requires j.Fresh(start) && j.secret in start && start[j.secret] != j.secretFile
    ensures NeverLoses(j, start, faults) <==> Check(j.secret) !in faults
  {
    if Check(j.secret) !in faults {
      forall answers | Legal(Overwrite(j), start, answers, faults)
        ensures NoLoss(j, start, Run(Overwrite(j), start, answers).0, Run(Overwrite(j), start, answers).1)
      {
        OverwriteReaches(j, start, faults, answers);
      }
    } else {
      OverwriteCanLose(j, start, faults);
    }
  }

  /** Exact rollback. From any starting directory (all four combinations of existing files), with
      any forward or cleanup call failing but checks truthful and undo calls let through, a run
      that ends with an error leaves both final paths as they were, one that ends with Ok has put
      both new files there and left nothing staged, and no other name is touched in between. */
  lemma ExactRollback(j: Job, start: Disk, faults: set<Phase>, answers: seq<Answer>)
    requires j.Fresh(start) && Undoable(j, start, faults)
    requires Legal(Overwrite(j), start, answers, faults)
    ensures var (rest, disk) := Run(Overwrite(j), start, answers);
            ExactOutcome(j, start, rest, disk) && Tidy(j, faults, rest, disk) &&
            OthersUntouched(j, start, disk)
  {
    OverwriteReaches(j, start, faults, answers);
  }

  /** Exactly the renames named by `stage` have been done since `before`: a path whose rename is
      done holds the new file and its staged name is free; any other path holds what it held, and
      its staged file is complete. */
  predicate DoneSince(j: Job, before: Disk, stage: Stage, disk: Disk) {
    (if stage == SecretRenamed
     then Lookup(disk, j.secret) == Some(j.secretFile) && Lookup(disk, j.secretTmp) == None
     else Lookup(disk, j.secret) == Lookup(before, j.secret) && Lookup(disk, j.secretTmp) == Some(j.secretFile)) &&
    (if stage != Started
     then Lookup(disk, j.public) == Some(j.publicFile) && Lookup(disk, j.publicTmp) == None
     else Lookup(disk, j.public) == Lookup(before, j.public) && Lookup(disk, j.publicTmp) == Some(j.publicFile))
  }

  /** What `commit_keypair_files` reports is what it did. */
  predicate StageReported(j: Job, before: Disk, rest: Prog, disk: Disk) {
    match rest
    case Done(Success) => DoneSince(j, before, SecretRenamed, disk)
    case Done(CommitFailure(_, stage)) => DoneSince(j, before, stage, disk)
    case Done(Failure(_)) => false
    case _ => true
  }

  /** The stage in a commit error is exactly the set of renames done, for every fault pattern and
      whatever the final paths hold when the commit begins. */
  lemma StageIsExact(j: Job, before: Disk, faults: set<Phase>, answers: seq<Answer>)
    requires j.DistinctNames()
    requires Lookup(before, j.secretTmp) == Some(j.secretFile)
    requires Lookup(before, j.publicTmp) == Some(j.publicFile)
    requires Legal(Commit(j, r => Done(r)), before, answers, faults)
    ensures var (rest, disk) := Run(Commit(j, r => Done(r)), before, answers);
            StageReported(j, before, rest, disk)
  {
    var inv := (rest, d) => StageReported(j, before, rest, d);
    var k := r => Done(r);
    var d1 := (before - {j.publicTmp})[j.public := j.publicFile];
    var d2 := (d1 - {j.secretTmp})[j.secret := j.secretFile];
    assert Always(CommitSecret(j, k).fine, d2, faults, inv);
    assert Always(CommitSecret(j, k), d1, faults, inv);
    assert Always(CommitAfterPublic(j, k), d1, faults, inv);
    assert Always(Commit(j, k), before, faults, inv);
    AlwaysHolds(Commit(j, k), before, faults, inv, answers);
  }

  // ---- the names a run touches ---------------------------------------------------------------

  lemma WriteTempFileTouches(tmp: Name, file: File, fine: Prog, failed: Prog, names: set<Name>)
    requires tmp in names && TouchesOnly(fine, names) && TouchesOnly(failed, names)
    ensures TouchesOnly(WriteTempFile(tmp, file, fine, failed), names)
  {
    var sync := Step(SyncFile(tmp), Forward, fine, failed);
    var rest := Step(WriteRest(tmp, file.data), Forward, sync, failed);
    assert TouchesOnly(sync, names) && TouchesOnly(rest, names);
    assert TouchesOnly(Step(WriteSome(tmp, file.data), Forward, rest, failed), names);
  }

  lemma DropTempsTouches(j: Job, next: Prog)
    requires TouchesOnly(next, j.Names())
    ensures TouchesOnly(DropTemps(j, next), j.Names())
  {
    assert TouchesOnly(Then(Remove(j.publicTmp), Cleanup, next), j.Names());
  }

  lemma RollbackTouches(j: Job, hadSecret: bool, hadPublic: bool, stage: Stage, e: Error)
    ensures TouchesOnly(Rollback(j, hadSecret, hadPublic, stage, Done(Failure(e))), j.Names())
  {
    var restorePublic := Restore(hadPublic, j.publicBak, j.public, Done(Failure(e)));
    assert TouchesOnly(restorePublic, j.Names());
    var restore := Restore(hadSecret, j.secretBak, j.secret, restorePublic);
    assert TouchesOnly(restore, j.Names());
    assert TouchesOnly(Then(Remove(j.public), Undo, restore), j.Names());
  }

  lemma AfterCommitTouches(j: Job, hadSecret: bool, hadPublic: bool, r: Verdict)
    ensures TouchesOnly(AfterCommit(j, hadSecret, hadPublic, r), j.Names())
  {
    if r.CommitFailure? {
      RollbackTouches(j, hadSecret, hadPublic, r.stage, r.error);
      DropTempsTouches(j, Rollback(j, hadSecret, hadPublic, r.stage, Done(Failure(r.error))));
    } else {
      assert TouchesOnly(DropBackup(hadPublic, j.publicBak, Done(Success)), j.Names());
    }
  }

  lemma CommitTouches(j: Job, k: Verdict -> Prog)
    requires forall r :: TouchesOnly(k(r), j.Names())
    ensures TouchesOnly(Commit(j, k), j.Names())
  {
    assert TouchesOnly(CommitSecret(j, k).fine, j.Names());
    assert TouchesOnly(CommitSecret(j, k), j.Names());
    assert TouchesOnly(CommitAfterPublic(j, k), j.Names());
  }

  lemma CommitToEndTouches(j: Job, hadSecret: bool, hadPublic: bool)
    ensures TouchesOnly(Commit(j, r => AfterCommit(j, hadSecret, hadPublic, r)), j.Names())
  {
    var k := r => AfterCommit(j, hadSecret, hadPublic, r);
    forall r ensures TouchesOnly(k(r), j.Names()) {
      AfterCommitTouches(j, hadSecret, hadPublic, r);
    }
    CommitTouches(j, k);
  }

  lemma BackUpPublicTouches(j: Job, hadSecret: bool)
    ensures TouchesOnly(BackUpPublic(j, hadSecret), j.Names())
  {
    var e, f := Done(Failure(ParentSync(j.public))), Done(Failure(FileWrite(j.public)));
    CommitToEndTouches(j, hadSecret, true);
    CommitToEndTouches(j, hadSecret, false);
    var back := Restore(hadSecret, j.secretBak, j.secret, e);
    assert TouchesOnly(back, j.Names());
    assert TouchesOnly(Restore(true, j.publicBak, j.public, back), j.Names());
    assert TouchesOnly(Restore(hadSecret, j.secretBak, j.secret, f), j.Names());
    DropTempsTouches(j, Restore(true, j.publicBak, j.public, back));
    DropTempsTouches(j, Restore(hadSecret, j.secretBak, j.secret, f));
    var move := BackUpPublic(j, hadSecret).fine;
    assert TouchesOnly(move.fine, j.Names());
    assert TouchesOnly(move, j.Names());
  }

  lemma BackUpSecretTouches(j: Job)
    ensures TouchesOnly(BackUpSecret(j), j.Names())
  {
    var e, f := Done(Failure(ParentSync(j.secret))), Done(Failure(FileWrite(j.secret)));
    BackUpPublicTouches(j, true);
    BackUpPublicTouches(j, false);
    assert TouchesOnly(Restore(true, j.secretBak, j.secret, e), j.Names());
    DropTempsTouches(j, Restore(true, j.secretBak, j.secret, e));
    DropTempsTouches(j, f);
    var move := BackUpSecret(j).fine;
    assert TouchesOnly(move.fine, j.Names()) && TouchesOnly(move, j.Names());
  }

  /** No call of the transaction touches a name that is not one of the run's six. */
  lemma OverwriteTouches(j: Job)
    ensures TouchesOnly(Overwrite(j), j.Names())
  {
    var dropped := Then(Remove(j.secretTmp), Cleanup, Done(Failure(FileWrite(j.publicTmp))));
    BackUpSecretTouches(j);
    assert TouchesOnly(dropped, j.Names());
    WriteTempFileTouches(j.publicTmp, j.publicFile, BackUpSecret(j), dropped, j.Names());
    WriteTempFileTouches(j.secretTmp, j.secretFile, StagePublic(j), Done(Failure(FileWrite(j.secretTmp))), j.Names());
  }
}
