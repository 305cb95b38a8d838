/** What the synchronisation calls of the writers are for: a power cut loses directory entries made
    since the directory was last synchronised, and contents whose file was not. */
module PowerLoss {
  import opened Basics
  import opened Disk
  import opened Keypair
  import A = AtomicWrite
  import C = CreateOnly

  /** The directory an entry is in. */
  function DirOf(p: Name): Name {
    if p == [] then [] else p[..|p| - 1]
  }

  /** A directory as it was at some time, and the files whose contents were not on disk then. */
  datatype Version = Version(disk: Disk, unsynced: set<Name>)

  function UnsyncedAfter(op: Op, reply: Reply, unsynced: set<Name>): set<Name> {
    match op
    case CreateNew(p, _) => if reply == Fine then unsynced + {p} else unsynced
    case WriteSome(p, _) => unsynced + {p}
    case WriteRest(p, _) => unsynced + {p}
    case SyncFile(p) => if reply == Fine then unsynced - {p} else unsynced
    case Link(s, p) =>
      if reply != Fine then unsynced else if s in unsynced then unsynced + {p} else unsynced - {p}
    case Rename(s, p) =>
      if reply != Fine then unsynced else if s in unsynced then unsynced - {s} + {p} else unsynced - {s, p}
    case _ => unsynced
  }

  predicate Flushes(op: Op, reply: Reply, dir: Name) {
    op.SyncDir? && DirOf(op.path) == dir && reply == Fine
  }

  function Latest(versions: seq<Version>): Version
    requires versions != []
  {
    versions[|versions| - 1]
  }

  /** A run, and the versions of one directory since it was last synchronised. */
  function Watch(dir: Name, prog: Prog, versions: seq<Version>, answers: seq<Answer>): (r: (Prog, seq<Version>))
    requires versions != []
    ensures r.1 != [] && (r.0, Latest(r.1).disk) == Run(prog, Latest(versions).disk, answers)
    decreases |answers|
  {
    if prog.Done? || answers == [] then (prog, versions)
    else
      var now := Latest(versions);
      var (disk', reply) := Perform(prog.op, now.disk, answers[0]);
      var next := Version(disk', UnsyncedAfter(prog.op, reply, now.unsynced));
      Watch(dir, Next(prog, reply), if Flushes(prog.op, reply, dir) then [next] else versions + [next], answers[1..])
  }

  /** What may be left of one version of a directory: its entries, with whatever contents where
      these had not been synchronised. */
  ghost predicate LeftOf(v: Version, dir: Name, left: Disk) {
    forall p :: DirOf(p) == dir ==>
      (p in left <==> p in v.disk) && (p in left && p !in v.unsynced ==> left[p] == v.disk[p])
  }

  /** After a run cut off here by a power cut, the directory may be any version of it since it was
      last synchronised. */
  ghost predicate MayBeLeft(dir: Name, prog: Prog, start: Disk, answers: seq<Answer>, left: Disk) {
    exists v :: v in Watch(dir, prog, [Version(start, {})], answers).1 && LeftOf(v, dir, left)
  }

  // ---- programs that synchronise in time ----------------------------------------------------------

  /** The entries a call may change. */
  function Changes(op: Op): set<Name> {
    match op
    case CreateNew(p, _) => {p}
    case WriteSome(p, _) => {p}
    case WriteRest(p, _) => {p}
    case Link(_, p) => {p}
    case Rename(s, p) => {s, p}
    case Remove(p) => {p}
    case _ => {}
  }

  /** The final paths whose entries are the same in all versions of their directories. */
  function CleanAfter(op: Op, reply: Reply, finals: set<Name>, clean: set<Name>): set<Name> {
    if op.SyncDir? && reply == Fine then clean + set p | p in finals && DirOf(p) == DirOf(op.path)
    else clean - Changes(op)
  }

  /** Only staged files ever hold contents that have not been synchronised, and once the commit has
      returned Ok the final paths have reached the disk. */
  ghost predicate Durable(prog: Prog, staged: set<Name>, finals: set<Name>, unsynced: set<Name>, clean: set<Name>) {
    unsynced <= staged && (Committed(prog) ==> finals <= clean) &&
    (prog.Do? ==>
       forall reply: Reply ::
         (Committed(prog) ==> Committed(Next(prog, reply))) &&
         Durable(Next(prog, reply), staged, finals, UnsyncedAfter(prog.op, reply, unsynced),
                 CleanAfter(prog.op, reply, finals, clean)))
  }

  /** The versions of a directory in view of a program that synchronises in time. */
  ghost predicate Settled(dir: Name, prog: Prog, versions: seq<Version>, staged: set<Name>, finals: set<Name>, clean: set<Name>,
                          early: Disk -> bool) {
    versions != [] &&
    Durable(prog, staged, finals, Latest(versions).unsynced, clean) &&
    (forall v :: v in versions ==> v.unsynced <= staged) &&
    (forall v, p :: v in versions && p in clean && DirOf(p) == dir ==>
       Lookup(v.disk, p) == Lookup(Latest(versions).disk, p)) &&
    (!Committed(prog) ==> forall v :: v in versions ==> early(v.disk))
  }

  lemma StepSettled(dir: Name, prog: Prog, versions: seq<Version>, staged: set<Name>, finals: set<Name>, clean: set<Name>,
                    early: Disk -> bool, a: Answer)
    requires prog.Do? && clean <= finals && Settled(dir, prog, versions, staged, finals, clean, early)
    requires var (disk', reply) := Perform(prog.op, Latest(versions).disk, a);
             !Committed(Next(prog, reply)) ==> early(disk')
    ensures var now := Latest(versions);
            var (disk', reply) := Perform(prog.op, now.disk, a);
            var next := Version(disk', UnsyncedAfter(prog.op, reply, now.unsynced));
            Settled(dir, Next(prog, reply), if Flushes(prog.op, reply, dir) then [next] else versions + [next],
                    staged, finals, CleanAfter(prog.op, reply, finals, clean), early)
  {
    var now := Latest(versions);
    var (disk', reply) := Perform(prog.op, now.disk, a);
    var next := Version(disk', UnsyncedAfter(prog.op, reply, now.unsynced));
    var versions' := if Flushes(prog.op, reply, dir) then [next] else versions + [next];
    var clean' := CleanAfter(prog.op, reply, finals, clean);
    assert Latest(versions') == next;
    assert Durable(Next(prog, reply), staged, finals, next.unsynced, clean');
    forall v, p | v in versions' && p in clean' && DirOf(p) == dir
      ensures Lookup(v.disk, p) == Lookup(next.disk, p)
    {
      if !Flushes(prog.op, reply, dir) {
        assert p in clean && p !in Changes(prog.op);
        EntryKept(prog.op, now.disk, a, p);
      }
    }
  }

  lemma EntryKept(op: Op, disk: Disk, a: Answer, p: Name)
    requires p !in Changes(op)
    ensures Lookup(Perform(op, disk, a).0, p) == Lookup(disk, p)
  {
  }

  ghost predicate EarlyFrom(inv: (Prog, Disk) -> bool, early: Disk -> bool) {
    forall rest: Prog, disk: Disk :: inv(rest, disk) && !Committed(rest) ==> early(disk)
  }

  lemma {:induction false} WatchSettled(
      dir: Name, prog: Prog, versions: seq<Version>, staged: set<Name>, finals: set<Name>, clean: set<Name>, early: Disk -> bool,
      answers: seq<Answer>, faults: set<Phase>, inv: (Prog, Disk) -> bool)
    returns (clean': set<Name>)
    requires clean <= finals && Settled(dir, prog, versions, staged, finals, clean, early)
    requires EarlyFrom(inv, early) && Always(prog, Latest(versions).disk, faults, inv)
    requires Legal(prog, Latest(versions).disk, answers, faults)
    ensures var (rest, versions') := Watch(dir, prog, versions, answers);
            Settled(dir, rest, versions', staged, finals, clean', early) && inv(rest, Latest(versions').disk)
    decreases |answers|
  {
    clean' := clean;
    if prog.Do? && answers != [] {
      var now := Latest(versions);
      var (disk', reply) := Perform(prog.op, now.disk, answers[0]);
      assert Always(Next(prog, reply), disk', faults, inv);
      StepSettled(dir, prog, versions, staged, finals, clean, early, answers[0]);
      var next := Version(disk', UnsyncedAfter(prog.op, reply, now.unsynced));
      clean' := WatchSettled(dir, Next(prog, reply), if Flushes(prog.op, reply, dir) then [next] else versions + [next],
                             staged, finals, CleanAfter(prog.op, reply, finals, clean), early, answers[1..], faults, inv);
    }
  }

  /** Before the commit has returned Ok a power cut leaves the final paths in one directory as they
      were at some earlier point of the run; from then on it leaves them as they are. */
  lemma PowerCut(dir: Name, prog: Prog, start: Disk, staged: set<Name>, finals: set<Name>, early: Disk -> bool,
                 answers: seq<Answer>, faults: set<Phase>, inv: (Prog, Disk) -> bool, left: Disk)
    returns (was: Disk)
    requires Durable(prog, staged, finals, {}, finals) && EarlyFrom(inv, early)
    requires Always(prog, start, faults, inv) && Legal(prog, start, answers, faults)
    requires MayBeLeft(dir, prog, start, answers, left)
    ensures forall p :: p !in staged && DirOf(p) == dir ==> Lookup(left, p) == Lookup(was, p)
    ensures var (rest, disk) := Run(prog, start, answers);
            inv(rest, disk) &&
            if Committed(rest) then forall p :: p in finals && DirOf(p) == dir ==> Lookup(was, p) == Lookup(disk, p)
            else early(was)
  {
    var versions := [Version(start, {})];
    assert inv(prog, start);
    assert Settled(dir, prog, versions, staged, finals, finals, early);
    var clean := WatchSettled(dir, prog, versions, staged, finals, finals, early, answers, faults, inv);
    var (rest, versions') := Watch(dir, prog, versions, answers);
    var v :| v in versions' && LeftOf(v, dir, left);
    was := v.disk;
  }

  // ---- giving up ------------------------------------------------------------------------------------

  /** Nothing is written or committed any more, and no staged file is moved. */
  predicate GivesUp(prog: Prog, staged: set<Name>) {
    !Committed(prog) &&
    (prog.Do? ==>
       !prog.op.CreateNew? && !prog.op.WriteSome? && !prog.op.WriteRest? &&
       (prog.op.Link? || prog.op.Rename? ==> prog.op.source !in staged) &&
       GivesUp(prog.fine, staged) && GivesUp(prog.taken, staged) && GivesUp(prog.failed, staged))
  }

  lemma {:induction false} GivesUpDurable(prog: Prog, staged: set<Name>, finals: set<Name>,
                                          unsynced: set<Name>, clean: set<Name>)
    requires GivesUp(prog, staged) && unsynced <= staged && staged !! finals
    ensures Durable(prog, staged, finals, unsynced, clean)
    decreases prog
  {
    if prog.Do? {
      forall reply: Reply
        ensures Durable(Next(prog, reply), staged, finals, UnsyncedAfter(prog.op, reply, unsynced),
                        CleanAfter(prog.op, reply, finals, clean))
      {
        GivesUpDurable(Next(prog, reply), staged, finals, UnsyncedAfter(prog.op, reply, unsynced),
                       CleanAfter(prog.op, reply, finals, clean));
      }
    }
  }

  /** One call of which the failure is given up on. */
  lemma StepDurable(prog: Prog, staged: set<Name>, finals: set<Name>, unsynced: set<Name>, clean: set<Name>)
    requires prog.Do? && !Committed(prog) && unsynced <= staged && staged !! finals
    requires UnsyncedAfter(prog.op, Failed, unsynced) <= staged
    requires UnsyncedAfter(prog.op, AlreadyExists, unsynced) <= staged
    requires Durable(prog.fine, staged, finals, UnsyncedAfter(prog.op, Fine, unsynced), CleanAfter(prog.op, Fine, finals, clean))
    requires GivesUp(prog.failed, staged) && GivesUp(prog.taken, staged)
    ensures Durable(prog, staged, finals, unsynced, clean)
  {
    forall reply: Reply
      ensures Durable(Next(prog, reply), staged, finals, UnsyncedAfter(prog.op, reply, unsynced),
                      CleanAfter(prog.op, reply, finals, clean))
    {
      if reply != Fine {
        GivesUpDurable(Next(prog, reply), staged, finals, UnsyncedAfter(prog.op, reply, unsynced),
                       CleanAfter(prog.op, reply, finals, clean));
      }
    }
  }

  lemma ProbeDurable(prog: Prog, staged: set<Name>, finals: set<Name>, clean: set<Name>)
    requires prog.Do? && prog.op.Probe? && !Committed(prog) && prog.taken == prog.failed
    requires Durable(prog.fine, staged, finals, {}, clean) && Durable(prog.failed, staged, finals, {}, clean)
    ensures Durable(prog, staged, finals, {}, clean)
  {
    assert clean - {} == clean;
  }

  lemma DropTempsGivesUp(j: Job, next: Prog, staged: set<Name>)
    requires GivesUp(next, staged)
    ensures GivesUp(DropTemps(j, next), staged)
  {
    assert GivesUp(DropTemps(j, next).fine, staged);
  }

  // ---- staged files ---------------------------------------------------------------------------------

  lemma StagedDurable(tmp: Name, file: File, fine: Prog, failed: Prog, staged: set<Name>, finals: set<Name>,
                      unsynced: set<Name>, clean: set<Name>)
    requires tmp in staged && staged !! finals && unsynced <= staged && clean <= finals
    requires GivesUp(failed, staged) && Durable(fine, staged, finals, unsynced - {tmp}, clean)
    ensures Durable(WriteTempFile(tmp, file, fine, failed).fine, staged, finals, unsynced + {tmp}, clean)
  {
    var write := WriteTempFile(tmp, file, fine, failed).fine;
    var now := unsynced + {tmp};
    assert now + {tmp} == now && now - {tmp} == unsynced - {tmp};
    assert clean - {tmp} == clean && clean - {} == clean;
    StepDurable(write.fine.fine, staged, finals, now, clean);
    StepDurable(write.fine, staged, finals, now, clean);
    StepDurable(write, staged, finals, now, clean);
  }

  lemma WriteTempFileDurable(tmp: Name, file: File, fine: Prog, failed: Prog, staged: set<Name>, finals: set<Name>,
                             unsynced: set<Name>, clean: set<Name>)
    requires tmp in staged && staged !! finals && unsynced <= staged && clean <= finals
    requires GivesUp(failed, staged) && Durable(fine, staged, finals, unsynced - {tmp}, clean)
    ensures Durable(WriteTempFile(tmp, file, fine, failed), staged, finals, unsynced, clean)
  {
    StagedDurable(tmp, file, fine, failed, staged, finals, unsynced, clean);
    assert clean - {tmp} == clean;
    StepDurable(WriteTempFile(tmp, file, fine, failed), staged, finals, unsynced, clean);
  }

  lemma StageDurable(tmp: Name, file: File, mode: bool, fine: Prog, failed: Prog, modeFailed: Prog, finals: set<Name>)
    requires tmp !in finals && GivesUp(failed, {tmp}) && GivesUp(modeFailed, {tmp}) && Durable(fine, {tmp}, finals, {}, finals)
    ensures Durable(A.Stage(tmp, file, mode, fine, failed, modeFailed), {tmp}, finals, {}, finals)
  {
    var prog := A.Stage(tmp, file, mode, fine, failed, modeFailed);
    assert finals - {tmp} == finals && finals - {} == finals && {} + {tmp} == {tmp} && {} - {tmp} == {};
    StagedDurable(tmp, file, fine, failed, {tmp}, finals, {}, finals);
    if mode { StepDurable(prog.fine, {tmp}, finals, {tmp}, finals); }
    StepDurable(prog, {tmp}, finals, {}, finals);
  }

  // ---- one file ---------------------------------------------------------------------------------------

  lemma ReplaceDurable(path: Name, tmp: Name, file: File, mode: bool)
    requires path != tmp
    ensures Durable(A.AtomicReplace(path, tmp, file, mode), {tmp}, {path}, {}, {path})
  {
    var synced := Step(SyncDir(path), Forward, Done(Success), Done(Failure(ParentSync(path))));
    var rename := Step(Rename(tmp, path), Forward, synced, A.DropTmp(tmp, Failure(FileWrite(path))));
    var failed := A.DropTmp(tmp, Failure(FileWrite(tmp)));
    StepDurable(synced, {tmp}, {path}, {}, {});
    assert {path} - {tmp, path} == {};
    StepDurable(rename, {tmp}, {path}, {}, {path});
    StageDurable(tmp, file, mode, rename, failed, failed, {path});
  }

  /** A replaced file is the complete old or the complete new one after a power cut at any point, and
      the new one if the replacement had succeeded. */
  lemma ReplaceSurvives(path: Name, tmp: Name, file: File, mode: bool, start: Disk, answers: seq<Answer>, left: Disk)
    requires A.Fresh(path, tmp, start)
    requires MayBeLeft(DirOf(path), A.AtomicReplace(path, tmp, file, mode), start, answers, left)
    ensures Lookup(left, path) == Lookup(start, path) || Lookup(left, path) == Some(file)
    ensures Run(A.AtomicReplace(path, tmp, file, mode), start, answers).0 == Done(Success) ==>
              Lookup(left, path) == Some(file)
  {
    var prog, faults := A.AtomicReplace(path, tmp, file, mode), {Forward, Cleanup};
    var inv := A.ReplacedBy(path, tmp, file, start, faults);
    var early := (d: Disk) => Lookup(d, path) == Lookup(start, path) || Lookup(d, path) == Some(file);
    ReplaceDurable(path, tmp, file, mode);
    A.AtomicReplaceAlways(path, tmp, file, mode, start, faults);
    A.ReplacePhases(path, tmp, file, mode);
    AnyAnswersLegal(prog, start, answers, faults);
    var was := PowerCut(DirOf(path), prog, start, {tmp}, {path}, early, answers, faults, inv, left);
  }

  lemma CreateDurable(path: Name, tmp: Name, file: File)
    requires path != tmp
    ensures Durable(A.AtomicCreate(path, tmp, file), {tmp}, {path}, {}, {path})
  {
    var failed, modeFailed := A.DropTmp(tmp, Failure(FileWrite(tmp))), A.DropTmp(tmp, Failure(FileWrite(path)));
    var link := A.AtomicCreate(path, tmp, file).fine.fine.fine.fine.fine;
    assert {path} - {tmp} == {path} && {path} - {path} == {};
    assert Durable(link.fine.fine, {tmp}, {path}, {}, {path});
    StepDurable(link.fine, {tmp}, {path}, {}, {});
    StepDurable(link, {tmp}, {path}, {}, {path});
    StageDurable(tmp, file, true, link, failed, modeFailed, {path});
  }

  /** So is a created one, and a file that was there is not lost. */
  lemma CreateSurvives(path: Name, tmp: Name, file: File, start: Disk, faults: set<Phase>, answers: seq<Answer>, left: Disk)
    requires A.Fresh(path, tmp, start) && Legal(A.AtomicCreate(path, tmp, file), start, answers, faults)
    requires MayBeLeft(DirOf(path), A.AtomicCreate(path, tmp, file), start, answers, left)
    ensures Lookup(left, path) == Lookup(start, path) || (path !in start && Lookup(left, path) == Some(file))
    ensures Run(A.AtomicCreate(path, tmp, file), start, answers).0 == Done(Success) ==>
              path !in start && Lookup(left, path) == Some(file)
  {
    var prog := A.AtomicCreate(path, tmp, file);
    var inv := A.CreatedBy(path, tmp, file, start, faults);
    var early := (d: Disk) =>
      Lookup(d, path) == Lookup(start, path) || (path !in start && Lookup(d, path) == Some(file));
    CreateDurable(path, tmp, file);
    A.AtomicCreateAlways(path, tmp, file, start, faults);
    var was := PowerCut(DirOf(path), prog, start, {tmp}, {path}, early, answers, faults, inv, left);
  }

  /** The plain create synchronises nothing: the file may be gone after it has said Ok. */
  lemma WriteNewMayVanish(path: Name, file: File, start: Disk)
    requires path !in start
    ensures var answers := [Answer(true, 0), Answer(true, 0), Answer(true, 0)];
            Run(A.WriteNew(path, file), start, answers).0 == Done(Success) &&
            MayBeLeft(DirOf(path), A.WriteNew(path, file), start, answers, start)
  {
    var dir, ok, prog := DirOf(path), Answer(true, 0), A.WriteNew(path, file);
    var v0 := Version(start, {});
    var d1 := Perform(prog.op, start, ok).0;
    var v1 := Version(d1, {} + {path});
    var d2 := Perform(prog.fine.op, d1, ok).0;
    var v2 := Version(d2, {} + {path} + {path});
    var v3 := Version(Perform(prog.fine.fine.op, d2, ok).0, {} + {path} + {path} + {path});
    assert [ok, ok, ok][1..] == [ok, ok] && [ok, ok][1..] == [ok] && [ok][1..] == [];
    assert [v0] + [v1] == [v0, v1] && [v0, v1] + [v2] == [v0, v1, v2] && [v0, v1, v2] + [v3] == [v0, v1, v2, v3];
    var done := Watch(dir, prog.fine.fine, [v0, v1, v2], [ok]);
    assert Perform(prog.fine.fine.op, d2, ok) == (v3.disk, Fine) && Latest([v0, v1, v2]) == v2;
    assert done == Watch(dir, prog.fine.fine.fine, [v0, v1, v2, v3], []);
    assert Watch(dir, prog.fine, [v0, v1], [ok, ok]) == done;
    assert Watch(dir, prog, [v0], [ok, ok, ok]) == done;
    assert v0 in done.1 && LeftOf(v0, dir, start);
  }

  // ---- a new pair ---------------------------------------------------------------------------------------

  function Finals(j: Job): set<Name> {
    {j.secret, j.public}
  }

  function Staged(j: Job): set<Name> {
    {j.secretTmp, j.publicTmp}
  }

  lemma UndoSecretGivesUp(j: Job, e: Error)
    ensures GivesUp(C.UndoSecret(j, e), Staged(j))
  {
    DropTempsGivesUp(j, Done(Failure(e)), Staged(j));
  }

  lemma PublishedDurable(j: Job)
    requires j.DistinctNames()
    ensures Durable(DropTemps(j, Done(Success)), Staged(j), Finals(j), {}, Finals(j))
  {
    var finals := Finals(j);
    assert finals - {j.publicTmp} == finals && finals - {j.secretTmp} == finals;
    assert Durable(DropTemps(j, Done(Success)).fine, Staged(j), finals, {}, finals);
  }

  /** A staged file is linked to its final path and that is synchronised, then the rest follows. */
  lemma LinkDurable(prog: Prog, tmp: Name, path: Name, j: Job)
    requires j.DistinctNames() && path in Finals(j) && tmp in Staged(j)
    requires prog.Do? && prog.fine.Do? && prog.op == Link(tmp, path) && prog.fine.op == SyncDir(path)
    requires prog.phase == prog.fine.phase == Forward
    requires prog.taken == prog.failed && prog.fine.taken == prog.fine.failed
    requires GivesUp(prog.failed, Staged(j)) && GivesUp(prog.fine.failed, Staged(j))
    requires Durable(prog.fine.fine, Staged(j), Finals(j), {}, Finals(j))
    ensures Durable(prog, Staged(j), Finals(j), {}, Finals(j))
  {
    var linked := CleanAfter(prog.op, Fine, Finals(j), Finals(j));
    assert {} - {path} == {};
    assert CleanAfter(prog.fine.op, Fine, Finals(j), linked) == Finals(j);
    StepDurable(prog.fine, Staged(j), Finals(j), {}, linked);
    StepDurable(prog, Staged(j), Finals(j), {}, Finals(j));
  }

  lemma LinkPublicDurable(j: Job)
    requires j.DistinctNames()
    ensures Durable(C.LinkPublic(j), Staged(j), Finals(j), {}, Finals(j))
  {
    PublishedDurable(j);
    UndoSecretGivesUp(j, ParentSync(j.public));
    UndoSecretGivesUp(j, FileWrite(j.public));
    LinkDurable(C.LinkPublic(j), j.publicTmp, j.public, j);
  }

  lemma LinkSecretDurable(j: Job)
    requires j.DistinctNames()
    ensures Durable(C.LinkSecret(j), Staged(j), Finals(j), {}, Finals(j))
  {
    LinkPublicDurable(j);
    UndoSecretGivesUp(j, ParentSync(j.secret));
    DropTempsGivesUp(j, Done(Failure(FileWrite(j.secret))), Staged(j));
    LinkDurable(C.LinkSecret(j), j.secretTmp, j.secret, j);
  }

  lemma CreatePairDurable(j: Job)
    requires j.DistinctNames()
    ensures Durable(C.CreatePair(j), Staged(j), Finals(j), {}, Finals(j))
  {
    var prog := C.CreatePair(j);
    LinkSecretDurable(j);
    StageBothDurable(j);
    ProbeDurable(prog.failed, Staged(j), Finals(j), Finals(j));
    ProbeDurable(prog, Staged(j), Finals(j), Finals(j));
  }

  lemma StageBothDurable(j: Job)
    requires j.DistinctNames() && Durable(C.LinkSecret(j), Staged(j), Finals(j), {}, Finals(j))
    ensures Durable(C.StageBoth(j), Staged(j), Finals(j), {}, Finals(j))
  {
    var finals, staged := Finals(j), Staged(j);
    var dropped := Then(Remove(j.secretTmp), Cleanup, Done(Failure(FileWrite(j.publicTmp))));
    assert {} - {j.publicTmp} == {} && {} - {j.secretTmp} == {};
    WriteTempFileDurable(j.publicTmp, j.publicFile, C.LinkSecret(j), dropped, staged, finals, {}, finals);
    WriteTempFileDurable(j.secretTmp, j.secretFile,
      WriteTempFile(j.publicTmp, j.publicFile, C.LinkSecret(j), dropped),
      Done(Failure(FileWrite(j.secretTmp))), staged, finals, {}, finals);
  }

  /** A run alone, as a case of many runs at a time. */
  ghost function OrderlyAlone(j: Job, start: Disk, faults: set<Phase>): (Prog, Disk) -> bool {
    (rest: Prog, d: Disk) => C.Orderly([j], start, faults, C.World(d, [rest]))
  }

  lemma {:induction false} AlwaysOrderly(j: Job, start: Disk, faults: set<Phase>, prog: Prog, disk: Disk)
    requires C.Contenders([j], start) && C.Orderly([j], start, faults, C.World(disk, [prog]))
    ensures Always(prog, disk, faults, OrderlyAlone(j, start, faults))
    decreases prog
  {
    if prog.Do? {
      forall a: Answer | Allowed(prog.phase, a, faults)
        ensures var (disk', reply) := Perform(prog.op, disk, a);
                Always(Next(prog, reply), disk', faults, OrderlyAlone(j, start, faults))
      {
        var (disk', reply) := Perform(prog.op, disk, a);
        C.MoveOrderly([j], start, faults, C.World(disk, [prog]), C.Turn(0, a));
        assert [prog][0 := Next(prog, reply)] == [Next(prog, reply)];
        AlwaysOrderly(j, start, faults, Next(prog, reply), disk');
      }
    }
  }

  /** Both final paths hold what they held, or the complete file of this run where they held nothing. */
  ghost predicate CompleteOrBefore(j: Job, start: Disk, d: Disk) {
    (Lookup(d, j.secret) == if j.secret in start then Some(start[j.secret])
                            else if j.secret in d then Some(j.secretFile) else None) &&
    (Lookup(d, j.public) == if j.public in start then Some(start[j.public])
                            else if j.public in d then Some(j.publicFile) else None)
  }

  lemma OrderlyComplete(j: Job, start: Disk, faults: set<Phase>, rest: Prog, d: Disk)
    requires C.Contenders([j], start) && C.Orderly([j], start, faults, C.World(d, [rest]))
    ensures CompleteOrBefore(j, start, d)
  {
    var w := C.World(d, [rest]);
    assert C.Disciplined([j][0], w.procs[0], C.Own([j][0], d), faults);
    assert C.Proper(j, rest, C.Own(j, d), faults);
    assert j.secret in d ==> C.Accounted([j], start, d, j.secret);
    assert j.public in d ==> C.Accounted([j], start, d, j.public);
  }

  ghost function CompleteOrBeforeBy(j: Job, start: Disk): Disk -> bool {
    (d: Disk) => CompleteOrBefore(j, start, d)
  }

  /** Creating a pair, too: after a power cut at any point each final path holds what it held or a
      complete file. */
  lemma CreatePairSurvives(j: Job, start: Disk, faults: set<Phase>, answers: seq<Answer>, p: Name, left: Disk)
    requires C.Contenders([j], start) && Legal(C.CreatePair(j), start, answers, faults)
    requires MayBeLeft(DirOf(p), C.CreatePair(j), start, answers, left)
    requires p in Finals(j)
    ensures Lookup(left, p) == Lookup(start, p) ||
            (p !in start && Lookup(left, p) == Some(if p == j.secret then j.secretFile else j.publicFile))
  {
    assert [j][0].Fresh(start);
    CreatePairDurable(j);
    C.BeginOrderly([j], start, faults);
    assert C.Begin([j], start).procs == [C.CreatePair([j][0])];
    AlwaysOrderly(j, start, faults, C.CreatePair(j), start);
    OrderlySurvives(j, C.CreatePair(j), start, faults, answers, p, left);
  }

  lemma OrderlySurvives(j: Job, prog: Prog, start: Disk, faults: set<Phase>, answers: seq<Answer>, p: Name, left: Disk)
    requires C.Contenders([j], start) && Legal(prog, start, answers, faults)
    requires Durable(prog, Staged(j), Finals(j), {}, Finals(j))
    requires Always(prog, start, faults, OrderlyAlone(j, start, faults))
    requires MayBeLeft(DirOf(p), prog, start, answers, left) && p in Finals(j)
    ensures Lookup(left, p) == Lookup(start, p) ||
            (p !in start && Lookup(left, p) == Some(if p == j.secret then j.secretFile else j.publicFile))
  {
    var inv, early := OrderlyAlone(j, start, faults), CompleteOrBeforeBy(j, start);
    forall rest: Prog, d: Disk | inv(rest, d) ensures early(d) {
      OrderlyComplete(j, start, faults, rest, d);
    }
    assert [j][0].Fresh(start);
    var was := PowerCut(DirOf(p), prog, start, Staged(j), Finals(j), early, answers, faults, inv, left);
    var (rest, disk) := Run(prog, start, answers);
    assert early(disk);
  }

  // ---- the overwrite transaction ---------------------------------------------------------------------------

  lemma RestoreGivesUp(had: bool, backup: Name, path: Name, next: Prog, staged: set<Name>)
    requires GivesUp(next, staged) && backup !in staged
    ensures GivesUp(Restore(had, backup, path, next), staged)
  {
  }

  lemma UndoGivesUp(j: Job, hadSecret: bool, hadPublic: bool, e: Error)
    requires j.DistinctNames()
    ensures GivesUp(DropTemps(j, Restore(hadPublic, j.publicBak, j.public,
                      Restore(hadSecret, j.secretBak, j.secret, Done(Failure(e))))), Staged(j))
  {
    var last := Restore(hadSecret, j.secretBak, j.secret, Done(Failure(e)));
    RestoreGivesUp(hadSecret, j.secretBak, j.secret, Done(Failure(e)), Staged(j));
    RestoreGivesUp(hadPublic, j.publicBak, j.public, last, Staged(j));
    DropTempsGivesUp(j, Restore(hadPublic, j.publicBak, j.public, last), Staged(j));
  }

  lemma CommitFailedGivesUp(j: Job, hadSecret: bool, hadPublic: bool, e: Error, stage: Stage)
    requires j.DistinctNames()
    ensures GivesUp(AfterCommit(j, hadSecret, hadPublic, CommitFailure(e, stage)), Staged(j))
  {
    var last := Restore(hadPublic, j.publicBak, j.public, Done(Failure(e)));
    RestoreGivesUp(hadPublic, j.publicBak, j.public, Done(Failure(e)), Staged(j));
    RestoreGivesUp(hadSecret, j.secretBak, j.secret, last, Staged(j));
    var restore := Restore(hadSecret, j.secretBak, j.secret, last);
    assert GivesUp(Then(Remove(j.public), Undo, restore), Staged(j));
    var rollback := Rollback(j, hadSecret, hadPublic, stage, Done(Failure(e)));
    assert GivesUp(rollback, Staged(j));
    DropTempsGivesUp(j, rollback, Staged(j));
  }

  lemma FinishDurable(j: Job, hadSecret: bool, hadPublic: bool)
    requires j.DistinctNames()
    ensures Committed(AfterCommit(j, hadSecret, hadPublic, Success))
    ensures Durable(AfterCommit(j, hadSecret, hadPublic, Success), Staged(j), Finals(j), {}, Finals(j))
  {
    var finals := Finals(j);
    assert finals - {j.secretBak} == finals && finals - {j.publicBak} == finals;
    assert Durable(Done(Success), Staged(j), finals, {}, finals);
    assert Durable(DropBackup(hadPublic, j.publicBak, Done(Success)), Staged(j), finals, {}, finals);
  }

  lemma CommitSecretDurable(j: Job, hadSecret: bool, hadPublic: bool, k: Verdict -> Prog, clean: set<Name>)
    requires j.DistinctNames() && k == (r => AfterCommit(j, hadSecret, hadPublic, r))
    requires j.public in clean && clean <= Finals(j)
    ensures Durable(CommitSecret(j, k), Staged(j), Finals(j), {}, clean)
  {
    var prog := CommitSecret(j, k);
    FinishDurable(j, hadSecret, hadPublic);
    CommitFailedGivesUp(j, hadSecret, hadPublic, ParentSync(j.secret), SecretRenamed);
    CommitFailedGivesUp(j, hadSecret, hadPublic, FileWrite(j.secret), PublicRenamed);
    var renamed := clean - {j.secretTmp, j.secret};
    assert CleanAfter(prog.fine.op, Fine, Finals(j), renamed) == Finals(j);
    StepDurable(prog.fine, Staged(j), Finals(j), {}, renamed);
    assert {} - {j.secretTmp, j.secret} == {};
    StepDurable(prog, Staged(j), Finals(j), {}, clean);
  }

  lemma CommitDurable(j: Job, hadSecret: bool, hadPublic: bool, clean: set<Name>)
    requires j.DistinctNames() && clean <= Finals(j)
    ensures Durable(Commit(j, r => AfterCommit(j, hadSecret, hadPublic, r)), Staged(j), Finals(j), {}, clean)
  {
    var k := r => AfterCommit(j, hadSecret, hadPublic, r);
    var prog := Commit(j, k);
    CommitFailedGivesUp(j, hadSecret, hadPublic, FileWrite(j.public), Started);
    CommitFailedGivesUp(j, hadSecret, hadPublic, ParentSync(j.public), PublicRenamed);
    var renamed := clean - {j.publicTmp, j.public};
    var synced := CleanAfter(prog.fine.op, Fine, Finals(j), renamed);
    CommitSecretDurable(j, hadSecret, hadPublic, k, synced);
    StepDurable(prog.fine, Staged(j), Finals(j), {}, renamed);
    assert {} - {j.publicTmp, j.public} == {};
    StepDurable(prog, Staged(j), Finals(j), {}, clean);
  }

  /** An existing file is moved aside and that is synchronised, then the rest follows. */
  lemma MoveAsideDurable(prog: Prog, path: Name, backup: Name, j: Job, clean: set<Name>)
    requires j.DistinctNames() && clean <= Finals(j) && path in Finals(j) && backup !in Staged(j)
    requires prog.Do? && prog.fine.Do? && prog.op == Rename(path, backup) && prog.fine.op == SyncDir(path)
    requires prog.phase == prog.fine.phase == Forward
    requires backup !in Finals(j) && prog.taken == prog.failed && prog.fine.taken == prog.fine.failed
    requires GivesUp(prog.failed, Staged(j)) && GivesUp(prog.fine.failed, Staged(j))
    requires forall clean: set<Name> :: clean <= Finals(j) ==> Durable(prog.fine.fine, Staged(j), Finals(j), {}, clean)
    ensures Durable(prog, Staged(j), Finals(j), {}, clean)
  {
    var moved := CleanAfter(prog.op, Fine, Finals(j), clean);
    assert {} - {path, backup} == {};
    StepDurable(prog.fine, Staged(j), Finals(j), {}, moved);
    StepDurable(prog, Staged(j), Finals(j), {}, clean);
  }

  lemma BackUpPublicDurable(j: Job, hadSecret: bool, clean: set<Name>)
    requires j.DistinctNames() && clean <= Finals(j)
    ensures Durable(BackUpPublic(j, hadSecret), Staged(j), Finals(j), {}, clean)
  {
    var prog := BackUpPublic(j, hadSecret);
    forall clean: set<Name> | clean <= Finals(j)
      ensures Durable(prog.fine.fine.fine, Staged(j), Finals(j), {}, clean)
    {
      CommitDurable(j, hadSecret, true, clean);
    }
    UndoGivesUp(j, hadSecret, true, ParentSync(j.public));
    UndoGivesUp(j, hadSecret, false, FileWrite(j.public));
    MoveAsideDurable(prog.fine, j.public, j.publicBak, j, clean);
    CommitDurable(j, hadSecret, false, clean);
    ProbeDurable(prog, Staged(j), Finals(j), clean);
  }

  lemma BackUpSecretDurable(j: Job)
    requires j.DistinctNames()
    ensures Durable(BackUpSecret(j), Staged(j), Finals(j), {}, Finals(j))
  {
    var prog := BackUpSecret(j);
    forall clean: set<Name> | clean <= Finals(j)
      ensures Durable(prog.fine.fine.fine, Staged(j), Finals(j), {}, clean)
    {
      BackUpPublicDurable(j, true, clean);
    }
    UndoGivesUp(j, true, false, ParentSync(j.secret));
    UndoGivesUp(j, false, false, FileWrite(j.secret));
    MoveAsideDurable(prog.fine, j.secret, j.secretBak, j, Finals(j));
    BackUpPublicDurable(j, false, Finals(j));
    ProbeDurable(prog, Staged(j), Finals(j), Finals(j));
  }

  lemma OverwriteDurable(j: Job)
    requires j.DistinctNames()
    ensures Durable(Overwrite(j), Staged(j), Finals(j), {}, Finals(j))
  {
    var finals, staged := Finals(j), Staged(j);
    var dropped := Then(Remove(j.secretTmp), Cleanup, Done(Failure(FileWrite(j.publicTmp))));
    assert {} - {j.publicTmp} == {} && {} - {j.secretTmp} == {};
    BackUpSecretDurable(j);
    WriteTempFileDurable(j.publicTmp, j.publicFile, BackUpSecret(j), dropped, staged, finals, {}, finals);
    WriteTempFileDurable(j.secretTmp, j.secretFile, StagePublic(j), Done(Failure(FileWrite(j.secretTmp))),
                         staged, finals, {}, finals);
  }

  ghost function StillOld(j: Job, start: Disk): Disk -> bool {
    (d: Disk) => j.secret in start ==> HoldsOld(j, start[j.secret], d)
  }

  lemma KeptEarly(j: Job, start: Disk, faults: set<Phase>)
    ensures EarlyFrom(KeptBy(j, start, faults), StillOld(j, start))
  {
    forall rest: Prog, d: Disk | KeptBy(j, start, faults)(rest, d) && !Committed(rest)
      ensures StillOld(j, start)(d)
    {
      assert NoLoss(j, start, rest, d);
    }
  }

  lemma KeptSurvives(j: Job, prog: Prog, start: Disk, faults: set<Phase>, answers: seq<Answer>, left: Disk)
    requires j.Fresh(start) && DirOf(j.secretBak) == DirOf(j.secret)
    requires Durable(prog, Staged(j), Finals(j), {}, Finals(j)) && AlwaysKept(j, start, faults, prog, start)
    requires Legal(prog, start, answers, faults) && MayBeLeft(DirOf(j.secret), prog, start, answers, left)
    ensures NoLoss(j, start, Run(prog, start, answers).0, left)
  {
    KeptEarly(j, start, faults);
    var was := PowerCut(DirOf(j.secret), prog, start, Staged(j), Finals(j), StillOld(j, start),
                        answers, faults, KeptBy(j, start, faults), left);
    var (rest, disk) := Run(prog, start, answers);
    assert NoLoss(j, start, rest, disk);
    assert Lookup(left, j.secretBak) == Lookup(was, j.secretBak);
  }

  /** The overwrite transaction survives power cuts: the old secret key is complete under its own
      name or its backup name until the commit has returned Ok, and from then on the new one is
      complete under that name. */
  lemma OverwriteSurvives(j: Job, start: Disk, faults: set<Phase>, answers: seq<Answer>, left: Disk)
    requires j.Fresh(start) && (j.secret in start ==> Check(j.secret) !in faults)
    requires DirOf(j.secretBak) == DirOf(j.secret)
    requires Legal(Overwrite(j), start, answers, faults)
    requires MayBeLeft(DirOf(j.secret), Overwrite(j), start, answers, left)
    ensures NoLoss(j, start, Run(Overwrite(j), start, answers).0, left)
  {
    OverwriteKept(j, start, faults);
    OverwriteDurable(j);
    KeptSurvives(j, Overwrite(j), start, faults, answers, left);
  }

  ghost predicate DurablePair(j: Job, prog: Prog) {
    Durable(prog, Staged(j), Finals(j), {}, Finals(j))
  }

  lemma PairDurable(j: Job, prog: Prog)
    requires j.DistinctNames() && (prog == Overwrite(j) || prog == C.CreatePair(j))
    ensures DurablePair(j, prog)
  {
    OverwriteDurable(j);
    CreatePairDurable(j);
  }

  /** After Ok of either transaction a power cut leaves both final paths as they are. */
  lemma EndSurvives(j: Job, prog: Prog, start: Disk, answers: seq<Answer>, p: Name, left: Disk)
    requires j.DistinctNames() && p in Finals(j)
    requires prog == Overwrite(j) || prog == C.CreatePair(j)
    requires Run(prog, start, answers).0 == Done(Success) && MayBeLeft(DirOf(p), prog, start, answers, left)
    ensures Lookup(left, p) == Lookup(Run(prog, start, answers).1, p)
  {
    PairDurable(j, prog);
    DurablePairEnd(j, prog, start, answers, p, left);
  }

  lemma DurablePairEnd(j: Job, prog: Prog, start: Disk, answers: seq<Answer>, p: Name, left: Disk)
    requires j.DistinctNames() && p in Finals(j) && DurablePair(j, prog)
    requires Run(prog, start, answers).0 == Done(Success) && MayBeLeft(DirOf(p), prog, start, answers, left)
    ensures Lookup(left, p) == Lookup(Run(prog, start, answers).1, p)
  {
    DurableEnd(DirOf(p), prog, start, Staged(j), Finals(j), answers, left);
  }

  lemma DurableEnd(dir: Name, prog: Prog, start: Disk, staged: set<Name>, finals: set<Name>, answers: seq<Answer>, left: Disk)
    requires Durable(prog, staged, finals, {}, finals) && staged !! finals
    requires Run(prog, start, answers).0 == Done(Success) && MayBeLeft(dir, prog, start, answers, left)
    ensures forall p :: p in finals && DirOf(p) == dir ==> Lookup(left, p) == Lookup(Run(prog, start, answers).1, p)
  {
    var faults := PhasesOf(prog);
    var inv, early := (rest: Prog, d: Disk) => true, (d: Disk) => true;
    AlwaysTrue(prog, start, faults, inv);
    AnyAnswersLegal(prog, start, answers, faults);
    var was := PowerCut(dir, prog, start, staged, finals, early, answers, faults, inv, left);
  }

  lemma {:induction false} AlwaysTrue(prog: Prog, disk: Disk, faults: set<Phase>, inv: (Prog, Disk) -> bool)
    requires forall rest, d :: inv(rest, d)
    ensures Always(prog, disk, faults, inv)
    decreases prog
  {
    if prog.Do? {
      forall a: Answer | Allowed(prog.phase, a, faults)
        ensures var (disk', reply) := Perform(prog.op, disk, a);
                Always(Next(prog, reply), disk', faults, inv)
      {
        var (disk', reply) := Perform(prog.op, disk, a);
        AlwaysTrue(Next(prog, reply), disk', faults, inv);
      }
    }
  }

  function PhasesOf(prog: Prog): (r: set<Phase>)
    ensures PhasesIn(prog, r)
  {
    if prog.Done? then {}
    else
      var fine, taken, failed := PhasesOf(prog.fine), PhasesOf(prog.taken), PhasesOf(prog.failed);
      var all := {prog.phase} + fine + taken + failed;
      MorePhases(prog.fine, fine, all);
      MorePhases(prog.taken, taken, all);
      MorePhases(prog.failed, failed, all);
      all
  }

  lemma {:induction false} MorePhases(prog: Prog, phases: set<Phase>, more: set<Phase>)
    requires PhasesIn(prog, phases) && phases <= more
    ensures PhasesIn(prog, more)
  {
    if prog.Do? {
      MorePhases(prog.fine, phases, more);
      MorePhases(prog.taken, phases, more);
      MorePhases(prog.failed, phases, more);
    }
  }
}
