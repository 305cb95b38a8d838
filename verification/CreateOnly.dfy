/** Key generation without `--force`: any number of runs create the same pair of files at the
    same time, and `link` is what keeps them apart. */
module CreateOnly {
  import opened Basics
  import opened Disk
  import opened Keypair
  import KeypairExact

  // ---- the program of one run -------------------------------------------------------------

  /** `write_keypair_files_create_new`. */
  function CreatePair(j: Job): Prog {
    Step(Probe(j.secret), Check(j.secret),
         Done(Failure(FileExists(j.secret))),
         Step(Probe(j.public), Check(j.public),
              Done(Failure(FileExists(j.public))),
              StageBoth(j)))
  }

  function StageBoth(j: Job): Prog {
    WriteTempFile(j.secretTmp, j.secretFile,
      WriteTempFile(j.publicTmp, j.publicFile, LinkSecret(j),
        Then(Remove(j.secretTmp), Cleanup, Done(Failure(FileWrite(j.publicTmp))))),
      Done(Failure(FileWrite(j.secretTmp))))
  }

  function LinkSecret(j: Job): Prog {
    Step(Link(j.secretTmp, j.secret), Forward,
         Step(SyncDir(j.secret), Forward,
              LinkPublic(j),
              UndoSecret(j, ParentSync(j.secret))),
         DropTemps(j, Done(Failure(FileWrite(j.secret)))))
  }

  function LinkPublic(j: Job): Prog {
    Step(Link(j.publicTmp, j.public), Forward,
         Step(SyncDir(j.public), Forward,
              DropTemps(j, Done(Success)),
              Then(Remove(j.public), Undo, UndoSecret(j, ParentSync(j.public)))),
         UndoSecret(j, FileWrite(j.public)))
  }

  function UndoSecret(j: Job, e: Error): Prog {
    Then(Remove(j.secret), Undo, DropTemps(j, Done(Failure(e))))
  }

  // ---- many runs, interleaved call by call ------------------------------------------------

  datatype World = World(disk: Disk, procs: seq<Prog>)

  /** Which run moves next, and what the operating system answers it. A run that has crashed
      is one that is never scheduled again. */
  datatype Turn = Turn(run: nat, answer: Answer)

  function Move(w: World, t: Turn): World {
    if t.run < |w.procs| && w.procs[t.run].Do? then
      var prog := w.procs[t.run];
      var (disk, reply) := Perform(prog.op, w.disk, t.answer);
      World(disk, w.procs[t.run := Next(prog, reply)])
    else w
  }

  predicate LegalTurn(w: World, t: Turn, faults: set<Phase>) {
    t.run < |w.procs| && w.procs[t.run].Do? ==> Allowed(w.procs[t.run].phase, t.answer, faults)
  }

  function Interleave(w: World, turns: seq<Turn>): World
    decreases |turns|
  {
    if turns == [] then w else Interleave(Move(w, turns[0]), turns[1..])
  }

  predicate LegalTurns(w: World, turns: seq<Turn>, faults: set<Phase>)
    decreases |turns|
  {
    turns == [] ||
    (LegalTurn(w, turns[0], faults) && LegalTurns(Move(w, turns[0]), turns[1..], faults))
  }

  /** The same two paths, fresh and disjoint staged names, and files nobody else wrote. */
  ghost predicate Contenders(jobs: seq<Job>, start: Disk) {
    (forall i :: 0 <= i < |jobs| ==>
       jobs[i].Fresh(start) && jobs[i].secret == jobs[0].secret && jobs[i].public == jobs[0].public) &&
    (forall i, k :: 0 <= i < |jobs| && 0 <= k < |jobs| && i != k ==> Apart(jobs[i], jobs[k])) &&
    (forall i, p :: 0 <= i < |jobs| && p in start ==>
       start[p].ino != jobs[i].secretFile.ino && start[p].ino != jobs[i].publicFile.ino)
  }

  predicate Apart(j: Job, k: Job) {
    j.secretTmp != k.secretTmp && j.secretTmp != k.publicTmp &&
    j.publicTmp != k.secretTmp && j.publicTmp != k.publicTmp &&
    j.secretFile.ino != k.secretFile.ino && j.publicFile.ino != k.publicFile.ino
  }

  // ---- what one run may do, whatever the others do ------------------------------------------

  /** The part of the directory run `j` answers for: its staged files, and the final paths
      where they hold its own files. */
  function Own(j: Job, disk: Disk): Disk {
    map p | p in disk && (p == j.secretTmp || p == j.publicTmp ||
                          (p == j.secret && disk[p].ino == j.secretFile.ino) ||
                          (p == j.public && disk[p].ino == j.publicFile.ino)) :: disk[p]
  }

  /** Complete files only, and Ok with both. If undo calls go through, also public only on top of
      secret, and an error with neither. */
  predicate Proper(j: Job, prog: Prog, own: Disk, faults: set<Phase>) {
    (j.secret in own ==> own[j.secret] == j.secretFile) &&
    (j.public in own ==> own[j.public] == j.publicFile) &&
    (prog == Done(Success) ==> j.secret in own && j.public in own) &&
    (Undo !in faults ==>
       (j.public in own ==> j.secret in own) &&
       (prog.Done? && prog.result != Success ==> j.secret !in own))
  }

  /** Staged names at will; a final path only by linking a complete file to it, and removed
      only by the run whose file is there. */
  predicate MayIssue(j: Job, op: Op, own: Disk) {
    match op
    case Link(s, p) =>
      (s == j.secretTmp && p == j.secret && Lookup(own, s) == Some(j.secretFile) && j.secret !in own) ||
      (s == j.publicTmp && p == j.public && Lookup(own, s) == Some(j.publicFile) && j.public !in own)
    case Remove(p) => p == j.secretTmp || p == j.publicTmp || ((p == j.secret || p == j.public) && p in own)
    case CreateNew(p, _) => p == j.secretTmp || p == j.publicTmp
    case WriteSome(p, _) => p == j.secretTmp || p == j.publicTmp
    case WriteRest(p, _) => p == j.secretTmp || p == j.publicTmp
    case Rename(_, _) => false
    case _ => true
  }

  ghost predicate Disciplined(j: Job, prog: Prog, own: Disk, faults: set<Phase>)
    decreases prog
  {
    Proper(j, prog, own, faults) &&
    (prog.Do? ==>
       MayIssue(j, prog.op, own) &&
       (prog.op.Link? ==> prog.taken == prog.failed) &&
       if prog.op.Probe? then
         Disciplined(j, prog.fine, own, faults) && Disciplined(j, prog.failed, own, faults)
       else
         forall a: Answer :: Allowed(prog.phase, a, faults) || prog.op.Link? ==>
           Disciplined(j, Next(prog, Perform(prog.op, own, a).1), Perform(prog.op, own, a).0, faults))
  }

  lemma DropTempsDisciplined(j: Job, own: Disk, r: Verdict, faults: set<Phase>)
    requires j.DistinctNames() && Proper(j, Done(r), own, faults)
    ensures Disciplined(j, DropTemps(j, Done(r)), own, faults)
  {
    var second := Then(Remove(j.publicTmp), Cleanup, Done(r));
    forall a: Answer
      ensures Disciplined(j, second, Perform(Remove(j.secretTmp), own, a).0, faults)
    {
    }
  }

  lemma UndoSecretDisciplined(j: Job, own: Disk, e: Error, faults: set<Phase>)
    requires j.DistinctNames() && Lookup(own, j.secret) == Some(j.secretFile)
    requires j.public in own ==> Undo in faults && own[j.public] == j.publicFile
    ensures Disciplined(j, UndoSecret(j, e), own, faults)
  {
    DropTempsDisciplined(j, own - {j.secret}, Failure(e), faults);
    if Undo in faults { DropTempsDisciplined(j, own, Failure(e), faults); }
  }

  lemma LinkPublicDisciplined(j: Job, own: Disk, faults: set<Phase>)
    requires j.DistinctNames()
    requires Lookup(own, j.secret) == Some(j.secretFile) && j.public !in own
    requires Lookup(own, j.publicTmp) == Some(j.publicFile)
    ensures Disciplined(j, LinkPublic(j), own, faults)
  {
    var prog := LinkPublic(j);
    var linked := own[j.public := j.publicFile];
    var undo := prog.fine.failed;
    assert Disciplined(j, prog.fine, linked, faults) by {
      DropTempsDisciplined(j, linked, Success, faults);
      UndoSecretDisciplined(j, linked - {j.public}, ParentSync(j.public), faults);
      if Undo in faults { UndoSecretDisciplined(j, linked, ParentSync(j.public), faults); }
      assert Disciplined(j, undo, linked, faults);
    }
    UndoSecretDisciplined(j, own, FileWrite(j.public), faults);
  }

  lemma LinkSecretDisciplined(j: Job, own: Disk, faults: set<Phase>)
    requires j.DistinctNames()
    requires j.secret !in own && j.public !in own
    requires Lookup(own, j.secretTmp) == Some(j.secretFile)
    requires Lookup(own, j.publicTmp) == Some(j.publicFile)
    ensures Disciplined(j, LinkSecret(j), own, faults)
  {
    var linked := own[j.secret := j.secretFile];
    assert Disciplined(j, LinkSecret(j).fine, linked, faults) by {
      LinkPublicDisciplined(j, linked, faults);
      UndoSecretDisciplined(j, linked, ParentSync(j.secret), faults);
    }
    DropTempsDisciplined(j, own, Failure(FileWrite(j.secret)), faults);
  }

  lemma WriteTempFileDisciplined(j: Job, own: Disk, faults: set<Phase>,
                                 tmp: Name, file: File, fine: Prog, failed: Prog)
    requires j.DistinctNames() && (tmp == j.secretTmp || tmp == j.publicTmp)
    requires tmp !in own && j.secret !in own && j.public !in own
    requires Disciplined(j, fine, own[tmp := file], faults)
    requires forall data :: Disciplined(j, failed, own[tmp := File(file.ino, data)], faults)
    requires Disciplined(j, failed, own, faults)
    ensures Disciplined(j, WriteTempFile(tmp, file, fine, failed), own, faults)
  {
    var prog := WriteTempFile(tmp, file, fine, failed);
    var rest := prog.fine.fine;
    assert own[tmp := File(file.ino, file.data)] == own[tmp := file];
    assert Disciplined(j, rest.fine, own[tmp := file], faults);
    forall data: Bytes
      ensures Disciplined(j, rest, own[tmp := File(file.ino, data)], faults)
    {
      assert own[tmp := File(file.ino, data)][tmp := file] == own[tmp := file];
    }
    var created := own[tmp := File(file.ino, [])];
    forall part: nat
      ensures created[tmp := File(file.ino, Prefix(file.data, part))]
           == own[tmp := File(file.ino, Prefix(file.data, part))]
    {
    }
    assert Disciplined(j, prog.fine, created, faults);
  }

  lemma CreatePairDisciplined(j: Job, faults: set<Phase>)
    requires j.DistinctNames()
    ensures Disciplined(j, CreatePair(j), map[], faults)
  {
    var own: Disk := map[j.secretTmp := j.secretFile];
    var failed := Then(Remove(j.secretTmp), Cleanup, Done(Failure(FileWrite(j.publicTmp))));
    LinkSecretDisciplined(j, own[j.publicTmp := j.publicFile], faults);
    WriteTempFileDisciplined(j, own, faults, j.publicTmp, j.publicFile, LinkSecret(j), failed);
    WriteTempFileDisciplined(j, map[], faults, j.secretTmp, j.secretFile,
      StageBoth(j).fine.fine.fine.fine, Done(Failure(FileWrite(j.secretTmp))));
    assert Disciplined(j, StageBoth(j), map[], faults);
  }

  // ---- all runs together --------------------------------------------------------------------

  /** What a run answers for stays its own: another run's call cannot change it. */
  lemma BystanderOwn(j: Job, k: Job, disk: Disk, op: Op, a: Answer)
    requires j.DistinctNames() && k.DistinctNames() && Apart(j, k) && Apart(k, j)
    requires j.secret == k.secret && j.public == k.public
    requires MayIssue(j, op, Own(j, disk))
    ensures Own(k, Perform(op, disk, a).0) == Own(k, disk)
  {
  }

  lemma OwnUpdate(j: Job, disk: Disk, p: Name, f: File)
    requires j.DistinctNames() && (p == j.secretTmp || p == j.publicTmp)
    ensures Own(j, disk[p := f]) == Own(j, disk)[p := f]
  {
  }

  lemma OwnRemove(j: Job, disk: Disk, p: Name)
    ensures Own(j, disk - {p}) == Own(j, disk) - {p}
  {
  }

  lemma OwnAgrees(j: Job, disk: Disk, op: Op, a: Answer)
    requires j.DistinctNames() && MayIssue(j, op, Own(j, disk)) && !op.Link? && !op.Probe?
    ensures Perform(op, Own(j, disk), a)
         == (Own(j, Perform(op, disk, a).0), Perform(op, disk, a).1)
  {
    match op
    case CreateNew(p, ino) => OwnUpdate(j, disk, p, File(ino, []));
    case WriteSome(p, data) =>
      if p in disk { OwnUpdate(j, disk, p, disk[p].(data := Prefix(data, a.part))); }
    case WriteRest(p, data) =>
      if p in disk { OwnUpdate(j, disk, p, disk[p].(data := data)); }
    case Remove(p) => OwnRemove(j, disk, p);
    case _ =>
  }

  lemma OwnLink(j: Job, disk: Disk, op: Op, a: Answer)
    requires j.DistinctNames() && MayIssue(j, op, Own(j, disk)) && op.Link?
    ensures Perform(op, Own(j, disk), Answer(Perform(op, disk, a).1 == Fine, 0))
         == (Own(j, Perform(op, disk, a).0), if Perform(op, disk, a).1 == Fine then Fine else Failed)
  {
    var reply := Perform(op, disk, a).1;
    assert Perform(op, Own(j, disk), Answer(reply == Fine, 0)).0 == Own(j, Perform(op, disk, a).0);
  }

  /** On its own part of the directory a run sees its calls behave as if it were alone, except
      that a link may find its target taken. */
  lemma MoverOwn(j: Job, disk: Disk, prog: Prog, faults: set<Phase>, a: Answer)
    requires j.DistinctNames() && prog.Do? && Allowed(prog.phase, a, faults)
    requires Disciplined(j, prog, Own(j, disk), faults)
    ensures var (disk', reply) := Perform(prog.op, disk, a);
            Disciplined(j, Next(prog, reply), Own(j, disk'), faults)
  {
    if prog.op.Link? {
      OwnLink(j, disk, prog.op, a);
    } else if !prog.op.Probe? {
      OwnAgrees(j, disk, prog.op, a);
    }
  }

  /** Every run in discipline, every earlier file as it was, and nothing unaccounted for. */
  ghost predicate Orderly(jobs: seq<Job>, start: Disk, faults: set<Phase>, w: World) {
    |w.procs| == |jobs| &&
    (forall i :: 0 <= i < |jobs| ==>
       Disciplined(jobs[i], w.procs[i], Own(jobs[i], w.disk), faults)) &&
    (forall p :: p in start ==> Lookup(w.disk, p) == Some(start[p])) &&
    (forall p :: p in w.disk ==> Accounted(jobs, start, w.disk, p))
  }

  ghost predicate Accounted(jobs: seq<Job>, start: Disk, disk: Disk, p: Name) {
    p in start || exists i :: 0 <= i < |jobs| && p in Own(jobs[i], disk)
  }

  lemma MoveOrderly(jobs: seq<Job>, start: Disk, faults: set<Phase>, w: World, t: Turn)
    requires Contenders(jobs, start) && Orderly(jobs, start, faults, w)
    requires LegalTurn(w, t, faults)
    ensures Orderly(jobs, start, faults, Move(w, t))
  {
    if t.run < |w.procs| && w.procs[t.run].Do? {
      var m := t.run;
      var j := jobs[m];
      var prog := w.procs[m];
      var w' := Move(w, t);
      MoverOwn(j, w.disk, prog, faults, t.answer);
      forall i | 0 <= i < |jobs| && i != m
        ensures Own(jobs[i], w'.disk) == Own(jobs[i], w.disk)
      {
        BystanderOwn(j, jobs[i], w.disk, prog.op, t.answer);
      }
      EarlierKept(j, start, w.disk, prog.op, t.answer);
      MoveAccounted(jobs, start, faults, w, t);
    }
  }

  lemma MoveAccounted(jobs: seq<Job>, start: Disk, faults: set<Phase>, w: World, t: Turn)
    requires Contenders(jobs, start) && Orderly(jobs, start, faults, w)
    requires t.run < |w.procs| && w.procs[t.run].Do?
    requires forall i :: 0 <= i < |jobs| && i != t.run ==>
               Own(jobs[i], Move(w, t).disk) == Own(jobs[i], w.disk)
    ensures forall p :: p in Move(w, t).disk ==> Accounted(jobs, start, Move(w, t).disk, p)
  {
    var j, op, disk' := jobs[t.run], w.procs[t.run].op, Move(w, t).disk;
    assert MayIssue(j, op, Own(j, w.disk)) by {
      assert Disciplined(j, w.procs[t.run], Own(j, w.disk), faults);
    }
    forall p | p in disk'
      ensures Accounted(jobs, start, disk', p)
    {
      if p in w.disk && disk'[p] == w.disk[p] {
        StillAccounted(jobs, start, w.disk, disk', p);
      } else {
        NewIsOwn(j, w.disk, op, t.answer, p);
      }
    }
  }

  /** What a run answers for depends on the entry alone. */
  lemma StillAccounted(jobs: seq<Job>, start: Disk, disk: Disk, disk': Disk, p: Name)
    requires Accounted(jobs, start, disk, p) && p in disk && p in disk' && disk'[p] == disk[p]
    ensures Accounted(jobs, start, disk', p)
  {
    if p !in start {
      var i :| 0 <= i < |jobs| && p in Own(jobs[i], disk);
      assert p in Own(jobs[i], disk');
    }
  }

  /** A disciplined call changes no file that was there before any run. */
  lemma EarlierKept(j: Job, start: Disk, disk: Disk, op: Op, a: Answer)
    requires j.Fresh(start) && MayIssue(j, op, Own(j, disk))
    requires forall p :: p in start ==>
               start[p].ino != j.secretFile.ino && start[p].ino != j.publicFile.ino
    requires forall p :: p in start ==> Lookup(disk, p) == Some(start[p])
    ensures forall p :: p in start ==> Lookup(Perform(op, disk, a).0, p) == Some(start[p])
  {
  }

  lemma NewIsOwn(j: Job, disk: Disk, op: Op, a: Answer, p: Name)
    requires j.DistinctNames() && MayIssue(j, op, Own(j, disk))
    requires p in Perform(op, disk, a).0
    requires p !in disk || Perform(op, disk, a).0[p] != disk[p]
    ensures p in Own(j, Perform(op, disk, a).0)
  {
  }

  lemma {:induction false} InterleaveOrderly(
      jobs: seq<Job>, start: Disk, faults: set<Phase>, w: World, turns: seq<Turn>)
    requires Contenders(jobs, start) && Orderly(jobs, start, faults, w)
    requires LegalTurns(w, turns, faults)
    ensures Orderly(jobs, start, faults, Interleave(w, turns))
    decreases |turns|
  {
    if turns != [] {
      MoveOrderly(jobs, start, faults, w, turns[0]);
      InterleaveOrderly(jobs, start, faults, Move(w, turns[0]), turns[1..]);
    }
  }

  function Begin(jobs: seq<Job>, start: Disk): World {
    World(start, seq(|jobs|, i requires 0 <= i < |jobs| => CreatePair(jobs[i])))
  }

  lemma BeginOrderly(jobs: seq<Job>, start: Disk, faults: set<Phase>)
    requires Contenders(jobs, start)
    ensures Orderly(jobs, start, faults, Begin(jobs, start))
  {
    forall i | 0 <= i < |jobs|
      ensures Disciplined(jobs[i], Begin(jobs, start).procs[i], Own(jobs[i], start), faults)
    {
      CreatePairDisciplined(jobs[i], faults);
      assert Own(jobs[i], start) == map[];
    }
  }

  // ---- the main result ------------------------------------------------------------------------

  /** In this state run `i` holds both final paths. */
  predicate Holds(jobs: seq<Job>, disk: Disk, i: nat)
    requires i < |jobs|
  {
    Lookup(disk, jobs[i].secret) == Some(jobs[i].secretFile) &&
    Lookup(disk, jobs[i].public) == Some(jobs[i].publicFile)
  }

  ghost predicate EarlierFilesKept(start: Disk, disk: Disk) {
    forall p :: p in start ==> Lookup(disk, p) == Some(start[p])
  }

  ghost predicate AtMostOneOk(w: World) {
    forall i, k :: 0 <= i < |w.procs| && 0 <= k < |w.procs| ==>
      w.procs[i] == Done(Success) && w.procs[k] == Done(Success) ==> i == k
  }

  /** A published public key has its secret key beside it; so has a run that returned Ok. */
  ghost predicate Paired(jobs: seq<Job>, w: World)
    requires |jobs| == |w.procs|
  {
    forall i :: 0 <= i < |jobs| ==>
      Lookup(w.disk, jobs[i].public) == Some(jobs[i].publicFile) || w.procs[i] == Done(Success) ==>
        Holds(jobs, w.disk, i)
  }

  predicate AllFailed(w: World) {
    forall i :: 0 <= i < |w.procs| ==> w.procs[i].Done? && w.procs[i].result != Success
  }

  ghost predicate FinalsAsBefore(jobs: seq<Job>, start: Disk, disk: Disk) {
    forall i :: 0 <= i < |jobs| ==>
      Lookup(disk, jobs[i].secret) == Lookup(start, jobs[i].secret) &&
      Lookup(disk, jobs[i].public) == Lookup(start, jobs[i].public)
  }

  lemma OrderlyMeans(jobs: seq<Job>, start: Disk, faults: set<Phase>, w: World)
    requires Contenders(jobs, start) && Orderly(jobs, start, faults, w)
    ensures EarlierFilesKept(start, w.disk) && AtMostOneOk(w)
    ensures Undo !in faults ==>
              Paired(jobs, w) && (AllFailed(w) ==> FinalsAsBefore(jobs, start, w.disk))
  {
    forall i | 0 <= i < |jobs|
      ensures w.procs[i] == Done(Success) ==> Holds(jobs, w.disk, i)
      ensures Undo !in faults && Lookup(w.disk, jobs[i].public) == Some(jobs[i].publicFile) ==> Holds(jobs, w.disk, i)
    {
      assert Proper(jobs[i], w.procs[i], Own(jobs[i], w.disk), faults) by {
        assert Disciplined(jobs[i], w.procs[i], Own(jobs[i], w.disk), faults);
      }
    }
    if Undo !in faults && AllFailed(w) {
      forall i | 0 <= i < |jobs|
        ensures Lookup(w.disk, jobs[i].secret) == Lookup(start, jobs[i].secret)
        ensures Lookup(w.disk, jobs[i].public) == Lookup(start, jobs[i].public)
      {
        NobodyHolds(jobs, start, faults, w, i, jobs[i].secret);
        NobodyHolds(jobs, start, faults, w, i, jobs[i].public);
      }
    }
  }

  /** If every run has ended with an error, nothing at a final path is left over from a run. */
  lemma NobodyHolds(jobs: seq<Job>, start: Disk, faults: set<Phase>, w: World, i: nat, p: Name)
    requires Contenders(jobs, start) && Orderly(jobs, start, faults, w) && AllFailed(w) && Undo !in faults
    requires i < |jobs| && (p == jobs[i].secret || p == jobs[i].public)
    ensures Lookup(w.disk, p) == Lookup(start, p)
  {
    if p in w.disk {
      forall k | 0 <= k < |jobs| ensures p !in Own(jobs[k], w.disk) {
        assert Proper(jobs[k], w.procs[k], Own(jobs[k], w.disk), faults) by {
          assert Disciplined(jobs[k], w.procs[k], Own(jobs[k], w.disk), faults);
        }
        assert jobs[k].Fresh(start);
      }
      assert Accounted(jobs, start, w.disk, p);
    }
  }

  /** Any number of concurrent runs, in any interleaving, with any calls failing: no file that was
      there before is replaced, changed or removed, and at most one run returns Ok. If the undo
      deletes go through, moreover, wherever run i's public key is published, its secret key is in
      place; and if every run has ended with an error the final paths hold exactly what they held
      before. */
  lemma ConcurrentCreation(jobs: seq<Job>, start: Disk, faults: set<Phase>, turns: seq<Turn>)
    requires Contenders(jobs, start)
    requires LegalTurns(Begin(jobs, start), turns, faults)
    ensures var w := Interleave(Begin(jobs, start), turns);
            |w.procs| == |jobs| && EarlierFilesKept(start, w.disk) && AtMostOneOk(w) &&
            (Undo !in faults ==>
               Paired(jobs, w) && (AllFailed(w) ==> FinalsAsBefore(jobs, start, w.disk)))
  {
    BeginOrderly(jobs, start, faults);
    InterleaveOrderly(jobs, start, faults, Begin(jobs, start), turns);
    OrderlyMeans(jobs, start, faults, Interleave(Begin(jobs, start), turns));
  }

  // ---- a run alone --------------------------------------------------------------------------------

  lemma DropTempsFine(j: Job, faults: set<Phase>, disk: Disk, r: Verdict, inv: (Prog, Disk) -> bool)
    requires j.DistinctNames() && OfTheEnd(inv)
    requires j.secretTmp in disk && j.publicTmp in disk && inv(Done(r), disk - {j.secretTmp} - {j.publicTmp})
    requires Cleanup in faults ==>
               inv(Done(r), disk) && inv(Done(r), disk - {j.secretTmp}) && inv(Done(r), disk - {j.publicTmp})
    ensures Always(DropTemps(j, Done(r)), disk, faults, inv)
  {
    var second := Then(Remove(j.publicTmp), Cleanup, Done(r));
    assert Always(second, disk - {j.secretTmp}, faults, inv);
    assert Cleanup in faults ==> Always(second, disk, faults, inv);
  }

  /** The staged names, where their removal may fail. */
  function Loose(j: Job, faults: set<Phase>): set<Name> {
    if Cleanup in faults then {j.secretTmp, j.publicTmp} else {}
  }

  lemma LinkPublicFine(j: Job, faults: set<Phase>, disk: Disk, inv: (Prog, Disk) -> bool)
    requires j.DistinctNames() && Forward !in faults && OfTheEnd(inv)
    requires Lookup(disk, j.publicTmp) == Some(j.publicFile) && j.public !in disk
    requires Always(DropTemps(j, Done(Success)), disk[j.public := j.publicFile], faults, inv)
    ensures Always(LinkPublic(j), disk, faults, inv)
  {
    AlwaysFine(LinkPublic(j).fine, disk[j.public := j.publicFile], faults, inv);
    AlwaysFine(LinkPublic(j), disk, faults, inv);
  }

  lemma LinkBothFine(j: Job, start: Disk, faults: set<Phase>, disk: Disk)
    requires j.Fresh(start) && Forward !in faults
    requires j.secret !in start && j.public !in start
    requires disk == start[j.secretTmp := j.secretFile][j.publicTmp := j.publicFile]
    ensures Always(LinkSecret(j), disk, faults,
                   EndsUpTo(Success, start[j.secret := j.secretFile][j.public := j.publicFile], Loose(j, faults)))
  {
    var end := start[j.secret := j.secretFile][j.public := j.publicFile];
    var inv := EndsUpTo(Success, end, Loose(j, faults));
    var d1 := disk[j.secret := j.secretFile];
    var d2 := d1[j.public := j.publicFile];
    DropTempsFine(j, faults, d2, Success, inv);
    LinkPublicFine(j, faults, d1, inv);
    AlwaysFine(LinkSecret(j).fine, d1, faults, inv);
    AlwaysFine(LinkSecret(j), disk, faults, inv);
  }

  /** What a run alone says, and leaves, when no check or forward call fails. */
  function Alone(j: Job, start: Disk): (Verdict, Disk) {
    if j.secret in start then (Failure(FileExists(j.secret)), start)
    else if j.public in start then (Failure(FileExists(j.public)), start)
    else (Success, start[j.secret := j.secretFile][j.public := j.publicFile])
  }

  lemma AloneAlways(j: Job, start: Disk, faults: set<Phase>)
    requires j.Fresh(start) && Forward !in faults
    requires Check(j.secret) !in faults && Check(j.public) !in faults
    ensures Always(CreatePair(j), start, faults, EndsUpTo(Alone(j, start).0, Alone(j, start).1, Loose(j, faults)))
  {
    var (r, end) := Alone(j, start);
    var prog, inv := CreatePair(j), EndsUpTo(r, end, Loose(j, faults));
    if j.secret !in start {
      if j.public !in start {
        LinkBothFine(j, start, faults, start[j.secretTmp := j.secretFile][j.publicTmp := j.publicFile]);
        StageBothFine(j, start, faults, inv);
      }
      assert Always(prog.failed, start, faults, inv);
    }
  }

  /** A run alone of which no check or forward call fails creates the pair exactly when neither path
      is there, and then adds those two files and nothing else; otherwise it names the first path
      that is there and leaves the directory. Staged files whose removal failed are left behind. */
  lemma CreatePairSucceeds(j: Job, start: Disk, faults: set<Phase>, clock: nat, script: nat -> Answer)
    requires j.Fresh(start) && Forward !in faults
    requires Check(j.secret) !in faults && Check(j.public) !in faults
    requires LegalScript(CreatePair(j), start, clock, script, faults)
    ensures var (disk, _, r) := RunAll(CreatePair(j), start, clock, script);
            (r == Success <==> j.secret !in start && j.public !in start) &&
            (j.secret in start ==> r == Failure(FileExists(j.secret))) &&
            (j.secret !in start && j.public in start ==> r == Failure(FileExists(j.public))) &&
            SameOutside(disk, if r == Success then start[j.secret := j.secretFile][j.public := j.publicFile] else start,
                        Loose(j, faults)) &&
            (Cleanup !in faults ==>
               disk == if r == Success then start[j.secret := j.secretFile][j.public := j.publicFile] else start)
  {
    AloneAlways(j, start, faults);
    EndOfRun(CreatePair(j), start, faults, Alone(j, start).0, Alone(j, start).1, Loose(j, faults), clock, script);
  }

  lemma StageBothFine(j: Job, start: Disk, faults: set<Phase>, inv: (Prog, Disk) -> bool)
    requires j.Fresh(start) && Forward !in faults && OfTheEnd(inv)
    requires Always(LinkSecret(j), start[j.secretTmp := j.secretFile][j.publicTmp := j.publicFile], faults, inv)
    ensures Always(StageBoth(j), start, faults, inv)
  {
    var dropped := Then(Remove(j.secretTmp), Cleanup, Done(Failure(FileWrite(j.publicTmp))));
    KeypairExact.WriteTempFileFine(faults, start[j.secretTmp := j.secretFile], j.publicTmp, j.publicFile, LinkSecret(j), dropped, inv);
    KeypairExact.WriteTempFileFine(faults, start, j.secretTmp, j.secretFile,
      WriteTempFile(j.publicTmp, j.publicFile, LinkSecret(j), dropped), Done(Failure(FileWrite(j.secretTmp))), inv);
  }
}
