/** The single-file writers of `file_utils`: replace by rename, create by link, and the plain
    exclusive create. */
module AtomicWrite {
  import opened Basics
  import opened Disk

  // ---- programs ---------------------------------------------------------------------------

  /** Stage a file completely; `mode` says whether its permissions are set on the open handle. */
  function Stage(tmp: Name, file: File, mode: bool, fine: Prog, failed: Prog, modeFailed: Prog): Prog {
    var write := Step(WriteSome(tmp, file.data), Forward,
                   Step(WriteRest(tmp, file.data), Forward,
                     Step(SyncFile(tmp), Forward, fine, failed), failed), failed);
    Step(CreateNew(tmp, file.ino), Forward,
         if mode then Step(SetMode(tmp), Forward, write, modeFailed) else write,
         failed)
  }

  /** `atomic_replace_file`. */
  function AtomicReplace(path: Name, tmp: Name, file: File, mode: bool): Prog {
    var failed := DropTmp(tmp, Failure(FileWrite(tmp)));
    Stage(tmp, file, mode,
          Step(Rename(tmp, path), Forward,
               Step(SyncDir(path), Forward, Done(Success), Done(Failure(ParentSync(path)))),
               DropTmp(tmp, Failure(FileWrite(path)))),
          failed, failed)
  }

  /** `atomic_create_secret_key`: the staged name is removed on every way out. */
  function AtomicCreate(path: Name, tmp: Name, file: File): Prog {
    Stage(tmp, file, true,
          Do(Link(tmp, path), Forward,
             Step(SyncDir(path), Forward,
                  DropTmp(tmp, Success),
                  DropTmp(tmp, Failure(ParentSync(path)))),
             DropTmp(tmp, Failure(FileExists(path))),
             DropTmp(tmp, Failure(FileWrite(path)))),
          DropTmp(tmp, Failure(FileWrite(tmp))),
          DropTmp(tmp, Failure(FileWrite(path))))
  }

  function DropTmp(tmp: Name, r: Verdict): Prog {
    Then(Remove(tmp), Cleanup, Done(r))
  }

  /** `write_file` without force: exclusive create, then write in place. */
  function WriteNew(path: Name, file: File): Prog {
    Do(CreateNew(path, file.ino), Forward,
       Step(WriteSome(path, file.data), Forward,
            Step(WriteRest(path, file.data), Forward, Done(Success), Done(Failure(FileWrite(path)))),
            Done(Failure(FileWrite(path)))),
       Done(Failure(FileExists(path))),
       Done(Failure(FileWrite(path))))
  }

  // ---- what every run keeps -----------------------------------------------------------------

  predicate Fresh(path: Name, tmp: Name, start: Disk) {
    path != tmp && tmp !in start
  }

  /** A reader of any other name sees no change; at the end the staged name is gone, if its
      removal went through. */
  ghost predicate Aloof(path: Name, tmp: Name, start: Disk, faults: set<Phase>, rest: Prog, disk: Disk) {
    (forall p :: p != path && p != tmp ==> Lookup(disk, p) == Lookup(start, p)) &&
    (rest.Done? && Cleanup !in faults ==> tmp !in disk)
  }

  /** A reader sees the complete old or the complete new contents. Ok means new; an error means
      old, unless it is that of the final directory sync. */
  ghost predicate Replaced(path: Name, tmp: Name, file: File, start: Disk, faults: set<Phase>,
                           rest: Prog, disk: Disk) {
    Aloof(path, tmp, start, faults, rest, disk) &&
    var seen := Lookup(disk, path);
    (seen == Lookup(start, path) || seen == Some(file)) &&
    match rest
    case Done(Success) => seen == Some(file)
    case Done(Failure(ParentSync(_))) => seen == Some(file)
    case Done(_) => seen == Lookup(start, path)
    case _ => true
  }

  /** As above, and a file that is already there stays. */
  ghost predicate Created(path: Name, tmp: Name, file: File, start: Disk, faults: set<Phase>,
                          rest: Prog, disk: Disk) {
    Replaced(path, tmp, file, start, faults, rest, disk) &&
    (path in start ==> Lookup(disk, path) == Some(start[path])) &&
    match rest
    case Done(Success) => path !in start
    case Done(Failure(FileExists(p))) => p == path && path in start
    case _ => true
  }

  ghost function ReplacedBy(path: Name, tmp: Name, file: File, start: Disk, faults: set<Phase>)
    : (Prog, Disk) -> bool
  {
    (rest, disk) => Replaced(path, tmp, file, start, faults, rest, disk)
  }

  ghost function CreatedBy(path: Name, tmp: Name, file: File, start: Disk, faults: set<Phase>)
    : (Prog, Disk) -> bool
  {
    (rest, disk) => Created(path, tmp, file, start, faults, rest, disk)
  }

  ghost predicate OnlyStaged(tmp: Name, start: Disk, disk: Disk) {
    forall p :: p != tmp ==> Lookup(disk, p) == Lookup(start, p)
  }

  /** Staging touches nothing but the staged name. */
  lemma StageAlways(tmp: Name, file: File, mode: bool, fine: Prog, failed: Prog, modeFailed: Prog,
                    start: Disk, faults: set<Phase>, inv: (Prog, Disk) -> bool)
    requires tmp !in start
    requires forall rest: Prog, d: Disk :: rest.Do? && OnlyStaged(tmp, start, d) ==> inv(rest, d)
    requires Always(fine, start[tmp := file], faults, inv)
    requires forall d: Disk :: OnlyStaged(tmp, start, d) ==>
               Always(failed, d, faults, inv) && Always(modeFailed, d, faults, inv)
    ensures Always(Stage(tmp, file, mode, fine, failed, modeFailed), start, faults, inv)
  {
    var prog := Stage(tmp, file, mode, fine, failed, modeFailed);
    var write := if mode then prog.fine.fine else prog.fine;
    var done := start[tmp := file];
    assert OnlyStaged(tmp, start, start) && OnlyStaged(tmp, start, done);
    AlwaysEffect(write.fine.fine, done, done, faults, inv);
    var created := start[tmp := File(file.ino, [])];
    forall a: Answer | Allowed(Forward, a, faults)
      ensures var (d, reply) := Perform(write.op, created, a);
              Always(Next(write, reply), d, faults, inv)
    {
      var d := Perform(write.op, created, a).0;
      assert OnlyStaged(tmp, start, d) && d[tmp := file] == done;
      AlwaysEffect(write.fine, d, done, faults, inv);
    }
    assert OnlyStaged(tmp, start, created);
    assert Always(write, created, faults, inv);
    if mode { AlwaysEffect(prog.fine, created, created, faults, inv); }
    AlwaysEffect(prog, start, created, faults, inv);
  }

  lemma DropTmpAlways(tmp: Name, r: Verdict, disk: Disk, faults: set<Phase>, inv: (Prog, Disk) -> bool)
    requires inv(DropTmp(tmp, r), disk)
    requires inv(Done(r), disk - {tmp})
    requires Cleanup in faults ==> inv(Done(r), disk)
    ensures Always(DropTmp(tmp, r), disk, faults, inv)
  {
    assert tmp !in disk ==> disk - {tmp} == disk;
  }

  lemma AtomicReplaceAlways(path: Name, tmp: Name, file: File, mode: bool, start: Disk, faults: set<Phase>)
    requires Fresh(path, tmp, start)
    ensures Always(AtomicReplace(path, tmp, file, mode), start, faults,
                   ReplacedBy(path, tmp, file, start, faults))
  {
    var inv := ReplacedBy(path, tmp, file, start, faults);
    var prog := AtomicReplace(path, tmp, file, mode);
    var rename := Step(Rename(tmp, path), Forward,
                       Step(SyncDir(path), Forward, Done(Success), Done(Failure(ParentSync(path)))),
                       DropTmp(tmp, Failure(FileWrite(path))));
    var failed := DropTmp(tmp, Failure(FileWrite(tmp)));
    var staged := start[tmp := file];
    var renamed := (staged - {tmp})[path := file];
    AlwaysEffect(rename.fine, renamed, renamed, faults, inv);
    DropTmpAlways(tmp, Failure(FileWrite(path)), staged, faults, inv);
    AlwaysEffect(rename, staged, renamed, faults, inv);
    forall d | OnlyStaged(tmp, start, d) ensures Always(failed, d, faults, inv) {
      DropTmpAlways(tmp, Failure(FileWrite(tmp)), d, faults, inv);
    }
    StageAlways(tmp, file, mode, rename, failed, failed, start, faults, inv);
  }

  lemma AtomicCreateAlways(path: Name, tmp: Name, file: File, start: Disk, faults: set<Phase>)
    requires Fresh(path, tmp, start)
    ensures Always(AtomicCreate(path, tmp, file), start, faults,
                   CreatedBy(path, tmp, file, start, faults))
  {
    var inv := CreatedBy(path, tmp, file, start, faults);
    var link := Do(Link(tmp, path), Forward,
                   Step(SyncDir(path), Forward,
                        DropTmp(tmp, Success),
                        DropTmp(tmp, Failure(ParentSync(path)))),
                   DropTmp(tmp, Failure(FileExists(path))),
                   DropTmp(tmp, Failure(FileWrite(path))));
    var staged := start[tmp := file];
    forall d, e | OnlyStaged(tmp, start, d) && (e == FileWrite(tmp) || e == FileWrite(path))
      ensures Always(DropTmp(tmp, Failure(e)), d, faults, inv)
    {
      DropTmpAlways(tmp, Failure(e), d, faults, inv);
    }
    assert OnlyStaged(tmp, start, staged);
    if path !in start {
      var linked := staged[path := file];
      DropTmpAlways(tmp, Success, linked, faults, inv);
      DropTmpAlways(tmp, Failure(ParentSync(path)), linked, faults, inv);
      AlwaysEffect(link.fine, linked, linked, faults, inv);
      AlwaysEffect(link, staged, linked, faults, inv);
    } else {
      DropTmpAlways(tmp, Failure(FileExists(path)), staged, faults, inv);
      assert Always(link, staged, faults, inv);
    }
    StageAlways(tmp, file, true, link, DropTmp(tmp, Failure(FileWrite(tmp))),
                DropTmp(tmp, Failure(FileWrite(path))), start, faults, inv);
  }

  // ---- the main results -----------------------------------------------------------------------

  /** Replacing a file is atomic under any faults and at any crash point. */
  lemma ReplaceIsAtomic(path: Name, tmp: Name, file: File, mode: bool, start: Disk,
                        faults: set<Phase>, answers: seq<Answer>)
    requires Fresh(path, tmp, start)
    requires Legal(AtomicReplace(path, tmp, file, mode), start, answers, faults)
    ensures var (rest, disk) := Run(AtomicReplace(path, tmp, file, mode), start, answers);
            Replaced(path, tmp, file, start, faults, rest, disk)
  {
    AtomicReplaceAlways(path, tmp, file, mode, start, faults);
    AlwaysHolds(AtomicReplace(path, tmp, file, mode), start, faults,
                ReplacedBy(path, tmp, file, start, faults), answers);
  }

  lemma StagePhases(tmp: Name, file: File, mode: bool, fine: Prog, failed: Prog, modeFailed: Prog,
                    phases: set<Phase>)
    requires Forward in phases
    requires PhasesIn(fine, phases) && PhasesIn(failed, phases) && PhasesIn(modeFailed, phases)
    ensures PhasesIn(Stage(tmp, file, mode, fine, failed, modeFailed), phases)
  {
    var sync := Step(SyncFile(tmp), Forward, fine, failed);
    var rest := Step(WriteRest(tmp, file.data), Forward, sync, failed);
    var write := Step(WriteSome(tmp, file.data), Forward, rest, failed);
    assert PhasesIn(sync, phases) && PhasesIn(rest, phases) && PhasesIn(write, phases);
    assert PhasesIn(Step(SetMode(tmp), Forward, write, modeFailed), phases);
  }

  lemma ReplacePhases(path: Name, tmp: Name, file: File, mode: bool)
    ensures PhasesIn(AtomicReplace(path, tmp, file, mode), {Forward, Cleanup})
  {
    var phases := {Forward, Cleanup};
    var synced := Step(SyncDir(path), Forward, Done(Success), Done(Failure(ParentSync(path))));
    var failed := DropTmp(tmp, Failure(FileWrite(tmp)));
    assert PhasesIn(synced, phases) && PhasesIn(failed, phases);
    assert PhasesIn(DropTmp(tmp, Failure(FileWrite(path))), phases);
    var rename := Step(Rename(tmp, path), Forward, synced, DropTmp(tmp, Failure(FileWrite(path))));
    assert PhasesIn(rename, phases);
    StagePhases(tmp, file, mode, rename, failed, failed, phases);
  }

  /** Cut off anywhere, with any calls failing, the file is the old one or the new one. */
  lemma ReplaceCutOff(path: Name, tmp: Name, file: File, mode: bool, start: Disk, answers: seq<Answer>)
    requires Fresh(path, tmp, start)
    ensures var disk := Run(AtomicReplace(path, tmp, file, mode), start, answers).1;
            (Lookup(disk, path) == Lookup(start, path) || Lookup(disk, path) == Some(file)) &&
            forall p :: p != path && p != tmp ==> Lookup(disk, p) == Lookup(start, p)
  {
    ReplacePhases(path, tmp, file, mode);
    AnyAnswersLegal(AtomicReplace(path, tmp, file, mode), start, answers, {Forward, Cleanup});
    ReplaceIsAtomic(path, tmp, file, mode, start, {Forward, Cleanup}, answers);
  }

  /** The same of a run to its end, whatever may fail. */
  lemma ReplaceOutcome(path: Name, tmp: Name, file: File, mode: bool, start: Disk,
                       clock: nat, script: nat -> Answer)
    requires Fresh(path, tmp, start)
    ensures var (disk, _, r) := RunAll(AtomicReplace(path, tmp, file, mode), start, clock, script);
            Replaced(path, tmp, file, start, {Forward, Cleanup}, Done(r), disk)
  {
    var prog, faults := AtomicReplace(path, tmp, file, mode), {Forward, Cleanup};
    AtomicReplaceAlways(path, tmp, file, mode, start, faults);
    ReplacePhases(path, tmp, file, mode);
    AnyScriptLegal(prog, start, clock, script, faults);
    RunAllHolds(prog, start, faults, ReplacedBy(path, tmp, file, start, faults), clock, script);
  }

  /** So is creating one, and an existing file is never replaced. */
  lemma CreateIsAtomic(path: Name, tmp: Name, file: File, start: Disk,
                       faults: set<Phase>, answers: seq<Answer>)
    requires Fresh(path, tmp, start)
    requires Legal(AtomicCreate(path, tmp, file), start, answers, faults)
    ensures var (rest, disk) := Run(AtomicCreate(path, tmp, file), start, answers);
            Created(path, tmp, file, start, faults, rest, disk)
  {
    AtomicCreateAlways(path, tmp, file, start, faults);
    AlwaysHolds(AtomicCreate(path, tmp, file), start, faults,
                CreatedBy(path, tmp, file, start, faults), answers);
  }

  // ---- how a replacement can end -------------------------------------------------------------------

  function ReplaceResults(path: Name, tmp: Name): set<Verdict> {
    {Success, Failure(FileWrite(path)), Failure(FileWrite(tmp)), Failure(ParentSync(path))}
  }

  lemma StageEndsIn(tmp: Name, file: File, mode: bool, fine: Prog, failed: Prog, modeFailed: Prog, results: set<Verdict>)
    requires EndsIn(fine, results) && EndsIn(failed, results) && EndsIn(modeFailed, results)
    ensures EndsIn(Stage(tmp, file, mode, fine, failed, modeFailed), results)
  {
    var sync := Step(SyncFile(tmp), Forward, fine, failed);
    var rest := Step(WriteRest(tmp, file.data), Forward, sync, failed);
    var write := Step(WriteSome(tmp, file.data), Forward, rest, failed);
    assert EndsIn(sync, results) && EndsIn(rest, results) && EndsIn(write, results);
    assert EndsIn(Step(SetMode(tmp), Forward, write, modeFailed), results);
  }

  /** A replacement never says that the file exists. */
  lemma ReplaceEndsIn(path: Name, tmp: Name, file: File, mode: bool)
    ensures EndsIn(AtomicReplace(path, tmp, file, mode), ReplaceResults(path, tmp))
  {
    var results := ReplaceResults(path, tmp);
    var synced := Step(SyncDir(path), Forward, Done(Success), Done(Failure(ParentSync(path))));
    assert EndsIn(Done(Success), results) && EndsIn(Done(Failure(ParentSync(path))), results);
    assert EndsIn(synced, results);
    var unmoved, failed := DropTmp(tmp, Failure(FileWrite(path))), DropTmp(tmp, Failure(FileWrite(tmp)));
    assert EndsIn(Done(Failure(FileWrite(path))), results) && EndsIn(Done(Failure(FileWrite(tmp))), results);
    assert EndsIn(unmoved, results) && EndsIn(failed, results);
    StageEndsIn(tmp, file, mode, Step(Rename(tmp, path), Forward, synced, unmoved), failed, failed, results);
  }

  // ---- success --------------------------------------------------------------------------------

  lemma StageFine(tmp: Name, file: File, mode: bool, fine: Prog, failed: Prog, modeFailed: Prog,
                  start: Disk, faults: set<Phase>, inv: (Prog, Disk) -> bool)
    requires tmp !in start && Forward !in faults && OfTheEnd(inv)
    requires Always(fine, start[tmp := file], faults, inv)
    ensures Always(Stage(tmp, file, mode, fine, failed, modeFailed), start, faults, inv)
  {
    var prog := Stage(tmp, file, mode, fine, failed, modeFailed);
    var write := if mode then prog.fine.fine else prog.fine;
    var created := start[tmp := File(file.ino, [])];
    AlwaysFine(write.fine.fine, start[tmp := file], faults, inv);
    forall part: nat
      ensures Always(write.fine, Perform(write.op, created, Answer(true, part)).0, faults, inv)
    {
      var d := Perform(write.op, created, Answer(true, part)).0;
      assert d[tmp := file] == start[tmp := file];
      AlwaysFine(write.fine, d, faults, inv);
    }
    AlwaysFine(write, created, faults, inv);
    if mode { AlwaysFine(prog.fine, created, faults, inv); }
    AlwaysFine(prog, start, faults, inv);
  }

  /** Unless a forward call fails, a replacement succeeds, and the directory differs in that one
      file. */
  lemma ReplaceSucceeds(path: Name, tmp: Name, file: File, mode: bool, start: Disk, faults: set<Phase>,
                        clock: nat, script: nat -> Answer)
    requires Fresh(path, tmp, start) && Forward !in faults
    requires LegalScript(AtomicReplace(path, tmp, file, mode), start, clock, script, faults)
    ensures var (disk, _, r) := RunAll(AtomicReplace(path, tmp, file, mode), start, clock, script);
            r == Success && disk == start[path := file]
  {
    var inv := EndsAs(Success, start[path := file]);
    var prog := AtomicReplace(path, tmp, file, mode);
    var synced := Step(SyncDir(path), Forward, Done(Success), Done(Failure(ParentSync(path))));
    var rename := Step(Rename(tmp, path), Forward, synced, DropTmp(tmp, Failure(FileWrite(path))));
    var failed := DropTmp(tmp, Failure(FileWrite(tmp)));
    assert (start[tmp := file] - {tmp})[path := file] == start[path := file];
    AlwaysFine(synced, start[path := file], faults, inv);
    AlwaysFine(rename, start[tmp := file], faults, inv);
    StageFine(tmp, file, mode, rename, failed, failed, start, faults, inv);
    RunAllHolds(prog, start, faults, inv, clock, script);
  }

  /** The staged name, where its removal may fail. */
  function Loose(tmp: Name, faults: set<Phase>): set<Name> {
    if Cleanup in faults then {tmp} else {}
  }

  /** Unless a forward call fails, a creation succeeds exactly when nothing is there, and then adds
      that one file; otherwise it says that the file exists and leaves the directory. A staged file
      whose removal failed is left behind. */
  lemma CreateSucceeds(path: Name, tmp: Name, file: File, start: Disk, faults: set<Phase>,
                       clock: nat, script: nat -> Answer)
    requires Fresh(path, tmp, start) && Forward !in faults
    requires LegalScript(AtomicCreate(path, tmp, file), start, clock, script, faults)
    ensures var (disk, _, r) := RunAll(AtomicCreate(path, tmp, file), start, clock, script);
            if path !in start then r == Success && SameOutside(disk, start[path := file], Loose(tmp, faults))
            else r == Failure(FileExists(path)) && SameOutside(disk, start, Loose(tmp, faults))
    ensures Cleanup !in faults ==>
              RunAll(AtomicCreate(path, tmp, file), start, clock, script).0 ==
                if path !in start then start[path := file] else start
  {
    var end := if path !in start then start[path := file] else start;
    var r := if path !in start then Success else Failure(FileExists(path));
    var inv := EndsUpTo(r, end, Loose(tmp, faults));
    var link := AtomicCreate(path, tmp, file).fine.fine.fine.fine.fine;
    var staged := start[tmp := file];
    if path !in start {
      var linked := staged[path := file];
      DropTmpAlways(tmp, Success, linked, faults, inv);
      AlwaysFine(link.fine, linked, faults, inv);
      AlwaysFine(link, staged, faults, inv);
    } else {
      DropTmpAlways(tmp, r, staged, faults, inv);
      assert Always(link, staged, faults, inv);
    }
    StageFine(tmp, file, true, link, DropTmp(tmp, Failure(FileWrite(tmp))),
              DropTmp(tmp, Failure(FileWrite(path))), start, faults, inv);
    EndOfRun(AtomicCreate(path, tmp, file), start, faults, r, end, Loose(tmp, faults), clock, script);
  }

  /** So does the plain create. */
  lemma WriteNewSucceeds(path: Name, file: File, start: Disk, faults: set<Phase>,
                         clock: nat, script: nat -> Answer)
    requires Forward !in faults
    requires LegalScript(WriteNew(path, file), start, clock, script, faults)
    ensures var (disk, _, r) := RunAll(WriteNew(path, file), start, clock, script);
            if path !in start then r == Success && disk == start[path := file]
            else r == Failure(FileExists(path)) && disk == start
  {
    var prog := WriteNew(path, file);
    var inv := if path !in start then EndsAs(Success, start[path := file])
               else EndsAs(Failure(FileExists(path)), start);
    if path !in start {
      var created := start[path := File(file.ino, [])];
      forall part: nat
        ensures Always(prog.fine.fine, Perform(prog.fine.op, created, Answer(true, part)).0, faults, inv)
      {
        var d := Perform(prog.fine.op, created, Answer(true, part)).0;
        assert d[path := file] == start[path := file];
        AlwaysFine(prog.fine.fine, d, faults, inv);
      }
      AlwaysFine(prog.fine, created, faults, inv);
      AlwaysFine(prog, start, faults, inv);
    } else {
      assert Always(prog, start, faults, inv);
    }
    RunAllHolds(prog, start, faults, inv, clock, script);
  }

  // ---- the plain create -----------------------------------------------------------------------

  /** The plain create never replaces a file, but shows any prefix of the new one. */
  ghost predicate WrittenInPlace(path: Name, file: File, start: Disk, rest: Prog, disk: Disk) {
    (forall p :: p != path ==> Lookup(disk, p) == Lookup(start, p)) &&
    (if path in start then Lookup(disk, path) == Some(start[path])
     else path in disk ==> disk[path].ino == file.ino && disk[path].data <= file.data) &&
    (rest == Done(Success) ==> path !in start && Lookup(disk, path) == Some(file)) &&
    (rest == Done(Failure(FileExists(path))) ==> path in start)
  }

  ghost function WrittenInPlaceBy(path: Name, file: File, start: Disk): (Prog, Disk) -> bool {
    (rest, disk) => WrittenInPlace(path, file, start, rest, disk)
  }

  lemma WriteNewNeverReplaces(path: Name, file: File, start: Disk,
                              faults: set<Phase>, answers: seq<Answer>)
    requires Legal(WriteNew(path, file), start, answers, faults)
    ensures var (rest, disk) := Run(WriteNew(path, file), start, answers);
            WrittenInPlace(path, file, start, rest, disk)
  {
    var inv := WrittenInPlaceBy(path, file, start);
    var prog := WriteNew(path, file);
    if path in start {
      assert Always(prog, start, faults, inv);
    } else {
      var created := start[path := File(file.ino, [])];
      forall a: Answer | Allowed(Forward, a, faults)
        ensures var (d, reply) := Perform(prog.fine.op, created, a);
                Always(Next(prog.fine, reply), d, faults, inv)
      {
        var d := Perform(prog.fine.op, created, a).0;
        assert d[path := file] == start[path := file];
        AlwaysEffect(prog.fine.fine, d, start[path := file], faults, inv);
      }
      assert Always(prog.fine, created, faults, inv);
      AlwaysEffect(prog, start, created, faults, inv);
    }
    AlwaysHolds(prog, start, faults, inv, answers);
  }

  /** Unlike the other two it is not atomic: cut off after two calls, any part may be there. */
  lemma WriteNewShowsAnyPart(path: Name, file: File, start: Disk, part: nat)
    requires path !in start && part < |file.data|
    ensures var answers := [Answer(true, 0), Answer(true, part)];
            Legal(WriteNew(path, file), start, answers, {}) &&
            Lookup(Run(WriteNew(path, file), start, answers).1, path)
              == Some(File(file.ino, file.data[..part]))
  {
    var prog := WriteNew(path, file);
    var a0, a1 := Answer(true, 0), Answer(true, part);
    var created := start[path := File(file.ino, [])];
    assert [a0, a1][1..] == [a1] && [a1][1..] == [];
    assert Run(prog, start, [a0, a1]) == Run(prog.fine, created, [a1]);
    assert Run(prog.fine, created, [a1])
        == Run(prog.fine.fine, Perform(prog.fine.op, created, a1).0, []);
    assert Legal(prog.fine, created, [a1], {});
  }
}
