/** What becomes of writing a signature file, with and without force, on a missing file, a regular
    one, a link and a directory (`write_file` of rs/src/ops/file_utils.rs). */
module SignatureWrites {
  import opened Basics
  import opened Disk
  import opened Paths
  import opened BatchJobs
  import A = AtomicWrite

  /** Neither a link nor a directory. */
  predicate Replaceable(kind: Entry) {
    !kind.SymLink? && !kind.SubDir?
  }

  // ---- with force ---------------------------------------------------------------------------------

  /** Unless a forward call fails, a missing or regular file is replaced, and nothing else changes. */
  lemma ForcedReplaces(tmp: Name, dest: Name, kind: Entry, file: File, start: Disk, faults: set<Phase>,
                       clock: nat, script: nat -> Answer)
    requires A.Fresh(dest, tmp, start) && Replaceable(kind) && Forward !in faults
    requires LegalScript(WriteFile(tmp, dest, kind, file, true), start, clock, script, faults)
    ensures var (disk, _, r) := RunAll(WriteFile(tmp, dest, kind, file, true), start, clock, script);
            r == Success && disk == start[dest := file]
  {
    A.ReplaceSucceeds(dest, tmp, file, false, start, faults, clock + 1, script);
  }

  /** A link is refused, whatever fails, and the directory left as it was. */
  lemma ForcedRefusesLink(tmp: Name, dest: Name, kind: Entry, file: File, start: Disk, clock: nat, script: nat -> Answer)
    requires kind.SymLink?
    ensures RunAll(WriteFile(tmp, dest, kind, file, true), start, clock, script) ==
              (start, clock + 1, Failure(if script(clock).ok then OutputIsSymlink(dest) else FileWrite(dest)))
  {
  }

  ghost function Unreplaced(dest: Name, tmp: Name, start: Disk, faults: set<Phase>): (Prog, Disk) -> bool {
    (rest: Prog, disk: Disk) =>
      SameOutside(disk, start, {tmp}) && rest != Done(Success) && (rest.Done? && Cleanup !in faults ==> tmp !in disk)
  }

  /** A directory is not replaced: at every step all is as it was but for the staged file, which is
      gone at the end unless its removal failed, and the end is an error. */
  lemma ForcedKeepsDirectory(tmp: Name, dest: Name, kind: Entry, file: File, start: Disk, faults: set<Phase>,
                             answers: seq<Answer>)
    requires kind.SubDir? && A.Fresh(dest, tmp, start)
    requires Legal(WriteFile(tmp, dest, kind, file, true), start, answers, faults)
    ensures var (rest, disk) := Run(WriteFile(tmp, dest, kind, file, true), start, answers);
            SameOutside(disk, start, {tmp}) && rest != Done(Success) &&
            (rest.Done? && Cleanup !in faults ==> tmp !in disk)
  {
    var inv := Unreplaced(dest, tmp, start, faults);
    var prog := WriteFile(tmp, dest, kind, file, true);
    var refused, failed := A.DropTmp(tmp, Failure(FileWrite(dest))), A.DropTmp(tmp, Failure(FileWrite(tmp)));
    forall d | A.OnlyStaged(tmp, start, d)
      ensures Always(refused, d, faults, inv) && Always(failed, d, faults, inv)
    {
      assert SameOutside(d, start, {tmp}) && SameOutside(d - {tmp}, start, {tmp});
      A.DropTmpAlways(tmp, Failure(FileWrite(dest)), d, faults, inv);
      A.DropTmpAlways(tmp, Failure(FileWrite(tmp)), d, faults, inv);
    }
    assert A.OnlyStaged(tmp, start, start[tmp := file]);
    A.StageAlways(tmp, file, false, refused, failed, failed, start, faults, inv);
    AlwaysEffect(prog, start, start, faults, inv);
    AlwaysHolds(prog, start, faults, inv, answers);
  }

  /** Unless a forward or cleanup call fails, that error names the destination, and all is as it was. */
  lemma ForcedDirectoryError(tmp: Name, dest: Name, kind: Entry, file: File, start: Disk, faults: set<Phase>,
                             clock: nat, script: nat -> Answer)
    requires kind.SubDir? && tmp !in start && Forward !in faults && Cleanup !in faults
    requires LegalScript(WriteFile(tmp, dest, kind, file, true), start, clock, script, faults)
    ensures var (disk, _, r) := RunAll(WriteFile(tmp, dest, kind, file, true), start, clock, script);
            r == Failure(FileWrite(dest)) && disk == start
  {
    var inv := EndsAs(Failure(FileWrite(dest)), start);
    var prog := WriteFile(tmp, dest, kind, file, true);
    var refused, failed := A.DropTmp(tmp, Failure(FileWrite(dest))), A.DropTmp(tmp, Failure(FileWrite(tmp)));
    assert start[tmp := file] - {tmp} == start;
    AlwaysFine(refused, start[tmp := file], faults, inv);
    A.StageFine(tmp, file, false, refused, failed, failed, start, faults, inv);
    AlwaysFine(prog, start, faults, inv);
    RunAllHolds(prog, start, faults, inv, clock, script);
    var (disk, _, r) := RunAll(prog, start, clock, script);
    assert inv(Done(r), disk);
  }

  /** The destination holds the old or the complete new file, and the program does not end saying
      that the file exists. */
  ghost function OldOrNew(dest: Name, file: File, start: Disk): (Prog, Disk) -> bool {
    (rest: Prog, disk: Disk) =>
      (Lookup(disk, dest) == Lookup(start, dest) || Lookup(disk, dest) == Some(file)) &&
      (rest == Done(Success) ==> Lookup(disk, dest) == Some(file))
  }

  /** With force, whatever fails and wherever the run is cut off, the destination holds the old or
      the complete new file, the new one after Ok. */
  lemma ForcedIsAtomic(tmp: Name, dest: Name, kind: Entry, file: File, start: Disk, faults: set<Phase>,
                       answers: seq<Answer>)
    requires A.Fresh(dest, tmp, start)
    requires Legal(WriteFile(tmp, dest, kind, file, true), start, answers, faults)
    ensures var (rest, disk) := Run(WriteFile(tmp, dest, kind, file, true), start, answers);
            (Lookup(disk, dest) == Lookup(start, dest) || Lookup(disk, dest) == Some(file)) &&
            (rest == Done(Success) ==> Lookup(disk, dest) == Some(file))
  {
    var prog, inv := WriteFile(tmp, dest, kind, file, true), OldOrNew(dest, file, start);
    if kind.SubDir? {
      ForcedKeepsDirectory(tmp, dest, kind, file, start, faults, answers);
    } else {
      if Replaceable(kind) {
        A.AtomicReplaceAlways(dest, tmp, file, false, start, faults);
        AlwaysWeaker(prog.fine, start, faults, A.ReplacedBy(dest, tmp, file, start, faults), inv);
      }
      AlwaysEffect(prog, start, start, faults, inv);
      AlwaysHolds(prog, start, faults, inv, answers);
    }
  }

  /** With force no answers lead to the error that the file exists. */
  lemma ForcedNeverExists(tmp: Name, dest: Name, kind: Entry, file: File, start: Disk, clock: nat, script: nat -> Answer)
    ensures var r := RunAll(WriteFile(tmp, dest, kind, file, true), start, clock, script).2;
            r in A.ReplaceResults(dest, tmp) + {Failure(OutputIsSymlink(dest))}
  {
    var results := A.ReplaceResults(dest, tmp) + {Failure(OutputIsSymlink(dest))};
    var prog := WriteFile(tmp, dest, kind, file, true);
    var refused, failed := A.DropTmp(tmp, Failure(FileWrite(dest))), A.DropTmp(tmp, Failure(FileWrite(tmp)));
    assert EndsIn(Done(Failure(FileWrite(dest))), results) && EndsIn(Done(Failure(FileWrite(tmp))), results);
    assert EndsIn(refused, results) && EndsIn(failed, results);
    A.StageEndsIn(tmp, file, false, refused, failed, failed, results);
    A.ReplaceEndsIn(dest, tmp, file, false);
    MoreResults(A.AtomicReplace(dest, tmp, file, false), A.ReplaceResults(dest, tmp), results);
    RunEndsIn(prog, start, clock, script, results);
  }

  lemma {:induction false} MoreResults(prog: Prog, results: set<Verdict>, more: set<Verdict>)
    requires EndsIn(prog, results) && results <= more
    ensures EndsIn(prog, more)
    decreases prog
  {
    match prog
    case Done(_) =>
    case Do(_, _, fine, taken, failed) =>
      MoreResults(fine, results, more);
      MoreResults(taken, results, more);
      MoreResults(failed, results, more);
  }

  // ---- without force --------------------------------------------------------------------------------

  /** Unless a forward call fails, a file is written exactly where there was nothing; what is there
      is left, and the error says that it exists. */
  lemma UnforcedCreates(tmp: Name, dest: Name, kind: Entry, file: File, start: Disk, faults: set<Phase>,
                        clock: nat, script: nat -> Answer)
    requires Forward !in faults && (Replaceable(kind) ==> (kind == Missing <==> dest !in start))
    requires LegalScript(WriteFile(tmp, dest, kind, file, false), start, clock, script, faults)
    ensures var (disk, _, r) := RunAll(WriteFile(tmp, dest, kind, file, false), start, clock, script);
            (r == Success <==> kind == Missing) &&
            (if r == Success then disk == start[dest := file] else r == Failure(FileExists(dest)) && disk == start)
  {
    if Replaceable(kind) {
      A.WriteNewSucceeds(dest, file, start, faults, clock, script);
    }
  }
}
