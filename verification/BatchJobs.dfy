/** The per-file jobs of a checked batch (`sign_file_with_key`, `collect_sign_results` of
    rs/src/ops/sign.rs), interleaved call by call: the order makes no difference, and no input is
    touched. */
module BatchJobs {
  import opened Basics
  import opened Disk
  import opened Paths
  import opened Batch
  import opened Gaps
  import A = AtomicWrite

  /** One file to sign: the fresh name and inode its staged file gets, and the signature file that
      its contents call for, if signing succeeds. */
  datatype Job = Job(message: Path, tmp: Name, ino: nat, sign: Bytes -> Option<Bytes>)

  datatype Setting = Setting(tree: Tree, key: Path, force: bool, jobs: seq<Job>, start: Disk)

  // ---- one job ----------------------------------------------------------------------------------------

  /** `write_file` on an entry. A link is refused, a directory cannot be replaced. */
  function WriteFile(tmp: Name, dest: Name, kind: Entry, file: File, force: bool): Prog {
    var failed := A.DropTmp(tmp, Failure(FileWrite(tmp)));
    if force then
      Step(Inspect(dest), Forward,
           if kind.SymLink? then Done(Failure(OutputIsSymlink(dest)))
           else if kind.SubDir? then
             A.Stage(tmp, file, false, A.DropTmp(tmp, Failure(FileWrite(dest))), failed, failed)
           else A.AtomicReplace(dest, tmp, file, false),
           Done(Failure(FileWrite(dest))))
    else if kind.SymLink? || kind.SubDir? then
      Step(Inspect(dest), Forward, Done(Failure(FileExists(dest))), Done(Failure(FileWrite(dest))))
    else A.WriteNew(dest, file)
  }

  datatype Report = IsAlias(error: AliasError) | Unread | Unsigned | Written(verdict: Verdict)

  datatype State = Checking | Reading | Writing(rest: Prog) | Stopped(report: Report)

  /** The signature path of a job, by default next to the message. */
  function SigPath(j: Job): Path {
    SignaturePath(j.message, None)
  }

  /** The program that writes the signature, by the entry the kernel finds under its path. */
  function WriteSignature(t: Tree, disk: Disk, j: Job, force: bool, data: Bytes): State
    requires t.Valid()
  {
    match KernelEntry(t, disk, SigPath(j))
    case Some(In(d, n)) =>
      var dest := NameOf(t, d) + [n];
      Writing(WriteFile(j.tmp, dest, EntryAt(t, disk, d, n), File(j.ino, data), force))
    case _ => Stopped(Written(Failure(FileWrite(j.tmp))))
  }

  function ReadMessage(t: Tree, disk: Disk, j: Job): Option<Bytes>
    requires t.Valid()
  {
    match Canonicalize(t, disk, j.message)
    case Err(_) => None
    case Ok(name) => if name in disk then Some(disk[name].data) else None
  }

  /** The next thing a job does: the alias check, reading and signing the message, or a call. */
  function Advance(s: Setting, j: Job, st: State, disk: Disk, a: Answer): (State, Disk)
    requires s.tree.Valid()
  {
    match st
    case Checking =>
      (match RejectOutputAlias(s.tree, disk, SigPath(j), [j.message, s.key])
       case Some(e) => (Stopped(IsAlias(e)), disk)
       case None => (Reading, disk))
    case Reading =>
      (match if a.ok then ReadMessage(s.tree, disk, j) else None
       case None => (Stopped(Unread), disk)
       case Some(data) =>
         match j.sign(data)
         case None => (Stopped(Unsigned), disk)
         case Some(sig) => (WriteSignature(s.tree, disk, j, s.force, sig), disk))
    case Writing(prog) =>
      if prog.Done? then (Stopped(Written(prog.result)), disk)
      else
        var (disk', reply) := Perform(prog.op, disk, a);
        (Writing(Next(prog, reply)), disk')
    case Stopped(_) => (st, disk)
  }

  // ---- any interleaving -------------------------------------------------------------------------------

  /** What the operating system answers to a job's n-th step. */
  type Script = (nat, nat) -> Answer

  datatype World = World(disk: Disk, states: seq<State>, clocks: seq<nat>)

  function Begin(s: Setting): World {
    World(s.start, seq(|s.jobs|, _ => Checking), seq(|s.jobs|, _ => 0))
  }

  predicate Fits(s: Setting, w: World) {
    |w.states| == |w.clocks| == |s.jobs|
  }

  function Move(s: Setting, script: Script, w: World, i: nat): (w': World)
    requires s.tree.Valid() && Fits(s, w)
    ensures Fits(s, w')
  {
    if i >= |s.jobs| then w
    else
      var (st, disk) := Advance(s, s.jobs[i], w.states[i], w.disk, script(i, w.clocks[i]));
      World(disk, w.states[i := st], w.clocks[i := w.clocks[i] + 1])
  }

  /** The jobs named in `turns` move in that order. */
  function Interleave(s: Setting, script: Script, w: World, turns: seq<nat>): (w': World)
    requires s.tree.Valid() && Fits(s, w)
    ensures Fits(s, w')
    decreases |turns|
  {
    if turns == [] then w else Interleave(s, script, Move(s, script, w, turns[0]), turns[1..])
  }

  predicate Complete(w: World) {
    forall i :: 0 <= i < |w.states| ==> w.states[i].Stopped?
  }

  /** The job by itself, `n` steps from the start. */
  function Alone(s: Setting, script: Script, i: nat, n: nat): (State, Disk)
    requires s.tree.Valid() && i < |s.jobs|
  {
    if n == 0 then (Checking, s.start)
    else
      var (st, disk) := Alone(s, script, i, n - 1);
      Advance(s, s.jobs[i], st, disk, script(i, n - 1))
  }

  // ---- what a checked batch is -------------------------------------------------------------------------

  function Dest(s: Setting, i: nat): Result<Name, WalkError>
    requires s.tree.Valid() && i < |s.jobs|
  {
    Destination(s.tree, s.start, s.jobs[i].message, None)
  }

  function Input(s: Setting, i: nat): Result<Name, WalkError>
    requires s.tree.Valid() && i < |s.jobs|
  {
    Canonicalize(s.tree, s.start, s.jobs[i].message)
  }

  /** What the key path is compared by at the start, and the entry it lacks if it does not exist. */
  function KeyOther(s: Setting): Result<Name, WalkError>
    requires s.tree.Valid()
  {
    ResolveOther(s.tree, s.start, s.key)
  }

  function KeyGap(s: Setting): Option<Gap>
    requires s.tree.Valid()
  {
    PathGap(s.tree, s.start, s.key)
  }

  /** One job's destination against another's message and destination, and the key. */
  ghost predicate Apart(s: Setting, i: nat, k: nat)
    requires s.tree.Valid() && i < |s.jobs| && k < |s.jobs|
  {
    Split(s.jobs[i].message) && Dest(s, i).Ok? && Input(s, k).Ok? && Dest(s, i) != Input(s, k) &&
    KeyOther(s).Ok? && Dest(s, i) != KeyOther(s) && (i != k ==> Dest(s, i) != Dest(s, k))
  }

  /** A staged name is nobody else's. */
  ghost predicate New(s: Setting, i: nat, k: nat)
    requires s.tree.Valid() && i < |s.jobs| && k < |s.jobs|
  {
    s.jobs[i].tmp !in s.start && Ok(s.jobs[i].tmp) != Dest(s, k) && Ok(s.jobs[i].tmp) != Input(s, k) &&
    (KeyGap(s).Some? ==> s.jobs[i].tmp != KeyGap(s).value.name) &&
    (i != k ==> s.jobs[i].tmp != s.jobs[k].tmp)
  }

  /** What the checks of the batch leave, with staged names that are new. The key path need not
      exist. */
  ghost predicate Checked(s: Setting) {
    s.tree.Valid() &&
    (forall i, k :: 0 <= i < |s.jobs| && 0 <= k < |s.jobs| ==> Apart(s, i, k) && New(s, i, k))
  }

  /** The checks establish all of it but the freshness of the staged names. */
  lemma PreparedIsChecked(s: Setting, files: seq<Path>)
    requires s.tree.Valid() && forall f :: 0 <= f < |files| ==> Split(files[f])
    requires Prepare(s.tree, s.start, files, s.key, None).Ok?
    requires var kept := Prepare(s.tree, s.start, files, s.key, None).value;
             |s.jobs| == |kept| && forall i :: 0 <= i < |kept| ==> s.jobs[i].message == kept[i]
    requires forall i, k :: 0 <= i < |s.jobs| && 0 <= k < |s.jobs| ==> New(s, i, k)
    ensures Checked(s)
  {
    forall i, k | 0 <= i < |s.jobs| && 0 <= k < |s.jobs| ensures Apart(s, i, k) {
      PreparedApart(s.tree, s.start, files, s.key, None, i, k);
    }
  }

  // ---- the view of a job does not change ------------------------------------------------------------------

  lemma CanonicalizeStable(t: Tree, disk: Disk, later: Disk, path: Path)
    requires t.Valid() && disk.Keys <= later.Keys && Canonicalize(t, disk, path).Ok?
    ensures Canonicalize(t, later, path) == Canonicalize(t, disk, path)
  {
    WalkStable(t, disk, later, ROOT, path, MAX_LINKS);
  }

  lemma DestinationStable(t: Tree, disk: Disk, later: Disk, j: Job)
    requires t.Valid() && disk.Keys <= later.Keys && Split(j.message)
    requires Canonicalize(t, disk, j.message).Ok?
    ensures ResolveDestination(t, later, SigPath(j)) == Destination(t, disk, j.message, None)
    ensures KernelEntry(t, later, SigPath(j)) == KernelEntry(t, disk, SigPath(j))
  {
    CanonicalizeStable(t, disk, later, j.message);
    DefaultDestination(t, disk, j.message);
    DefaultDestination(t, later, j.message);
    WalkStable(t, disk, later, ROOT, j.message[..|j.message| - 1], MAX_LINKS);
  }

  /** The alias check of a job, repeated on the directory as it is by then. */
  predicate Passes(s: Setting, i: nat, later: Disk)
    requires s.tree.Valid() && i < |s.jobs|
  {
    RejectOutputAlias(s.tree, later, SigPath(s.jobs[i]), [s.jobs[i].message, s.key]).None?
  }

  /** Exactly when it passes: unless the entry that the key path lacks has come to be, and either
      the path goes on there or it is the job's own destination. */
  lemma CheckPasses(s: Setting, i: nat, later: Disk)
    requires Checked(s) && i < |s.jobs| && s.start.Keys <= later.Keys
    ensures Passes(s, i, later) <==>
              KeyGap(s).None? || KeyGap(s).value.name !in later ||
              (!KeyGap(s).value.more && Ok(KeyGap(s).value.name) != Dest(s, i))
  {
    var j := s.jobs[i];
    assert Apart(s, i, i);
    DestinationStable(s.tree, s.start, later, j);
    CanonicalizeStable(s.tree, s.start, later, j.message);
    OtherLater(s.tree, s.start, later, s.key);
    NoAliasMeaning(s.tree, later, Dest(s, i).value, [j.message, s.key]);
    assert [j.message, s.key][0] == j.message && [j.message, s.key][1] == s.key;
  }

  /** The program a job writes with is the same, whatever files have come to be. */
  lemma WriteStable(s: Setting, i: nat, later: Disk, data: Bytes)
    requires Checked(s) && i < |s.jobs| && s.start.Keys <= later.Keys
    ensures var j := s.jobs[i];
            Dest(s, i).Ok? &&
            WriteSignature(s.tree, later, j, s.force, data) == WriteSignature(s.tree, s.start, j, s.force, data) &&
            exists kind ::
              WriteSignature(s.tree, later, j, s.force, data) ==
                Writing(WriteFile(j.tmp, Dest(s, i).value, kind, File(j.ino, data), s.force))
  {
    var j := s.jobs[i];
    assert Apart(s, i, i);
    DestinationStable(s.tree, s.start, later, j);
    DefaultDestination(s.tree, s.start, j.message);
    var w := KernelEntry(s.tree, s.start, SigPath(j)).value;
    SameProgram(s, j.tmp, Dest(s, i).value, EntryAt(s.tree, later, w.dir, w.name), EntryAt(s.tree, s.start, w.dir, w.name), File(j.ino, data));
  }

  /** Whether a regular file is there already makes no difference to the program. */
  lemma SameProgram(s: Setting, tmp: Name, dest: Name, kind: Entry, kind': Entry, file: File)
    requires kind == kind' || (!kind.SymLink? && !kind.SubDir? && !kind'.SymLink? && !kind'.SubDir?)
    ensures WriteFile(tmp, dest, kind, file, s.force) == WriteFile(tmp, dest, kind', file, s.force)
  {
  }

  // ---- what a job touches -----------------------------------------------------------------------------

  /** Calls on two names only, of which the first alone is ever removed. */
  predicate Harmless(prog: Prog, tmp: Name, dest: Name) {
    prog.Do? ==>
      Touches(prog.op) <= {tmp, dest} &&
      (prog.op.Remove? ==> prog.op.path == tmp) && (prog.op.Rename? ==> prog.op.source == tmp) &&
      Harmless(prog.fine, tmp, dest) && Harmless(prog.taken, tmp, dest) && Harmless(prog.failed, tmp, dest)
  }

  lemma StageHarmless(tmp: Name, dest: Name, file: File, fine: Prog, failed: Prog)
    requires Harmless(fine, tmp, dest) && Harmless(failed, tmp, dest)
    ensures Harmless(A.Stage(tmp, file, false, fine, failed, failed), tmp, dest)
  {
    var sync := Step(SyncFile(tmp), Forward, fine, failed);
    var rest := Step(WriteRest(tmp, file.data), Forward, sync, failed);
    var write := Step(WriteSome(tmp, file.data), Forward, rest, failed);
    assert Harmless(sync, tmp, dest) && Harmless(rest, tmp, dest) && Harmless(write, tmp, dest);
  }

  lemma DropHarmless(tmp: Name, dest: Name, r: Verdict)
    ensures Harmless(A.DropTmp(tmp, r), tmp, dest)
  {
    assert Harmless(Done(r), tmp, dest);
  }

  lemma WriteFileHarmless(tmp: Name, dest: Name, kind: Entry, file: File, force: bool)
    ensures Harmless(WriteFile(tmp, dest, kind, file, force), tmp, dest)
  {
    var failed := A.DropTmp(tmp, Failure(FileWrite(tmp)));
    var refused := A.DropTmp(tmp, Failure(FileWrite(dest)));
    DropHarmless(tmp, dest, Failure(FileWrite(tmp)));
    DropHarmless(tmp, dest, Failure(FileWrite(dest)));
    if force {
      var bad := Done(Failure(ParentSync(dest)));
      var synced := Step(SyncDir(dest), Forward, Done(Success), bad);
      assert Harmless(Done(Success), tmp, dest) && Harmless(bad, tmp, dest);
      assert Harmless(synced, tmp, dest);
      var rename := Step(Rename(tmp, dest), Forward, synced, refused);
      assert Harmless(rename, tmp, dest);
      StageHarmless(tmp, dest, file, refused, failed);
      StageHarmless(tmp, dest, file, rename, failed);
    } else {
      var rest := Step(WriteRest(dest, file.data), Forward, Done(Success), Done(Failure(FileWrite(dest))));
      assert Harmless(rest, tmp, dest);
      assert Harmless(Step(WriteSome(dest, file.data), Forward, rest, Done(Failure(FileWrite(dest)))), tmp, dest);
    }
  }

  ghost predicate Agree(a: Disk, b: Disk, names: set<Name>) {
    forall p :: p in names ==> Lookup(a, p) == Lookup(b, p)
  }

  /** A call sees and changes only the names it touches. */
  lemma LocalCall(op: Op, names: set<Name>, a: Disk, b: Disk, answer: Answer)
    requires Touches(op) <= names && Agree(a, b, names)
    ensures Perform(op, a, answer).1 == Perform(op, b, answer).1
    ensures Agree(Perform(op, a, answer).0, Perform(op, b, answer).0, names)
    ensures SameOutside(Perform(op, a, answer).0, a, names)
  {
    assert forall p :: p in Touches(op) ==> Lookup(a, p) == Lookup(b, p);
    match op
    case Link(x, y) => assert x in Touches(op) && y in Touches(op);
    case Rename(x, y) => assert x in Touches(op) && y in Touches(op);
    case _ => assert op.path in Touches(op);
  }

  lemma KeepsNames(prog: Prog, tmp: Name, dest: Name, start: Disk, disk: Disk, answer: Answer)
    requires prog.Do? && Harmless(prog, tmp, dest) && tmp !in start && start.Keys <= disk.Keys
    ensures start.Keys <= Perform(prog.op, disk, answer).0.Keys
  {
  }

  // ---- what a job owns ---------------------------------------------------------------------------

  function Own(s: Setting, i: nat): set<Name>
    requires s.tree.Valid() && i < |s.jobs|
  {
    {s.jobs[i].tmp} + if Dest(s, i).Ok? then {Dest(s, i).value} else {}
  }

  lemma OwnApart(s: Setting, i: nat, k: nat)
    requires Checked(s) && i < |s.jobs| && k < |s.jobs|
    ensures i != k ==> Own(s, i) !! Own(s, k)
    ensures Input(s, k).Ok? && Input(s, k).value !in Own(s, i)
  {
    assert Apart(s, i, k) && New(s, i, k) && New(s, k, i) && Apart(s, k, i);
  }

  /** What a job may have in hand. */
  predicate Behaves(s: Setting, i: nat, st: State)
    requires s.tree.Valid() && i < |s.jobs|
  {
    st.Writing? ==> Dest(s, i).Ok? && Harmless(st.rest, s.jobs[i].tmp, Dest(s, i).value)
  }

  /** A step keeps to what the job owns, and removes nothing that was there. */
  lemma StepContained(s: Setting, i: nat, st: State, here: Disk, a: Answer)
    requires Checked(s) && i < |s.jobs| && Behaves(s, i, st) && s.start.Keys <= here.Keys
    ensures var (st', here') := Advance(s, s.jobs[i], st, here, a);
            Behaves(s, i, st') && SameOutside(here', here, Own(s, i)) && s.start.Keys <= here'.Keys
  {
    var j := s.jobs[i];
    assert Apart(s, i, i) && New(s, i, i);
    match st
    case Checking =>
    case Reading =>
      var data := ReadMessage(s.tree, here, j);
      if a.ok && data.Some? && j.sign(data.value).Some? {
        SignedStep(s, i, here, here, j.sign(data.value).value);
      }
    case Writing(prog) =>
      if prog.Do? {
        LocalCall(prog.op, Own(s, i), here, here, a);
        KeepsNames(prog, j.tmp, Dest(s, i).value, s.start, here, a);
      }
    case Stopped(_) =>
  }

  /** The same step in two directories that agree on what the job owns and what it reads. */
  lemma SameStep(s: Setting, i: nat, st: State, here: Disk, alone: Disk, a: Answer)
    requires Checked(s) && i < |s.jobs| && Behaves(s, i, st)
    requires s.start.Keys <= here.Keys && s.start.Keys <= alone.Keys
    requires st.Checking? ==> Passes(s, i, here) && Passes(s, i, alone)
    requires Agree(here, alone, Own(s, i))
    requires Input(s, i).Ok?
    requires Lookup(here, Input(s, i).value) == Lookup(alone, Input(s, i).value)
    ensures var (st', here') := Advance(s, s.jobs[i], st, here, a);
            var (st'', alone') := Advance(s, s.jobs[i], st, alone, a);
            st' == st'' && Agree(here', alone', Own(s, i))
  {
    var j := s.jobs[i];
    match st
    case Checking =>
    case Reading =>
      CanonicalizeStable(s.tree, s.start, here, j.message);
      CanonicalizeStable(s.tree, s.start, alone, j.message);
      assert ReadMessage(s.tree, here, j) == ReadMessage(s.tree, alone, j);
      var data := ReadMessage(s.tree, here, j);
      if a.ok && data.Some? && j.sign(data.value).Some? {
        SignedStep(s, i, here, alone, j.sign(data.value).value);
      }
    case Writing(prog) =>
      if prog.Do? { LocalCall(prog.op, Own(s, i), here, alone, a); }
    case Stopped(_) =>
  }

  lemma SignedStep(s: Setting, i: nat, here: Disk, alone: Disk, data: Bytes)
    requires Checked(s) && i < |s.jobs| && s.start.Keys <= here.Keys && s.start.Keys <= alone.Keys
    ensures var j := s.jobs[i];
            var st := WriteSignature(s.tree, here, j, s.force, data);
            st == WriteSignature(s.tree, alone, j, s.force, data) && Behaves(s, i, st)
  {
    var j := s.jobs[i];
    WriteStable(s, i, here, data);
    WriteStable(s, i, alone, data);
    var kind :| WriteSignature(s.tree, here, j, s.force, data) ==
                  Writing(WriteFile(j.tmp, Dest(s, i).value, kind, File(j.ino, data), s.force));
    WriteFileHarmless(j.tmp, Dest(s, i).value, kind, File(j.ino, data), s.force);
  }

  // ---- at every point of every interleaving ------------------------------------------------------------

  ghost predicate Unowned(s: Setting, p: Name)
    requires s.tree.Valid()
  {
    forall i :: 0 <= i < |s.jobs| ==> p !in Own(s, i)
  }

  lemma InputsUnowned(s: Setting, k: nat)
    requires Checked(s) && k < |s.jobs|
    ensures Input(s, k).Ok? && Unowned(s, Input(s, k).value)
  {
    assert Apart(s, k, k);
    forall i | 0 <= i < |s.jobs| ensures Input(s, k).value !in Own(s, i) {
      OwnApart(s, i, k);
    }
  }

  /** Nothing is gone, and nothing that no job owns has changed. */
  ghost predicate Contained(s: Setting, w: World)
    requires s.tree.Valid() && Fits(s, w)
  {
    s.start.Keys <= w.disk.Keys &&
    (forall i :: 0 <= i < |s.jobs| ==> Behaves(s, i, w.states[i])) &&
    (forall p :: Unowned(s, p) ==> Lookup(w.disk, p) == Lookup(s.start, p))
  }

  lemma MoveContained(s: Setting, script: Script, w: World, i: nat)
    requires Checked(s) && Fits(s, w) && Contained(s, w)
    ensures Contained(s, Move(s, script, w, i))
  {
    if i < |s.jobs| {
      var w' := Move(s, script, w, i);
      StepContained(s, i, w.states[i], w.disk, script(i, w.clocks[i]));
      forall p | Unowned(s, p) ensures Lookup(w'.disk, p) == Lookup(s.start, p) {
        assert p !in Own(s, i);
      }
    }
  }

  lemma {:induction false} InterleaveContained(s: Setting, script: Script, w: World, turns: seq<nat>)
    requires Checked(s) && Fits(s, w) && Contained(s, w)
    ensures Contained(s, Interleave(s, script, w, turns))
    decreases |turns|
  {
    if turns != [] {
      MoveContained(s, script, w, turns[0]);
      InterleaveContained(s, script, Move(s, script, w, turns[0]), turns[1..]);
    }
  }

  /** No input's entry or bytes change, nor does the walk to it, nor to a key path that exists, at
      any point of any interleaving and whatever fails. */
  lemma InputsUntouched(s: Setting, script: Script, turns: seq<nat>, k: nat)
    requires Checked(s) && k < |s.jobs|
    ensures var disk := Interleave(s, script, Begin(s), turns).disk;
            Input(s, k).Ok? && Lookup(disk, Input(s, k).value) == Lookup(s.start, Input(s, k).value) &&
            Canonicalize(s.tree, disk, s.jobs[k].message) == Input(s, k) &&
            (Canonicalize(s.tree, s.start, s.key).Ok? ==>
               Canonicalize(s.tree, disk, s.key) == Canonicalize(s.tree, s.start, s.key))
  {
    InterleaveContained(s, script, Begin(s), turns);
    InputsUnowned(s, k);
    var disk := Interleave(s, script, Begin(s), turns).disk;
    CanonicalizeStable(s.tree, s.start, disk, s.jobs[k].message);
    if Canonicalize(s.tree, s.start, s.key).Ok? {
      CanonicalizeStable(s.tree, s.start, disk, s.key);
    }
  }

  // ---- each job as if alone ---------------------------------------------------------------------------

  /** The message can be read at the start, and signing it succeeds. */
  predicate Signs(s: Setting, k: nat)
    requires s.tree.Valid() && k < |s.jobs|
  {
    var data := ReadMessage(s.tree, s.start, s.jobs[k]);
    data.Some? && s.jobs[k].sign(data.value).Some?
  }

  /** The signature a job writes. */
  function Signature(s: Setting, k: nat): File
    requires s.tree.Valid() && k < |s.jobs| && Signs(s, k)
  {
    File(s.jobs[k].ino, s.jobs[k].sign(ReadMessage(s.tree, s.start, s.jobs[k]).value).value)
  }

  /** The destination is the entry that the key path lacks on its way to further components. */
  predicate Blocks(s: Setting, k: nat)
    requires s.tree.Valid() && k < |s.jobs|
  {
    KeyGap(s).Some? && KeyGap(s).value.more && Dest(s, k) == Ok(KeyGap(s).value.name)
  }

  /** Job `k` writes a file in the way of the key path, and job `i` has its check to repeat. */
  predicate InTheWay(s: Setting, i: nat, k: nat)
    requires s.tree.Valid() && i < |s.jobs| && k < |s.jobs|
  {
    i != k && Blocks(s, k) && Signs(s, k)
  }

  ghost predicate KeyClear(s: Setting)
    requires s.tree.Valid()
  {
    forall i, k :: 0 <= i < |s.jobs| && 0 <= k < |s.jobs| ==> !InTheWay(s, i, k)
  }

  lemma PassesAtStart(s: Setting, i: nat)
    requires Checked(s) && i < |s.jobs|
    ensures Passes(s, i, s.start)
  {
    CheckPasses(s, i, s.start);
    GapIsNotFound(s.tree, s.start, ROOT, s.key, MAX_LINKS);
  }

  /** A job by itself changes what it owns and removes nothing that was there; and it changes
      nothing before it writes, which it only does with a message it can sign. */
  ghost predicate AloneKeeps(s: Setting, script: Script, i: nat, n: nat)
    requires s.tree.Valid() && i < |s.jobs|
  {
    var (st, disk) := Alone(s, script, i, n);
    Behaves(s, i, st) && s.start.Keys <= disk.Keys && SameOutside(disk, s.start, Own(s, i)) &&
    (st.Checking? || st.Reading? || !Signs(s, i) ==> disk == s.start && !st.Writing?)
  }

  lemma {:induction false} AloneAlwaysKeeps(s: Setting, script: Script, i: nat, n: nat)
    requires Checked(s) && i < |s.jobs|
    ensures AloneKeeps(s, script, i, n)
  {
    if n > 0 {
      AloneAlwaysKeeps(s, script, i, n - 1);
      var (st, disk) := Alone(s, script, i, n - 1);
      StepContained(s, i, st, disk, script(i, n - 1));
    }
  }

  /** Job `i` of the world is where it would be alone after as many steps. */
  ghost predicate AsAlone(s: Setting, script: Script, w: World, i: nat)
    requires s.tree.Valid() && Fits(s, w) && i < |s.jobs|
  {
    var (st, disk) := Alone(s, script, i, w.clocks[i]);
    w.states[i] == st && Agree(w.disk, disk, Own(s, i))
  }

  ghost predicate Independent(s: Setting, script: Script, w: World)
    requires s.tree.Valid() && Fits(s, w)
  {
    Contained(s, w) && forall i :: 0 <= i < |s.jobs| ==> AsAlone(s, script, w, i)
  }

  /** The entry that the key path lacks is there by the work of a job that owns it and can sign,
      and is past its check. */
  lemma WhoWrote(s: Setting, script: Script, w: World) returns (k: nat)
    requires Checked(s) && Fits(s, w) && Independent(s, script, w)
    requires KeyGap(s).Some? && KeyGap(s).value.name in w.disk
    ensures k < |s.jobs| && Dest(s, k) == Ok(KeyGap(s).value.name) && Signs(s, k) && !w.states[k].Checking?
  {
    var p := KeyGap(s).value.name;
    GapIsNotFound(s.tree, s.start, ROOT, s.key, MAX_LINKS);
    assert Lookup(w.disk, p) != Lookup(s.start, p);
    assert !Unowned(s, p);
    k :| 0 <= k < |s.jobs| && p in Own(s, k);
    assert New(s, k, k);
    assert AsAlone(s, script, w, k);
    AloneAlwaysKeeps(s, script, k, w.clocks[k]);
    assert Lookup(Alone(s, script, k, w.clocks[k]).1, p) == Lookup(w.disk, p);
  }

  /** The repeated check passes, whatever the others have written. */
  lemma StillPasses(s: Setting, script: Script, w: World, i: nat)
    requires Checked(s) && KeyClear(s) && Fits(s, w) && Independent(s, script, w)
    requires i < |s.jobs| && w.states[i].Checking?
    ensures Passes(s, i, w.disk)
  {
    CheckPasses(s, i, w.disk);
    if KeyGap(s).Some? && KeyGap(s).value.name in w.disk {
      var k := WhoWrote(s, script, w);
      assert Apart(s, i, k) && !InTheWay(s, i, k);
    }
  }

  lemma MoveIndependent(s: Setting, script: Script, w: World, i: nat)
    requires Checked(s) && KeyClear(s) && Fits(s, w) && Independent(s, script, w)
    ensures Independent(s, script, Move(s, script, w, i))
  {
    MoveContained(s, script, w, i);
    if i < |s.jobs| {
      var w' := Move(s, script, w, i);
      var (st, disk) := Alone(s, script, i, w.clocks[i]);
      assert AsAlone(s, script, w, i);
      AloneAlwaysKeeps(s, script, i, w.clocks[i]);
      InputsUnowned(s, i);
      OwnApart(s, i, i);
      if st.Checking? {
        StillPasses(s, script, w, i);
        PassesAtStart(s, i);
      }
      SameStep(s, i, st, w.disk, disk, script(i, w.clocks[i]));
      StepContained(s, i, st, w.disk, script(i, w.clocks[i]));
      assert AsAlone(s, script, w', i);
      forall k | 0 <= k < |s.jobs| ensures AsAlone(s, script, w', k) {
        if k != i {
          assert AsAlone(s, script, w, k);
          OwnApart(s, i, k);
        }
      }
    }
  }

  lemma {:induction false} InterleaveIndependent(s: Setting, script: Script, w: World, turns: seq<nat>)
    requires Checked(s) && KeyClear(s) && Fits(s, w) && Independent(s, script, w)
    ensures Independent(s, script, Interleave(s, script, w, turns))
    decreases |turns|
  {
    if turns != [] {
      MoveIndependent(s, script, w, turns[0]);
      InterleaveIndependent(s, script, Move(s, script, w, turns[0]), turns[1..]);
    }
  }

  /** At every point of every interleaving each job is where it would be alone. */
  lemma AlwaysIndependent(s: Setting, script: Script, turns: seq<nat>)
    requires Checked(s) && KeyClear(s)
    ensures Independent(s, script, Interleave(s, script, Begin(s), turns))
  {
    assert forall i :: 0 <= i < |s.jobs| ==> AsAlone(s, script, Begin(s), i);
    InterleaveIndependent(s, script, Begin(s), turns);
  }

  // ---- the main results -----------------------------------------------------------------------------------

  lemma {:induction false} StoppedStays(s: Setting, script: Script, i: nat, n: nat, m: nat)
    requires s.tree.Valid() && i < |s.jobs| && n <= m && Alone(s, script, i, n).0.Stopped?
    ensures Alone(s, script, i, m) == Alone(s, script, i, n)
  {
    if n < m { StoppedStays(s, script, i, n, m - 1); }
  }

  lemma StoppedAlike(s: Setting, script: Script, i: nat, n: nat, m: nat)
    requires s.tree.Valid() && i < |s.jobs|
    requires Alone(s, script, i, n).0.Stopped? && Alone(s, script, i, m).0.Stopped?
    ensures Alone(s, script, i, n) == Alone(s, script, i, m)
  {
    if n <= m { StoppedStays(s, script, i, n, m); } else { StoppedStays(s, script, i, m, n); }
  }

  /** Any two orders in which all jobs come to their end leave the same files and the same
      reports. */
  lemma OrderIrrelevant(s: Setting, script: Script, turns: seq<nat>, others: seq<nat>)
    requires Checked(s) && KeyClear(s)
    requires Complete(Interleave(s, script, Begin(s), turns))
    requires Complete(Interleave(s, script, Begin(s), others))
    ensures var v, w := Interleave(s, script, Begin(s), turns), Interleave(s, script, Begin(s), others);
            v.disk == w.disk && v.states == w.states
  {
    var v, w := Interleave(s, script, Begin(s), turns), Interleave(s, script, Begin(s), others);
    AlwaysIndependent(s, script, turns);
    AlwaysIndependent(s, script, others);
    forall i | 0 <= i < |s.jobs| ensures v.states[i] == w.states[i] && Agree(v.disk, w.disk, Own(s, i)) {
      assert AsAlone(s, script, v, i) && AsAlone(s, script, w, i);
      StoppedAlike(s, script, i, v.clocks[i], w.clocks[i]);
    }
    forall p ensures Lookup(v.disk, p) == Lookup(w.disk, p) {
      if i :| 0 <= i < |s.jobs| && p in Own(s, i) {
        assert Agree(v.disk, w.disk, Own(s, i));
      } else {
        assert Unowned(s, p);
      }
    }
    SameLookups(v.disk, w.disk);
  }

  // ---- one file after the other -----------------------------------------------------------------------------

  /** Job `i` moves `steps[i]` times, then the next one. */
  function InOrder(steps: seq<nat>): (turns: seq<nat>) {
    if steps == [] then []
    else InOrder(steps[..|steps| - 1]) + seq(steps[|steps| - 1], _ => |steps| - 1)
  }

  lemma {:induction false} AloneStops(s: Setting, script: Script, i: nat, n: nat) returns (m: nat)
    requires s.tree.Valid() && i < |s.jobs| && Alone(s, script, i, n).0.Writing?
    ensures Alone(s, script, i, m).0.Stopped?
    decreases Alone(s, script, i, n).0.rest
  {
    if Alone(s, script, i, n).0.rest.Done? {
      m := n + 1;
    } else {
      m := AloneStops(s, script, i, n + 1);
    }
  }

  /** Every job comes to its end. */
  lemma JobStops(s: Setting, script: Script, i: nat) returns (m: nat)
    requires s.tree.Valid() && i < |s.jobs|
    ensures Alone(s, script, i, m).0.Stopped?
  {
    var first, second := Alone(s, script, i, 1).0, Alone(s, script, i, 2).0;
    if first.Stopped? {
      m := 1;
    } else if second.Stopped? {
      m := 2;
    } else {
      m := AloneStops(s, script, i, 2);
    }
  }

  function Clocks(s: Setting, script: Script, turns: seq<nat>): (c: seq<nat>)
    requires s.tree.Valid()
    ensures |c| == |s.jobs|
  {
    Interleave(s, script, Begin(s), turns).clocks
  }

  lemma {:induction false} InterleaveConcat(s: Setting, script: Script, w: World, a: seq<nat>, b: seq<nat>)
    requires s.tree.Valid() && Fits(s, w)
    ensures Interleave(s, script, w, a + b) == Interleave(s, script, Interleave(s, script, w, a), b)
    decreases |a|
  {
    if a == [] {
      assert a + b == b;
    } else {
      assert (a + b)[1..] == a[1..] + b;
      InterleaveConcat(s, script, Move(s, script, w, a[0]), a[1..], b);
    }
  }

  lemma {:induction false} RepeatedTurns(s: Setting, script: Script, w: World, i: nat, n: nat)
    requires s.tree.Valid() && Fits(s, w) && i < |s.jobs|
    ensures Interleave(s, script, w, seq(n, _ => i)).clocks == w.clocks[i := w.clocks[i] + n]
    decreases n
  {
    if n > 0 {
      var turns := seq(n, _ => i);
      assert turns[1..] == seq(n - 1, _ => i);
      RepeatedTurns(s, script, Move(s, script, w, i), i, n - 1);
    }
  }

  lemma {:induction false} InOrderClocks(s: Setting, script: Script, steps: seq<nat>)
    requires s.tree.Valid() && |steps| <= |s.jobs|
    ensures Clocks(s, script, InOrder(steps)) == steps + seq(|s.jobs| - |steps|, _ => 0)
    decreases |steps|
  {
    if steps != [] {
      var last := |steps| - 1;
      var init := steps[..last];
      InOrderClocks(s, script, init);
      InterleaveConcat(s, script, Begin(s), InOrder(init), seq(steps[last], _ => last));
      RepeatedTurns(s, script, Interleave(s, script, Begin(s), InOrder(init)), last, steps[last]);
    }
  }

  lemma EnoughSteps(s: Setting, script: Script, k: nat) returns (steps: seq<nat>)
    requires s.tree.Valid() && k <= |s.jobs|
    ensures |steps| == k
    ensures forall i :: 0 <= i < k ==> Alone(s, script, i, steps[i]).0.Stopped?
  {
    if k == 0 {
      steps := [];
    } else {
      var init := EnoughSteps(s, script, k - 1);
      var m := JobStops(s, script, k - 1);
      steps := init + [m];
    }
  }

  /** The files signed one after the other come to an end, and any other order that comes to an
      end, however the jobs are interleaved, leaves what that one leaves. */
  lemma ParallelIsSequential(s: Setting, script: Script)
    requires Checked(s) && KeyClear(s)
    ensures exists steps ::
              |steps| == |s.jobs| && Complete(Interleave(s, script, Begin(s), InOrder(steps))) &&
              forall turns :: Complete(Interleave(s, script, Begin(s), turns)) ==>
                SameEnd(Interleave(s, script, Begin(s), turns), Interleave(s, script, Begin(s), InOrder(steps)))
  {
    var steps := EnoughSteps(s, script, |s.jobs|);
    var w := Interleave(s, script, Begin(s), InOrder(steps));
    InOrderClocks(s, script, steps);
    AlwaysIndependent(s, script, InOrder(steps));
    assert w.clocks == steps;
    forall i | 0 <= i < |s.jobs| ensures w.states[i].Stopped? {
      assert AsAlone(s, script, w, i);
    }
    forall turns | Complete(Interleave(s, script, Begin(s), turns))
      ensures SameEnd(Interleave(s, script, Begin(s), turns), w)
    {
      OrderIrrelevant(s, script, turns, InOrder(steps));
    }
  }

  predicate SameEnd(v: World, w: World) {
    v.disk == w.disk && v.states == w.states
  }
}
