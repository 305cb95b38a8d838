/** Exactly when the order of a batch's jobs matters: when one job's signature is written in the way
    of a key path that does not exist, while another job has its alias check to repeat. */
module BatchOrder {
  import opened Basics
  import opened Disk
  import opened Paths
  import opened Batch
  import opened Gaps
  import opened BatchJobs
  import A = AtomicWrite

  // ---- every interleaving can be brought to an end ----------------------------------------------------

  function Rank(st: State): nat {
    match st
    case Checking => 3
    case Reading => 2
    case Writing(_) => 1
    case Stopped(_) => 0
  }

  function Rest(st: State): Prog {
    if st.Writing? then st.rest else Done(Success)
  }

  lemma {:induction false} FinishJob(s: Setting, script: Script, w: World, i: nat) returns (turns: seq<nat>)
    requires s.tree.Valid() && Fits(s, w) && i < |s.jobs|
    ensures var w' := Interleave(s, script, w, turns);
            w'.states[i].Stopped? && forall k :: 0 <= k < |s.jobs| && k != i ==> w'.states[k] == w.states[k]
    decreases Rank(w.states[i]), Rest(w.states[i])
  {
    if w.states[i].Stopped? {
      turns := [];
    } else {
      var w' := Move(s, script, w, i);
      var more := FinishJob(s, script, w', i);
      turns := [i] + more;
      assert turns[1..] == more;
    }
  }

  lemma {:induction false} StoppedForGood(s: Setting, script: Script, w: World, turns: seq<nat>, i: nat)
    requires s.tree.Valid() && Fits(s, w) && i < |s.jobs| && w.states[i].Stopped?
    ensures Interleave(s, script, w, turns).states[i] == w.states[i]
    decreases |turns|
  {
    if turns != [] { StoppedForGood(s, script, Move(s, script, w, turns[0]), turns[1..], i); }
  }

  /** The first `n` jobs are brought to their end. */
  lemma {:induction false} FinishAll(s: Setting, script: Script, w: World, n: nat) returns (turns: seq<nat>)
    requires s.tree.Valid() && Fits(s, w) && n <= |s.jobs|
    ensures forall i :: 0 <= i < n ==> Interleave(s, script, w, turns).states[i].Stopped?
  {
    if n == 0 {
      turns := [];
    } else {
      var first := FinishAll(s, script, w, n - 1);
      var mid := Interleave(s, script, w, first);
      var last := FinishJob(s, script, mid, n - 1);
      turns := first + last;
      InterleaveConcat(s, script, w, first, last);
      forall i | 0 <= i < n ensures Interleave(s, script, w, turns).states[i].Stopped? {
        if i < n - 1 { StoppedForGood(s, script, mid, last, i); }
      }
    }
  }

  // ---- a job that checks first ----------------------------------------------------------------------------

  /** The job's check has passed. */
  predicate Passed(st: State) {
    st.Reading? || st.Writing? || (st.Stopped? && !st.report.IsAlias?)
  }

  lemma {:induction false} PassedForGood(s: Setting, script: Script, w: World, turns: seq<nat>, i: nat)
    requires s.tree.Valid() && Fits(s, w) && i < |s.jobs| && Passed(w.states[i])
    ensures Passed(Interleave(s, script, w, turns).states[i])
    decreases |turns|
  {
    if turns != [] { PassedForGood(s, script, Move(s, script, w, turns[0]), turns[1..], i); }
  }

  lemma ChecksFirst(s: Setting, script: Script, i: nat) returns (turns: seq<nat>)
    requires Checked(s) && i < |s.jobs|
    ensures var w := Interleave(s, script, Begin(s), turns);
            Complete(w) && Passed(w.states[i])
  {
    PassesAtStart(s, i);
    var w := Move(s, script, Begin(s), i);
    var rest := FinishAll(s, script, w, |s.jobs|);
    turns := [i] + rest;
    assert turns[1..] == rest;
    PassedForGood(s, script, w, rest, i);
  }

  // ---- a job that writes first ----------------------------------------------------------------------------

  const OK := Answer(true, 0)

  function Granted(): Script {
    (i, n) => OK
  }

  function GrantedCalls(): nat -> Answer {
    n => OK
  }

  /** A program whose calls are all granted runs to its end. */
  lemma {:induction false} RunsThrough(s: Setting, w: World, k: nat) returns (turns: seq<nat>)
    requires s.tree.Valid() && Fits(s, w) && k < |s.jobs| && w.states[k].Writing?
    ensures var w' := Interleave(s, Granted(), w, turns);
            w'.disk == RunAll(w.states[k].rest, w.disk, 0, GrantedCalls()).0 &&
            forall i :: 0 <= i < |s.jobs| && i != k ==> w'.states[i] == w.states[i]
    decreases w.states[k].rest
  {
    var prog := w.states[k].rest;
    if prog.Done? {
      turns := [];
    } else {
      var w' := Move(s, Granted(), w, k);
      var more := RunsThrough(s, w', k);
      turns := [k] + more;
      assert turns[1..] == more;
      ClockUnseen(Next(prog, Perform(prog.op, w.disk, OK).1), w'.disk, 0, 1);
    }
  }

  lemma {:induction false} ClockUnseen(prog: Prog, disk: Disk, c: nat, d: nat)
    ensures RunAll(prog, disk, c, GrantedCalls()).0 == RunAll(prog, disk, d, GrantedCalls()).0
    ensures RunAll(prog, disk, c, GrantedCalls()).2 == RunAll(prog, disk, d, GrantedCalls()).2
    decreases prog
  {
    if prog.Do? {
      var (disk', reply) := Perform(prog.op, disk, OK);
      ClockUnseen(Next(prog, reply), disk', c + 1, d + 1);
    }
  }

  /** One granted call. */
  lemma GrantedStep(prog: Prog, disk: Disk)
    requires prog.Do? && Perform(prog.op, disk, OK).1 == Fine
    ensures RunAll(prog, disk, 0, GrantedCalls()).0 ==
              RunAll(prog.fine, Perform(prog.op, disk, OK).0, 0, GrantedCalls()).0
  {
    ClockUnseen(prog.fine, Perform(prog.op, disk, OK).0, 0, 1);
  }

  /** With every call granted, a replacement puts its file in place. */
  lemma ReplacementLands(dest: Name, tmp: Name, file: File, disk: Disk)
    requires tmp !in disk && dest != tmp
    ensures dest in RunAll(A.AtomicReplace(dest, tmp, file, false), disk, 0, GrantedCalls()).0
  {
    var prog := A.AtomicReplace(dest, tmp, file, false);
    var rename := prog.fine.fine.fine.fine;
    var d1 := disk[tmp := File(file.ino, [])];
    var d2 := Perform(prog.fine.op, d1, OK).0;
    var d3 := Perform(prog.fine.fine.op, d2, OK).0;
    GrantedStep(prog, disk);
    GrantedStep(prog.fine, d1);
    GrantedStep(prog.fine.fine, d2);
    GrantedStep(prog.fine.fine.fine, d3);
    GrantedStep(rename, d3);
    GrantedStep(rename.fine, Perform(rename.op, d3, OK).0);
  }

  lemma CreationLands(dest: Name, file: File, disk: Disk)
    requires dest !in disk
    ensures dest in RunAll(A.WriteNew(dest, file), disk, 0, GrantedCalls()).0
  {
    var prog := A.WriteNew(dest, file);
    var d1 := disk[dest := File(file.ino, [])];
    var d2 := Perform(prog.fine.op, d1, OK).0;
    GrantedStep(prog, disk);
    GrantedStep(prog.fine, d1);
    GrantedStep(prog.fine.fine, d2);
  }

  /** The missing entry is no link and no directory. */
  lemma BlockingEntry(s: Setting, k: nat)
    requires Checked(s) && k < |s.jobs| && Blocks(s, k)
    ensures KernelEntry(s.tree, s.start, SigPath(s.jobs[k])).Some?
    ensures KernelEntry(s.tree, s.start, SigPath(s.jobs[k])).value.In?
    ensures var e := KernelEntry(s.tree, s.start, SigPath(s.jobs[k])).value;
            EntryAt(s.tree, s.start, e.dir, e.name) == Missing &&
            Dest(s, k) == Ok(NameOf(s.tree, e.dir) + [e.name])
  {
    assert Apart(s, k, k);
    DefaultDestination(s.tree, s.start, s.jobs[k].message);
    var e := KernelEntry(s.tree, s.start, SigPath(s.jobs[k])).value;
    var d, n := GapEntry(s.tree, s.start, ROOT, s.key, MAX_LINKS);
    WhereDetermines(s.tree, In(d, n), e);
  }

  lemma SignatureLands(s: Setting, k: nat)
    requires Checked(s) && k < |s.jobs| && Blocks(s, k) && Signs(s, k)
    ensures var prog := WriteFile(s.jobs[k].tmp, Dest(s, k).value, Missing, Signature(s, k), s.force);
            Dest(s, k).value in RunAll(prog, s.start, 0, GrantedCalls()).0
  {
    var tmp, dest, file := s.jobs[k].tmp, Dest(s, k).value, Signature(s, k);
    GapIsNotFound(s.tree, s.start, ROOT, s.key, MAX_LINKS);
    assert New(s, k, k);
    if s.force {
      GrantedStep(WriteFile(tmp, dest, Missing, file, true), s.start);
      ReplacementLands(dest, tmp, file, s.start);
    } else {
      CreationLands(dest, file, s.start);
    }
  }

  /** Two steps from the start, a job that can sign is about to write. */
  lemma TwoSteps(s: Setting, k: nat) returns (w: World)
    requires Checked(s) && k < |s.jobs| && Blocks(s, k) && Signs(s, k)
    ensures Fits(s, w) && Interleave(s, Granted(), Begin(s), [k, k]) == w && w.disk == s.start
    ensures w.states == Begin(s).states[k :=
              Writing(WriteFile(s.jobs[k].tmp, Dest(s, k).value, Missing, Signature(s, k), s.force))]
  {
    PassesAtStart(s, k);
    BlockingEntry(s, k);
    var w1 := Move(s, Granted(), Begin(s), k);
    assert w1.states == Begin(s).states[k := Reading] && w1.disk == s.start;
    w := Move(s, Granted(), w1, k);
    assert [k, k][1..] == [k] && [k][1..] == [];
    assert Interleave(s, Granted(), w1, [k]) == Interleave(s, Granted(), w, []);
  }

  lemma WritesFirst(s: Setting, k: nat) returns (turns: seq<nat>)
    requires Checked(s) && k < |s.jobs| && Blocks(s, k) && Signs(s, k)
    ensures var w := Interleave(s, Granted(), Begin(s), turns);
            KeyGap(s).value.name in w.disk &&
            forall i :: 0 <= i < |s.jobs| && i != k ==> w.states[i].Checking?
  {
    var w := TwoSteps(s, k);
    SignatureLands(s, k);
    var rest := RunsThrough(s, w, k);
    turns := [k, k] + rest;
    InterleaveConcat(s, Granted(), Begin(s), [k, k], rest);
  }

  /** After that the other job's check finds a file where the key path goes on. */
  lemma ChecksLast(s: Setting, i: nat, k: nat) returns (turns: seq<nat>)
    requires Checked(s) && i < |s.jobs| && k < |s.jobs| && InTheWay(s, i, k)
    ensures var w := Interleave(s, Granted(), Begin(s), turns);
            Complete(w) && !Passed(w.states[i])
  {
    var first := WritesFirst(s, k);
    var w := Interleave(s, Granted(), Begin(s), first);
    InterleaveContained(s, Granted(), Begin(s), first);
    CheckPasses(s, i, w.disk);
    var w' := Move(s, Granted(), w, i);
    assert w'.states[i].Stopped? && w'.states[i].report.IsAlias?;
    var rest := FinishAll(s, Granted(), w', |s.jobs|);
    StoppedForGood(s, Granted(), w', rest, i);
    turns := first + ([i] + rest);
    InterleaveConcat(s, Granted(), Begin(s), first, [i] + rest);
    assert ([i] + rest)[1..] == rest;
  }

  // ---- the main result --------------------------------------------------------------------------------------

  /** Two orders in which all jobs end, under the same answers of the operating system to each,
      leave different files or different reports. */
  ghost predicate OrderMatters(s: Setting)
    requires s.tree.Valid()
  {
    exists script, turns, others :: EndsDiffer(s, script, turns, others)
  }

  ghost predicate EndsDiffer(s: Setting, script: Script, turns: seq<nat>, others: seq<nat>)
    requires s.tree.Valid()
  {
    var v, w := Interleave(s, script, Begin(s), turns), Interleave(s, script, Begin(s), others);
    Complete(v) && Complete(w) && !SameEnd(v, w)
  }

  /** The order of a checked batch matters exactly when the key path lacks an entry on its way, a
      job that can sign its message writes its signature there, and there is another job. */
  lemma OrderMattersIff(s: Setting)
    requires Checked(s)
    ensures OrderMatters(s) <==> !KeyClear(s)
  {
    if KeyClear(s) {
      forall script, turns, others ensures !EndsDiffer(s, script, turns, others) {
        if Complete(Interleave(s, script, Begin(s), turns)) && Complete(Interleave(s, script, Begin(s), others)) {
          OrderIrrelevant(s, script, turns, others);
        }
      }
    } else {
      var i, k :| 0 <= i < |s.jobs| && 0 <= k < |s.jobs| && InTheWay(s, i, k);
      var turns := ChecksLast(s, i, k);
      var others := ChecksFirst(s, Granted(), i);
      assert EndsDiffer(s, Granted(), turns, others);
    }
  }

  // ---- an instance ------------------------------------------------------------------------------------------

  /** The root alone. */
  const BARE := Tree(map[ROOT := DirInfo(ROOT, "", 0)], map[], map[])

  lemma BareWalk(disk: Disk, n: string, m: string)
    ensures BARE.Valid()
    ensures Canonicalize(BARE, disk, [Named(n)]) == if [n] in disk then Ok([n]) else Err(NotFound)
    ensures Canonicalize(BARE, disk, [Named(n), Named(m)]) ==
              Err(if [n] in disk then NotADirectory else NotFound)
    ensures ResolveDestination(BARE, disk, [Named(n)]) == Ok([n])
    ensures [n] !in disk ==> ResolveDestination(BARE, disk, [Named(n), Named(m)]) == Ok([n, m])
  {
    assert NameOf(BARE, ROOT) + [n] == [n];
    assert [Named(n)][1..] == [] && [Named(n), Named(m)][1..] == [Named(m)];
    assert Components([]) == [];
    assert Components([Named(m)]) == [Named(m)];
    assert Components([Named(n)]) == [Named(n)];
    assert Components([Named(n), Named(m)]) == [Named(n), Named(m)];
    assert [Named(n), Named(m)][..1] == [Named(n)] && [Named(n)][..0] == [];
    assert Canonicalize(BARE, disk, []) == Ok([]);
    assert Resolve(BARE, disk, [Named(n)]) == Ok([] + [n]);
    assert [n] + [m] == [n, m];
  }

  lemma BothKept(disk: Disk, mx: Path, my: Path)
    requires BARE.Valid() && Canonicalize(BARE, disk, mx).Ok? && Canonicalize(BARE, disk, my).Ok?
    requires Canonicalize(BARE, disk, mx) != Canonicalize(BARE, disk, my)
    ensures Deduped(BARE, disk, [mx, my], {}) == Ok([mx, my])
  {
    var n, m := Canonicalize(BARE, disk, mx).value, Canonicalize(BARE, disk, my).value;
    var seen := {} + {n};
    assert [mx, my][1..] == [my] && [my][1..] == [];
    assert Deduped(BARE, disk, [], seen + {m}) == Ok([]);
    assert [my] + [] == [my] && [mx] + [my] == [mx, my];
    assert m !in seen && Deduped(BARE, disk, [my], seen) == Ok([my]);
  }

  lemma BothUnclashed(disk: Disk, mx: Path, my: Path, key: Path)
    requires BARE.Valid()
    requires RejectOutputAlias(BARE, disk, SignaturePath(mx, None), [mx, my, key]).None?
    requires RejectOutputAlias(BARE, disk, SignaturePath(my, None), [mx, my, key]).None?
    ensures FirstClash(BARE, disk, [mx, my], None, [mx, my] + [key]).None?
  {
    var inputs := [mx, my, key];
    assert [mx, my] + [key] == inputs;
    assert [mx, my][1..] == [my] && [my][1..] == [];
    assert FirstClash(BARE, disk, [], None, inputs).None?;
    assert FirstClash(BARE, disk, [my], None, inputs).None?;
  }

  const X: Path := [Named("x")]
  const Y: Path := [Named("y")]
  const KEY: Path := [Named("x.minisig"), Named("k")]

  lemma Spelt()
    ensures SignaturePath(X, None) == [Named("x.minisig")] && SignaturePath(Y, None) == [Named("y.minisig")]
    ensures ["x"] != ["y"] && ["x"] != ["y.minisig"] && ["y"] != ["x.minisig"] && ["x"] != ["x.minisig"]
    ensures ["y"] != ["y.minisig"] && ["x.minisig"] != ["y.minisig"]
  {
    assert "x" + SUFFIX == "x.minisig" && "y" + SUFFIX == "y.minisig";
    assert "x"[0] != "y"[0] && "x.minisig"[0] != "y.minisig"[0] && |"x"| != |"x.minisig"|;
    assert ["x"][0] != ["y"][0] && ["x.minisig"][0] != ["y.minisig"][0];
    assert |["x"][0]| != |["x.minisig"][0]| && |["y"][0]| != |["y.minisig"][0]|;
    assert |["x"][0]| != |["y.minisig"][0]| && |["y"][0]| != |["x.minisig"][0]|;
  }

  lemma BareKey(start: Disk)
    requires start.Keys == {["x"], ["y"]}
    ensures BARE.Valid() && ResolveOther(BARE, start, KEY) == Ok(["x.minisig", "k"])
    ensures ResolveOther(BARE, start, X) == Ok(["x"]) && ResolveOther(BARE, start, Y) == Ok(["y"])
  {
    Spelt();
    BareWalk(start, "x", "");
    BareWalk(start, "y", "");
    BareWalk(start, "x.minisig", "k");
  }

  lemma BareClash(start: Disk, destination: Name)
    requires start.Keys == {["x"], ["y"]} && |destination| == 1
    requires destination != ["x"] && destination != ["y"]
    ensures BARE.Valid() && FirstAlias(BARE, start, destination, [X, Y, KEY]).None?
  {
    BareKey(start);
    NoAliasMeaning(BARE, start, destination, [X, Y, KEY]);
    assert |["x.minisig", "k"]| == 2;
  }

  lemma BareBatchPasses(start: Disk)
    requires start.Keys == {["x"], ["y"]}
    ensures BARE.Valid() && Prepare(BARE, start, [X, Y], KEY, None) == Ok([X, Y])
  {
    Spelt();
    BareKey(start);
    BareWalk(start, "x", "");
    BareWalk(start, "y", "");
    BareWalk(start, "x.minisig", "");
    BareWalk(start, "y.minisig", "");
    BareClash(start, ["x.minisig"]);
    BareClash(start, ["y.minisig"]);
    BothKept(start, X, Y);
    BothUnclashed(start, X, Y, KEY);
  }

  /** Two messages "x" and "y" in the root, and a key looked for at "x.minisig/k". */
  function Instance(force: bool): Setting {
    Setting(BARE, KEY, force,
            [Job(X, ["x.tmp"], 1, _ => Some([])), Job(Y, ["y.tmp"], 2, _ => Some([]))],
            map[["x"] := File(3, []), ["y"] := File(4, [])])
  }

  lemma InstanceGap(force: bool)
    ensures BARE.Valid() && KeyGap(Instance(force)) == Some(Gap(["x.minisig"], true))
  {
    assert NameOf(BARE, ROOT) + ["x.minisig"] == ["x.minisig"];
    assert "x.minisig"[1] == '.' && |"x.minisig"| != |"x"|;
    assert ["x"][0] != ["x.minisig"][0] && ["y"][0] != ["x.minisig"][0];
    assert EntryAt(BARE, Instance(force).start, ROOT, "x.minisig") == Missing;
  }

  lemma StagedNamesNew()
    ensures ["x.tmp"] !in {["x"], ["y"], ["x.minisig"], ["y.minisig"], ["y.tmp"]}
    ensures ["y.tmp"] !in {["x"], ["y"], ["x.minisig"], ["y.minisig"]}
  {
    assert |["x.tmp"][0]| == 5 && |["y.tmp"][0]| == 5 && ["x.tmp"][0][0] != ["y.tmp"][0][0];
    assert |["x"][0]| == 1 && |["y"][0]| == 1 && |["x.minisig"][0]| == 9 && |["y.minisig"][0]| == 9;
  }

  lemma InstanceNew(force: bool, i: nat, k: nat)
    requires i < 2 && k < 2
    ensures BARE.Valid() && New(Instance(force), i, k)
  {
    var s := Instance(force);
    Spelt();
    StagedNamesNew();
    InstanceGap(force);
    if k == 0 {
      BareWalk(s.start, "x", "");
      BareWalk(s.start, "x.minisig", "");
      assert Dest(s, k) == Ok(["x.minisig"]) && Input(s, k) == Ok(["x"]);
    } else {
      BareWalk(s.start, "y", "");
      BareWalk(s.start, "y.minisig", "");
      assert Dest(s, k) == Ok(["y.minisig"]) && Input(s, k) == Ok(["y"]);
    }
  }

  /** The checks of the batch pass, and its order matters. */
  lemma MissingKeyMatters(force: bool)
    ensures Checked(Instance(force)) && OrderMatters(Instance(force))
  {
    var s := Instance(force);
    BareBatchPasses(s.start);
    forall i, k | 0 <= i < 2 && 0 <= k < 2 ensures New(s, i, k) {
      InstanceNew(force, i, k);
    }
    PreparedIsChecked(s, [X, Y]);
    InstanceGap(force);
    Spelt();
    BareWalk(s.start, "x", "");
    BareWalk(s.start, "x.minisig", "");
    assert InTheWay(s, 1, 0);
    OrderMattersIff(s);
  }
}
