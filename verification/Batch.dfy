/** Signing many files (rs/src/ops/sign.rs): duplicates dropped by canonical path, the whole batch
    checked for aliases before any write, and one destination per surviving file. */
module Batch {
  import opened Basics
  import opened Disk
  import opened Paths

  const SUFFIX := ".minisig"

  /** The suffix appended to the last component as it is spelt. */
  function Suffixed(c: Comp): Comp {
    match c
    case Empty => Named(SUFFIX)
    case Cur => Named("." + SUFFIX)
    case Up => Named(".." + SUFFIX)
    case Named(n) => Named(n + SUFFIX)
  }

  /** `signature_path`: the explicit path, or the message's with the suffix. */
  function SignaturePath(message: Path, explicit: Option<Path>): Path {
    match explicit
    case Some(path) => path
    case None => if message == [] then message else message[..|message| - 1] + [Suffixed(message[|message| - 1])]
  }

  /** A path as splitting at slashes produces it: not empty, and no name is "", "." or "..". */
  predicate Split(path: Path) {
    path != [] && forall k :: 0 <= k < |path| ==> IsComp(path[k])
  }

  predicate IsComp(c: Comp) {
    c.Named? ==> c.name != "" && c.name != "." && c.name != ".."
  }

  /** Different last components stay different. */
  lemma SuffixInjective(c: Comp, d: Comp)
    requires IsComp(c) && IsComp(d)
    ensures Suffixed(c) == Suffixed(d) <==> c == d
  {
    if Suffixed(c) == Suffixed(d) {
      var x, y := Suffixed(c).name, Suffixed(d).name;
      assert x[..|x| - 8] == Stem(c) && y[..|y| - 8] == Stem(d);
    }
  }

  function Stem(c: Comp): string {
    match c
    case Empty => ""
    case Cur => "."
    case Up => ".."
    case Named(n) => n
  }

  // ---- duplicates ---------------------------------------------------------------------------------

  /** The files whose canonical names are neither in `seen` nor those of earlier files. */
  function Deduped(t: Tree, disk: Disk, files: seq<Path>, seen: set<Name>): Result<seq<Path>, WalkError>
    requires t.Valid()
  {
    if files == [] then Ok([])
    else
      match Canonicalize(t, disk, files[0])
      case Err(e) => Err(e)
      case Ok(name) =>
        if name in seen then Deduped(t, disk, files[1..], seen)
        else
          match Deduped(t, disk, files[1..], seen + {name})
          case Err(e) => Err(e)
          case Ok(rest) => Ok([files[0]] + rest)
  }

  function Prepend(done: seq<Path>, r: Result<seq<Path>, WalkError>): Result<seq<Path>, WalkError> {
    match r
    case Err(e) => Err(e)
    case Ok(rest) => Ok(done + rest)
  }

  lemma PrependNothing(r: Result<seq<Path>, WalkError>)
    ensures Prepend([], r) == r
  {
    assert r.Ok? ==> [] + r.value == r.value;
  }

  lemma DedupeStep(t: Tree, disk: Disk, files: seq<Path>, i: nat, seen: set<Name>, kept: seq<Path>)
    requires t.Valid() && i < |files|
    ensures var c, all := Canonicalize(t, disk, files[i]), Prepend(kept, Deduped(t, disk, files[i..], seen));
            if c.Err? then all == Err(c.error)
            else if c.value in seen then all == Prepend(kept, Deduped(t, disk, files[i + 1..], seen))
            else all == Prepend(kept + [files[i]], Deduped(t, disk, files[i + 1..], seen + {c.value}))
  {
    assert files[i..][1..] == files[i + 1..];
    var name := Canonicalize(t, disk, files[i]);
    if name.Ok? && name.value !in seen {
      var rest := Deduped(t, disk, files[i + 1..], seen + {name.value});
      if rest.Ok? { Regroup(kept, [files[i]], rest.value); }
    }
  }

  /** The first loop of `sign_multiple_files_with_key`. */
  method Dedupe(t: Tree, disk: Disk, files: seq<Path>) returns (r: Result<seq<Path>, WalkError>)
    requires t.Valid()
    ensures r == Deduped(t, disk, files, {})
  {
    var seen: set<Name>, kept: seq<Path> := {}, [];
    var i := 0;
    PrependNothing(Deduped(t, disk, files, {}));
    assert files[0..] == files;
    while i < |files|
      invariant i <= |files|
      invariant Deduped(t, disk, files, {}) == Prepend(kept, Deduped(t, disk, files[i..], seen))
    {
      DedupeStep(t, disk, files, i, seen, kept);
      var canonical := Canonicalize(t, disk, files[i]);
      if canonical.Err? { return Err(canonical.error); }
      if canonical.value !in seen {
        seen := seen + {canonical.value};
        kept := kept + [files[i]];
      }
      i := i + 1;
    }
    assert kept + [] == kept;
    return Ok(kept);
  }

  /** Success means that every file exists, and conversely. */
  lemma {:induction false} DedupedIffAllExist(t: Tree, disk: Disk, files: seq<Path>, seen: set<Name>)
    requires t.Valid()
    ensures Deduped(t, disk, files, seen).Ok? <==>
              forall k :: 0 <= k < |files| ==> Canonicalize(t, disk, files[k]).Ok?
  {
    if files != [] {
      var name := Canonicalize(t, disk, files[0]);
      if name.Ok? {
        DedupedIffAllExist(t, disk, files[1..], seen);
        DedupedIffAllExist(t, disk, files[1..], seen + {name.value});
        assert forall k :: 1 <= k < |files| ==> files[k] == files[1..][k - 1];
      }
    }
  }

  /** The canonical names of files that all exist. */
  function NamesOf(t: Tree, disk: Disk, files: seq<Path>): seq<Name>
    requires t.Valid() && forall k :: 0 <= k < |files| ==> Canonicalize(t, disk, files[k]).Ok?
  {
    if files == [] then [] else [Canonicalize(t, disk, files[0]).value] + NamesOf(t, disk, files[1..])
  }

  lemma {:induction false} NamesOfAt(t: Tree, disk: Disk, files: seq<Path>, k: nat)
    requires t.Valid() && forall i :: 0 <= i < |files| ==> Canonicalize(t, disk, files[i]).Ok?
    requires k < |files|
    ensures |NamesOf(t, disk, files)| == |files|
    ensures NamesOf(t, disk, files)[k] == Canonicalize(t, disk, files[k]).value
  {
    if k > 0 { NamesOfAt(t, disk, files[1..], k - 1); }
    else if |files| > 1 { NamesOfAt(t, disk, files[1..], 0); }
  }

  function NameSet(names: seq<Name>): set<Name> {
    set n | n in names
  }

  predicate Distinct(names: seq<Name>) {
    names == [] || (names[0] !in names[1..] && Distinct(names[1..]))
  }

  lemma {:induction false} DistinctAt(names: seq<Name>, i: nat, k: nat)
    requires Distinct(names) && i < k < |names|
    ensures names[i] != names[k]
  {
    if i > 0 { DistinctAt(names[1..], i - 1, k - 1); }
  }

  /** The survivors are files given, canonically distinct, and stand for all that were given. */
  lemma {:induction false} DedupedMeaning(t: Tree, disk: Disk, files: seq<Path>, seen: set<Name>)
    requires t.Valid() && Deduped(t, disk, files, seen).Ok?
    ensures forall k :: 0 <= k < |files| ==> Canonicalize(t, disk, files[k]).Ok?
    ensures var kept := Deduped(t, disk, files, seen).value;
            (forall k :: 0 <= k < |kept| ==> kept[k] in files && Canonicalize(t, disk, kept[k]).Ok?) &&
            Distinct(NamesOf(t, disk, kept)) &&
            NameSet(NamesOf(t, disk, kept)) == NameSet(NamesOf(t, disk, files)) - seen
  {
    DedupedIffAllExist(t, disk, files, seen);
    if files != [] {
      var name := Canonicalize(t, disk, files[0]).value;
      var kept := Deduped(t, disk, files, seen).value;
      assert NamesOf(t, disk, files)[1..] == NamesOf(t, disk, files[1..]);
      assert NameSet(NamesOf(t, disk, files)) == {name} + NameSet(NamesOf(t, disk, files[1..]));
      if name in seen {
        DedupedMeaning(t, disk, files[1..], seen);
      } else {
        DedupedMeaning(t, disk, files[1..], seen + {name});
        var rest := Deduped(t, disk, files[1..], seen + {name}).value;
        assert kept[0] == files[0] && kept[1..] == rest;
        forall k | 0 <= k < |kept| ensures kept[k] in files && Canonicalize(t, disk, kept[k]).Ok? {
          if k > 0 { assert kept[k] == rest[k - 1]; }
        }
        assert NamesOf(t, disk, kept) == [name] + NamesOf(t, disk, rest);
        assert name !in NameSet(NamesOf(t, disk, rest));
        assert NameSet(NamesOf(t, disk, kept)) == {name} + NameSet(NamesOf(t, disk, rest));
      }
    }
  }

  // ---- the checks before any write ------------------------------------------------------------------

  datatype BatchError = Unreadable(error: WalkError) | Usage | Alias(alias: AliasError)

  function FirstClash(t: Tree, disk: Disk, files: seq<Path>, explicit: Option<Path>, inputs: seq<Path>)
    : Option<AliasError>
    requires t.Valid()
  {
    if files == [] then None
    else
      match RejectOutputAlias(t, disk, SignaturePath(files[0], explicit), inputs)
      case Some(e) => Some(e)
      case None => FirstClash(t, disk, files[1..], explicit, inputs)
  }

  lemma {:induction false} NoClash(
      t: Tree, disk: Disk, files: seq<Path>, explicit: Option<Path>, inputs: seq<Path>, k: nat)
    requires t.Valid() && FirstClash(t, disk, files, explicit, inputs).None? && k < |files|
    ensures RejectOutputAlias(t, disk, SignaturePath(files[k], explicit), inputs).None?
  {
    if k > 0 { NoClash(t, disk, files[1..], explicit, inputs, k - 1); }
  }

  /** What `sign_multiple_files_with_key` does before it signs: the files to sign, or the error. */
  function Prepare(t: Tree, disk: Disk, files: seq<Path>, key: Path, explicit: Option<Path>)
    : Result<seq<Path>, BatchError>
    requires t.Valid()
  {
    match Deduped(t, disk, files, {})
    case Err(e) => Err(Unreadable(e))
    case Ok(kept) =>
      if |kept| > 1 && explicit.Some? then Err(Usage)
      else
        match FirstClash(t, disk, kept, explicit, kept + [key])
        case Some(e) => Err(Alias(e))
        case None => Ok(kept)
  }

  /** A file whose signature goes to no input. */
  predicate GoesApart(t: Tree, disk: Disk, file: Path, explicit: Option<Path>, inputs: seq<Path>)
    requires t.Valid()
  {
    var d := ResolveDestination(t, disk, SignaturePath(file, explicit));
    d.Ok? && forall k :: 0 <= k < |inputs| ==> ResolveOther(t, disk, inputs[k]).Ok? && ResolveOther(t, disk, inputs[k]) != d
  }

  lemma {:induction false} NoClashIff(t: Tree, disk: Disk, files: seq<Path>, explicit: Option<Path>, inputs: seq<Path>)
    requires t.Valid()
    ensures FirstClash(t, disk, files, explicit, inputs).None? <==>
              forall i :: 0 <= i < |files| ==> GoesApart(t, disk, files[i], explicit, inputs)
  {
    if files != [] {
      var d := ResolveDestination(t, disk, SignaturePath(files[0], explicit));
      if d.Ok? { NoAliasMeaning(t, disk, d.value, inputs); }
      NoClashIff(t, disk, files[1..], explicit, inputs);
      assert forall i :: 1 <= i < |files| ==> files[i] == files[1..][i - 1];
    }
  }

  predicate AllExist(t: Tree, disk: Disk, files: seq<Path>)
    requires t.Valid()
  {
    forall k :: 0 <= k < |files| ==> Canonicalize(t, disk, files[k]).Ok?
  }

  /** Two of the files are not the same file. */
  predicate SeveralFiles(t: Tree, disk: Disk, files: seq<Path>)
    requires t.Valid()
  {
    exists i, k :: 0 <= i < |files| && 0 <= k < |files| && Canonicalize(t, disk, files[i]) != Canonicalize(t, disk, files[k])
  }

  lemma {:induction false} NamesOfLength(t: Tree, disk: Disk, files: seq<Path>)
    requires t.Valid() && AllExist(t, disk, files)
    ensures |NamesOf(t, disk, files)| == |files|
  {
    if files != [] { NamesOfLength(t, disk, files[1..]); }
  }

  lemma TwoNames(t: Tree, disk: Disk, files: seq<Path>, n: Name, m: Name)
    requires t.Valid() && AllExist(t, disk, files) && n != m
    requires n in NamesOf(t, disk, files) && m in NamesOf(t, disk, files)
    ensures |files| > 1
  {
    NamesOfLength(t, disk, files);
  }

  lemma SeveralSurvive(t: Tree, disk: Disk, files: seq<Path>)
    requires t.Valid() && AllExist(t, disk, files)
    ensures Deduped(t, disk, files, {}).Ok?
    ensures |Deduped(t, disk, files, {}).value| > 1 <==> SeveralFiles(t, disk, files)
  {
    DedupedIffAllExist(t, disk, files, {});
    DedupedMeaning(t, disk, files, {});
    var kept := Deduped(t, disk, files, {}).value;
    if |kept| > 1 {
      NamesOfAt(t, disk, kept, 0);
      NamesOfAt(t, disk, kept, 1);
      DistinctAt(NamesOf(t, disk, kept), 0, 1);
      var i :| 0 <= i < |files| && files[i] == kept[0];
      var k :| 0 <= k < |files| && files[k] == kept[1];
    }
    if i, k :| 0 <= i < |files| && 0 <= k < |files| && Canonicalize(t, disk, files[i]) != Canonicalize(t, disk, files[k]) {
      NamesOfAt(t, disk, files, i);
      NamesOfAt(t, disk, files, k);
      var n, m := Canonicalize(t, disk, files[i]).value, Canonicalize(t, disk, files[k]).value;
      assert n in NameSet(NamesOf(t, disk, files)) && m in NameSet(NamesOf(t, disk, files));
      assert n in NameSet(NamesOf(t, disk, kept)) && m in NameSet(NamesOf(t, disk, kept));
      TwoNames(t, disk, kept, n, m);
    }
  }

  /** Exactly what stops a batch before it signs: a file that does not exist; several files with one
      explicit signature path; a signature that would go to an input or the key, or whose path or
      whose inputs' cannot be resolved. */
  lemma PrepareIff(t: Tree, disk: Disk, files: seq<Path>, key: Path, explicit: Option<Path>)
    requires t.Valid()
    ensures var r := Prepare(t, disk, files, key, explicit);
            ((r.Err? && r.error.Unreadable?) <==> !AllExist(t, disk, files)) &&
            (r == Err(Usage) <==> AllExist(t, disk, files) && SeveralFiles(t, disk, files) && explicit.Some?) &&
            (r.Ok? ==> Deduped(t, disk, files, {}) == Ok(r.value)) &&
            (r.Ok? <==>
               AllExist(t, disk, files) && !(SeveralFiles(t, disk, files) && explicit.Some?) &&
               var kept := Deduped(t, disk, files, {}).value;
               forall i :: 0 <= i < |kept| ==> GoesApart(t, disk, kept[i], explicit, kept + [key]))
  {
    DedupedIffAllExist(t, disk, files, {});
    if AllExist(t, disk, files) {
      SeveralSurvive(t, disk, files);
      var kept := Deduped(t, disk, files, {}).value;
      NoClashIff(t, disk, kept, explicit, kept + [key]);
    }
  }

  /** The entry a message's signature goes to. */
  function Destination(t: Tree, disk: Disk, message: Path, explicit: Option<Path>): Result<Name, WalkError>
    requires t.Valid()
  {
    ResolveDestination(t, disk, SignaturePath(message, explicit))
  }

  /** A message that exists is in a directory that exists, and so is the name with the suffix. */
  lemma DefaultDestination(t: Tree, disk: Disk, message: Path)
    requires t.Valid() && Split(message) && Canonicalize(t, disk, message).Ok?
    ensures var init, last := message[..|message| - 1], message[|message| - 1];
            var w := Walk(t, disk, ROOT, init, MAX_LINKS);
            var sig := SignaturePath(message, None);
            w.Arrived? && w.place.AtDir? &&
            KernelEntry(t, disk, sig) == Some(In(w.place.dir, Suffixed(last).name)) &&
            Destination(t, disk, message, None) == Ok(NameOf(t, w.place.dir) + [Suffixed(last).name]) &&
            Walk(t, disk, ROOT, message, MAX_LINKS) == Walk(t, disk, w.place.dir, [last], w.fuel)
  {
    ParentOfArrived(t, disk, message);
    var sig := SignaturePath(message, None);
    assert sig[..|sig| - 1] == message[..|message| - 1];
    ResolvesToEntry(t, disk, sig);
  }

  /** Two messages with one default destination are the same file. */
  lemma SameDestination(t: Tree, disk: Disk, m: Path, n: Path)
    requires t.Valid() && Split(m) && Split(n)
    requires Canonicalize(t, disk, m).Ok? && Canonicalize(t, disk, n).Ok?
    requires Destination(t, disk, m, None) == Destination(t, disk, n, None)
    ensures Canonicalize(t, disk, m) == Canonicalize(t, disk, n)
  {
    DefaultDestination(t, disk, m);
    DefaultDestination(t, disk, n);
    var c, d := m[|m| - 1], n[|n| - 1];
    var v, w := Walk(t, disk, ROOT, m[..|m| - 1], MAX_LINKS), Walk(t, disk, ROOT, n[..|n| - 1], MAX_LINKS);
    WhereDetermines(t, In(v.place.dir, Suffixed(c).name), In(w.place.dir, Suffixed(d).name));
    SuffixInjective(c, d);
    SamePlace(t, disk, v.place.dir, [c], v.fuel, w.fuel);
  }

  /** What the checks establish: every destination is known, no two files share one, and none is
      an input file or the key. */
  lemma PreparedApart(t: Tree, disk: Disk, files: seq<Path>, key: Path, explicit: Option<Path>, i: nat, k: nat)
    requires t.Valid() && forall f :: 0 <= f < |files| ==> Split(files[f])
    requires Prepare(t, disk, files, key, explicit).Ok?
    requires var kept := Prepare(t, disk, files, key, explicit).value; i < |kept| && k < |kept|
    ensures var kept := Prepare(t, disk, files, key, explicit).value;
            Split(kept[i]) &&
            Canonicalize(t, disk, kept[k]).Ok? && ResolveOther(t, disk, key).Ok? &&
            Destination(t, disk, kept[i], explicit).Ok? &&
            Destination(t, disk, kept[i], explicit).value != Canonicalize(t, disk, kept[k]).value &&
            Destination(t, disk, kept[i], explicit).value != ResolveOther(t, disk, key).value &&
            (i != k ==> Destination(t, disk, kept[i], explicit) != Destination(t, disk, kept[k], explicit)) &&
            (explicit.Some? ==> |kept| == 1)
  {
    var kept := Prepare(t, disk, files, key, explicit).value;
    DedupedMeaning(t, disk, files, {});
    NoClash(t, disk, kept, explicit, kept + [key], i);
    NoAliasMeaning(t, disk, Destination(t, disk, kept[i], explicit).value, kept + [key]);
    assert (kept + [key])[k] == kept[k] && (kept + [key])[|kept|] == key;
    if i != k && Destination(t, disk, kept[i], explicit) == Destination(t, disk, kept[k], explicit) {
      assert explicit == None;
      SameDestination(t, disk, kept[i], kept[k]);
      NamesOfAt(t, disk, kept, i);
      NamesOfAt(t, disk, kept, k);
      DistinctAt(NamesOf(t, disk, kept), if i < k then i else k, if i < k then k else i);
    }
  }
}
