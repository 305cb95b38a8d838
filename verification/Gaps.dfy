/** Where a walk stops for want of an entry, and what files that come to be can make of it. A path
    that is missing resolves as before until its own missing entry appears. */
module Gaps {
  import opened Basics
  import opened Disk
  import opened Paths

  /** The entry at which a walk finds nothing, and whether the path goes on there. */
  datatype Gap = Gap(name: Name, more: bool)

  function GapOf(t: Tree, disk: Disk, d: Dir, path: Path, fuel: nat): Option<Gap>
    requires t.Valid() && d in t.dirs
    decreases fuel, |path|
  {
    if path == [] then None
    else
      match path[0]
      case Empty => GapOf(t, disk, d, path[1..], fuel)
      case Cur => GapOf(t, disk, d, path[1..], fuel)
      case Up => GapOf(t, disk, t.Parent(d), path[1..], fuel)
      case Named(n) =>
        match EntryAt(t, disk, d, n)
        case Missing => Some(Gap(NameOf(t, d) + [n], path[1..] != []))
        case SubDir(sub) => GapOf(t, disk, sub, path[1..], fuel)
        case Regular => None
        case SymLink(target) =>
          if fuel == 0 then None
          else GapOf(t, disk, if target.absolute then ROOT else d, target.path + path[1..], fuel - 1)
  }

  /** A walk has a gap exactly when it is stuck on something missing. */
  lemma {:induction false} GapIsNotFound(t: Tree, disk: Disk, d: Dir, path: Path, fuel: nat)
    requires t.Valid() && d in t.dirs
    ensures GapOf(t, disk, d, path, fuel).Some? <==> Walk(t, disk, d, path, fuel) == Stuck(NotFound)
    ensures GapOf(t, disk, d, path, fuel).Some? ==> GapOf(t, disk, d, path, fuel).value.name !in disk
    decreases fuel, |path|
  {
    if path != [] {
      var rest := path[1..];
      match path[0]
      case Empty => GapIsNotFound(t, disk, d, rest, fuel);
      case Cur => GapIsNotFound(t, disk, d, rest, fuel);
      case Up => GapIsNotFound(t, disk, t.Parent(d), rest, fuel);
      case Named(n) =>
        match EntryAt(t, disk, d, n)
        case Missing =>
        case SubDir(sub) => GapIsNotFound(t, disk, sub, rest, fuel);
        case Regular =>
        case SymLink(target) =>
          if fuel > 0 {
            GapIsNotFound(t, disk, if target.absolute then ROOT else d, target.path + rest, fuel - 1);
          }
    }
  }

  /** The missing entry itself. */
  lemma {:induction false} GapEntry(t: Tree, disk: Disk, d: Dir, path: Path, fuel: nat) returns (x: Dir, n: string)
    requires t.Valid() && d in t.dirs && GapOf(t, disk, d, path, fuel).Some?
    ensures x in t.dirs && EntryAt(t, disk, x, n) == Missing
    ensures GapOf(t, disk, d, path, fuel).value.name == NameOf(t, x) + [n]
    decreases fuel, |path|
  {
    var rest := path[1..];
    match path[0]
    case Empty => x, n := GapEntry(t, disk, d, rest, fuel);
    case Cur => x, n := GapEntry(t, disk, d, rest, fuel);
    case Up => x, n := GapEntry(t, disk, t.Parent(d), rest, fuel);
    case Named(m) =>
      match EntryAt(t, disk, d, m)
      case Missing => x, n := d, m;
      case SubDir(sub) => x, n := GapEntry(t, disk, sub, rest, fuel);
      case Regular =>
        assert false;
        x, n := d, m;
      case SymLink(target) =>
        x, n := GapEntry(t, disk, if target.absolute then ROOT else d, target.path + rest, fuel - 1);
  }

  /** What a walk with a gap makes of later files: the same until the missing entry is there;
      then it arrives at the new file, or is stuck on it if the path goes on. */
  lemma {:induction false} GapLater(t: Tree, disk: Disk, later: Disk, d: Dir, path: Path, fuel: nat)
    requires t.Valid() && d in t.dirs && disk.Keys <= later.Keys
    requires GapOf(t, disk, d, path, fuel).Some?
    ensures var g := GapOf(t, disk, d, path, fuel).value;
            var w := Walk(t, later, d, path, fuel);
            if g.name !in later then w == Stuck(NotFound) && GapOf(t, later, d, path, fuel) == Some(g)
            else if g.more then w == Stuck(NotADirectory)
            else w.Arrived? && PlaceName(t, w.place) == g.name
    decreases fuel, |path|
  {
    var rest := path[1..];
    match path[0]
    case Empty => GapLater(t, disk, later, d, rest, fuel);
    case Cur => GapLater(t, disk, later, d, rest, fuel);
    case Up => GapLater(t, disk, later, t.Parent(d), rest, fuel);
    case Named(n) =>
      match EntryAt(t, disk, d, n)
      case Missing =>
      case SubDir(sub) => GapLater(t, disk, later, sub, rest, fuel);
      case Regular =>
      case SymLink(target) =>
        GapLater(t, disk, later, if target.absolute then ROOT else d, target.path + rest, fuel - 1);
  }

  /** The gap of a longer path is that of the part that has one. */
  lemma {:induction false} GapConcat(t: Tree, disk: Disk, d: Dir, a: Path, b: Path, fuel: nat)
    requires t.Valid() && d in t.dirs
    ensures match Walk(t, disk, d, a, fuel)
            case Arrived(AtDir(x), left) => GapOf(t, disk, d, a + b, fuel) == GapOf(t, disk, x, b, left)
            case Arrived(AtFile(_, _), _) => GapOf(t, disk, d, a + b, fuel) == None
            case Stuck(_) =>
              GapOf(t, disk, d, a + b, fuel) ==
                match GapOf(t, disk, d, a, fuel)
                case None => None
                case Some(g) => Some(Gap(g.name, g.more || b != []))
    decreases fuel, |a|
  {
    if a == [] {
      assert a + b == b;
    } else {
      var rest := a[1..];
      assert (a + b)[1..] == rest + b;
      match a[0]
      case Empty => GapConcat(t, disk, d, rest, b, fuel);
      case Cur => GapConcat(t, disk, d, rest, b, fuel);
      case Up => GapConcat(t, disk, t.Parent(d), rest, b, fuel);
      case Named(n) =>
        match EntryAt(t, disk, d, n)
        case Missing =>
        case SubDir(sub) => GapConcat(t, disk, sub, rest, b, fuel);
        case Regular =>
        case SymLink(target) =>
          if fuel > 0 {
            GapConcat(t, disk, if target.absolute then ROOT else d, target.path + rest, b, fuel - 1);
            Regroup(target.path, rest, b);
          }
    }
  }

  /** Dots make no difference to which entry is missing. */
  lemma {:induction false} GapWithoutDots(t: Tree, disk: Disk, d: Dir, path: Path, fuel: nat)
    requires t.Valid() && d in t.dirs && GapOf(t, disk, d, path, fuel).Some?
    ensures GapOf(t, disk, d, Components(path), fuel).Some?
    ensures GapOf(t, disk, d, Components(path), fuel).value.name == GapOf(t, disk, d, path, fuel).value.name
    decreases fuel, |path|
  {
    var rest := path[1..];
    assert path[0] != Empty && path[0] != Cur ==> Components(path)[1..] == Components(rest);
    match path[0]
    case Empty => GapWithoutDots(t, disk, d, rest, fuel);
    case Cur => GapWithoutDots(t, disk, d, rest, fuel);
    case Up => GapWithoutDots(t, disk, t.Parent(d), rest, fuel);
    case Named(n) =>
      match EntryAt(t, disk, d, n)
      case Missing =>
      case SubDir(sub) => GapWithoutDots(t, disk, sub, rest, fuel);
      case Regular =>
      case SymLink(target) =>
        LinkGapWithoutDots(t, disk, if target.absolute then ROOT else d, target.path, rest, fuel - 1);
  }

  lemma {:induction false} LinkGapWithoutDots(t: Tree, disk: Disk, d: Dir, target: Path, rest: Path, fuel: nat)
    requires t.Valid() && d in t.dirs && GapOf(t, disk, d, target + rest, fuel).Some?
    ensures GapOf(t, disk, d, target + Components(rest), fuel).Some?
    ensures GapOf(t, disk, d, target + Components(rest), fuel).value.name ==
              GapOf(t, disk, d, target + rest, fuel).value.name
    decreases fuel, |rest| + 1
  {
    GapConcat(t, disk, d, target, rest, fuel);
    GapConcat(t, disk, d, target, Components(rest), fuel);
    var w := Walk(t, disk, d, target, fuel);
    if w.Arrived? {
      GapWithoutDots(t, disk, w.place.dir, rest, w.fuel);
    }
  }

  // ---- resolution of a missing path ----------------------------------------------------------------

  /** The resolution of a path that is missing does not change until its missing entry appears. */
  lemma {:induction false} ResolveStable(t: Tree, disk: Disk, later: Disk, path: Path)
    requires t.Valid() && disk.Keys <= later.Keys
    requires GapOf(t, disk, ROOT, path, MAX_LINKS).Some?
    requires GapOf(t, disk, ROOT, path, MAX_LINKS).value.name !in later
    ensures Resolve(t, later, path) == Resolve(t, disk, path)
  {
    var init, last := path[..|path| - 1], [path[|path| - 1]];
    assert init + last == path;
    GapConcat(t, disk, ROOT, init, last, MAX_LINKS);
    GapIsNotFound(t, disk, ROOT, init, MAX_LINKS);
    if Walk(t, disk, ROOT, init, MAX_LINKS).Arrived? {
      WalkStable(t, disk, later, ROOT, init, MAX_LINKS);
    } else {
      GapLater(t, disk, later, ROOT, init, MAX_LINKS);
      ResolveStable(t, disk, later, init);
    }
  }

  /** The gap of a path as the alias check walks it. */
  function PathGap(t: Tree, disk: Disk, path: Path): Option<Gap>
    requires t.Valid()
  {
    GapOf(t, disk, ROOT, path, MAX_LINKS)
  }

  /** What the alias check compares a path by, once other files have come to be. A path that
      existed: as before. A missing one: as before until its missing entry appears; then the new
      file itself, or an error if the path goes on. */
  lemma OtherLater(t: Tree, disk: Disk, later: Disk, path: Path)
    requires t.Valid() && disk.Keys <= later.Keys && ResolveOther(t, disk, path).Ok?
    ensures var g := PathGap(t, disk, path);
            if g.None? || g.value.name !in later then ResolveOther(t, later, path) == ResolveOther(t, disk, path)
            else if g.value.more then ResolveOther(t, later, path) == Err(NotADirectory)
            else ResolveOther(t, later, path) == Ok(g.value.name)
    ensures PathGap(t, disk, path).None? <==> Canonicalize(t, disk, path).Ok?
  {
    GapIsNotFound(t, disk, ROOT, path, MAX_LINKS);
    if PathGap(t, disk, path).None? {
      WalkStable(t, disk, later, ROOT, path, MAX_LINKS);
    } else {
      GapLater(t, disk, later, ROOT, path, MAX_LINKS);
      GapWithoutDots(t, disk, ROOT, path, MAX_LINKS);
      if PathGap(t, disk, path).value.name !in later {
        ResolveStable(t, disk, later, Components(path));
      }
    }
  }
}
