/** Path resolution (`resolve_destination` and `reject_output_alias` of rs/src/ops/file_utils.rs)
    against the kernel's walk through directories and symbolic links.

    Directories and links are fixed; the regular files are a `Disk`, keyed by the canonical name of
    their entry. A path is absolute: what follows its leading slash, split at slashes. */
module Paths {
  import opened Basics
  import opened Disk

  datatype Comp = Empty | Cur | Up | Named(name: string)

  type Path = seq<Comp>

  /** A directory, by its inode. */
  type Dir = nat

  const ROOT: Dir := 0

  datatype DirInfo = DirInfo(parent: Dir, name: string, depth: nat)

  datatype Target = Target(absolute: bool, path: Path)

  /** The directories, with the way up and down, and the symbolic links, by the entry they are. */
  datatype Tree = Tree(
    dirs: map<Dir, DirInfo>, subdirs: map<(Dir, string), Dir>, links: map<(Dir, string), Target>)
  {
    /** Every directory but the root is the entry of its parent that bears its name, and no other. */
    ghost predicate Valid() {
      ROOT in dirs && dirs[ROOT].parent == ROOT && dirs[ROOT].depth == 0 &&
      (forall d :: d in dirs && d != ROOT ==>
         var i := dirs[d];
         i.parent in dirs && i.depth == dirs[i.parent].depth + 1 &&
         (i.parent, i.name) in subdirs && subdirs[(i.parent, i.name)] == d) &&
      (forall e :: e in subdirs ==>
         subdirs[e] in dirs && subdirs[e] != ROOT &&
         dirs[subdirs[e]].parent == e.0 && dirs[subdirs[e]].name == e.1) &&
      links.Keys !! subdirs.Keys
    }

    function Parent(d: Dir): (p: Dir)
      requires Valid() && d in dirs
      ensures p in dirs
    {
      dirs[d].parent
    }
  }

  /** The canonical name of a directory: the names on the way down from the root. */
  function NameOf(t: Tree, d: Dir): Name
    requires t.Valid() && d in t.dirs
    decreases t.dirs[d].depth
  {
    if d == ROOT then [] else NameOf(t, t.Parent(d)) + [t.dirs[d].name]
  }

  // ---- the kernel's walk --------------------------------------------------------------------------

  datatype Entry = Missing | SubDir(dir: Dir) | SymLink(target: Target) | Regular

  function EntryAt(t: Tree, disk: Disk, d: Dir, n: string): Entry
    requires t.Valid() && d in t.dirs
  {
    if (d, n) in t.subdirs then SubDir(t.subdirs[(d, n)])
    else if (d, n) in t.links then SymLink(t.links[(d, n)])
    else if NameOf(t, d) + [n] in disk then Regular
    else Missing
  }

  datatype Place = AtDir(dir: Dir) | AtFile(dir: Dir, name: string)

  datatype WalkError = NotFound | NotADirectory | TooManyLinks

  /** Where a walk ends, and how many more links it may follow. */
  datatype Walked = Arrived(place: Place, fuel: nat) | Stuck(error: WalkError)

  function Walk(t: Tree, disk: Disk, d: Dir, path: Path, fuel: nat): (w: Walked)
    requires t.Valid() && d in t.dirs
    ensures w.Arrived? ==> w.place.dir in t.dirs && w.fuel <= fuel
    decreases fuel, |path|
  {
    if path == [] then Arrived(AtDir(d), fuel)
    else
      match path[0]
      case Empty => Walk(t, disk, d, path[1..], fuel)
      case Cur => Walk(t, disk, d, path[1..], fuel)
      case Up => Walk(t, disk, t.Parent(d), path[1..], fuel)
      case Named(n) =>
        match EntryAt(t, disk, d, n)
        case Missing => Stuck(NotFound)
        case SubDir(sub) => Walk(t, disk, sub, path[1..], fuel)
        case Regular => if path[1..] == [] then Arrived(AtFile(d, n), fuel) else Stuck(NotADirectory)
        case SymLink(target) =>
          if fuel == 0 then Stuck(TooManyLinks)
          else Walk(t, disk, if target.absolute then ROOT else d, target.path + path[1..], fuel - 1)
  }

  const MAX_LINKS := 40

  function PlaceName(t: Tree, p: Place): Name
    requires t.Valid() && p.dir in t.dirs
  {
    match p
    case AtDir(d) => NameOf(t, d)
    case AtFile(d, n) => NameOf(t, d) + [n]
  }

  /** `canonicalize`: the name of the place a path leads to, links followed. */
  function Canonicalize(t: Tree, disk: Disk, path: Path): Result<Name, WalkError>
    requires t.Valid()
  {
    match Walk(t, disk, ROOT, path, MAX_LINKS)
    case Arrived(p, _) => Ok(PlaceName(t, p))
    case Stuck(e) => Err(e)
  }

  // ---- what the Rust code computes ------------------------------------------------------------------

  /** `Path::components`: empty components and dots are dropped. */
  function Components(path: Path): (r: Path)
    ensures forall k :: 0 <= k < |r| ==> r[k] != Empty && r[k] != Cur
    ensures |r| <= |path|
  {
    if path == [] then []
    else if path[0] == Empty || path[0] == Cur then Components(path[1..])
    else [path[0]] + Components(path[1..])
  }

  /** One component applied to a name. */
  function Apply(name: Name, c: Comp): Name {
    match c
    case Up => if name == [] then name else name[..|name| - 1]
    case Named(n) => name + [n]
    case _ => name
  }

  /** The inner recursion of `resolve_destination`, on components. */
  function Resolve(t: Tree, disk: Disk, path: Path): Result<Name, WalkError>
    requires t.Valid()
  {
    if path == [] then Ok([])
    else
      var init, last := path[..|path| - 1], path[|path| - 1];
      var parent := match Canonicalize(t, disk, init)
        case Ok(name) => Ok(name)
        case Err(NotFound) => Resolve(t, disk, init)
        case Err(e) => Err(e);
      match parent
      case Err(e) => Err(e)
      case Ok(name) => Ok(Apply(name, last))
  }

  function ResolveDestination(t: Tree, disk: Disk, path: Path): Result<Name, WalkError>
    requires t.Valid()
  {
    Resolve(t, disk, Components(path))
  }

  datatype AliasError = Aliased | Unresolved(error: WalkError)

  /** What another path is compared by: the file it leads to, or the entry it would be. */
  function ResolveOther(t: Tree, disk: Disk, path: Path): Result<Name, WalkError>
    requires t.Valid()
  {
    match Canonicalize(t, disk, path)
    case Ok(name) => Ok(name)
    case Err(NotFound) => ResolveDestination(t, disk, path)
    case Err(e) => Err(e)
  }

  /** `reject_output_alias`: no error, or the first. */
  function RejectOutputAlias(t: Tree, disk: Disk, output: Path, others: seq<Path>): Option<AliasError>
    requires t.Valid()
  {
    match ResolveDestination(t, disk, output)
    case Err(e) => Some(Unresolved(e))
    case Ok(destination) => FirstAlias(t, disk, destination, others)
  }

  function FirstAlias(t: Tree, disk: Disk, destination: Name, others: seq<Path>): Option<AliasError>
    requires t.Valid()
  {
    if others == [] then None
    else
      match ResolveOther(t, disk, others[0])
      case Err(e) => Some(Unresolved(e))
      case Ok(name) => if name == destination then Some(Aliased) else FirstAlias(t, disk, destination, others[1..])
  }

  /** No error exactly when everything resolves and nothing resolves to the destination. */
  lemma {:induction false} NoAliasMeaning(t: Tree, disk: Disk, destination: Name, others: seq<Path>)
    requires t.Valid()
    ensures FirstAlias(t, disk, destination, others).None? <==>
              forall k :: 0 <= k < |others| ==>
                ResolveOther(t, disk, others[k]).Ok? && ResolveOther(t, disk, others[k]).value != destination
  {
    if others != [] {
      NoAliasMeaning(t, disk, destination, others[1..]);
      assert forall k :: 1 <= k < |others| ==> others[k] == others[1..][k - 1];
    }
  }

  /** Everything before the `k`-th path resolves, and not to the destination. */
  predicate ApartBefore(t: Tree, disk: Disk, destination: Name, others: seq<Path>, k: nat)
    requires t.Valid() && k <= |others|
  {
    forall j :: 0 <= j < k ==>
      ResolveOther(t, disk, others[j]).Ok? && ResolveOther(t, disk, others[j]).value != destination
  }

  /** Which error it is otherwise: that of the first path that resolves to the destination or not at
      all. */
  lemma {:induction false} FirstAliasMeaning(t: Tree, disk: Disk, destination: Name, others: seq<Path>)
    requires t.Valid() && FirstAlias(t, disk, destination, others).Some?
    ensures exists k: nat :: k < |others| && ApartBefore(t, disk, destination, others, k) &&
              match ResolveOther(t, disk, others[k])
              case Ok(name) => name == destination && FirstAlias(t, disk, destination, others) == Some(Aliased)
              case Err(e) => FirstAlias(t, disk, destination, others) == Some(Unresolved(e))
  {
    var first := ResolveOther(t, disk, others[0]);
    if first.Err? || first.value == destination {
      assert ApartBefore(t, disk, destination, others, 0);
    } else {
      FirstAliasMeaning(t, disk, destination, others[1..]);
      var k: nat :| k < |others[1..]| && ApartBefore(t, disk, destination, others[1..], k) &&
        match ResolveOther(t, disk, others[1..][k])
        case Ok(name) => name == destination && FirstAlias(t, disk, destination, others[1..]) == Some(Aliased)
        case Err(e) => FirstAlias(t, disk, destination, others[1..]) == Some(Unresolved(e));
      assert others[1..][k] == others[k + 1];
      forall j | 0 <= j < k + 1
        ensures ResolveOther(t, disk, others[j]).Ok? && ResolveOther(t, disk, others[j]).value != destination
      {
        if j > 0 { assert others[1..][j - 1] == others[j]; }
      }
      assert ApartBefore(t, disk, destination, others, k + 1);
    }
  }

  // ---- names are identities -------------------------------------------------------------------------

  /** Different directories have different names. */
  lemma {:induction false} NameDetermines(t: Tree, d: Dir, e: Dir)
    requires t.Valid() && d in t.dirs && e in t.dirs
    ensures NameOf(t, d) == NameOf(t, e) <==> d == e
    decreases t.dirs[d].depth
  {
    if NameOf(t, d) == NameOf(t, e) && d != ROOT && e != ROOT {
      var x, y := NameOf(t, d), NameOf(t, e);
      assert x[..|x| - 1] == NameOf(t, t.Parent(d)) && y[..|y| - 1] == NameOf(t, t.Parent(e));
      assert x[|x| - 1] == t.dirs[d].name && y[|y| - 1] == t.dirs[e].name;
      NameDetermines(t, t.Parent(d), t.Parent(e));
    }
  }

  /** A directory entry: a name in a directory. The root is in none. */
  datatype Where = TheRoot | In(dir: Dir, name: string)

  function WhereName(t: Tree, w: Where): Name
    requires t.Valid() && (w.In? ==> w.dir in t.dirs)
  {
    match w
    case TheRoot => []
    case In(d, n) => NameOf(t, d) + [n]
  }

  lemma WhereDetermines(t: Tree, v: Where, w: Where)
    requires t.Valid() && (v.In? ==> v.dir in t.dirs) && (w.In? ==> w.dir in t.dirs)
    ensures WhereName(t, v) == WhereName(t, w) <==> v == w
  {
    if v.In? && w.In? && WhereName(t, v) == WhereName(t, w) {
      var x, y := WhereName(t, v), WhereName(t, w);
      assert x[..|x| - 1] == NameOf(t, v.dir) && y[..|y| - 1] == NameOf(t, w.dir);
      assert x[|x| - 1] == v.name && y[|y| - 1] == w.name;
      NameDetermines(t, v.dir, w.dir);
    }
  }

  function EntryOfDir(t: Tree, d: Dir): Where
    requires t.Valid() && d in t.dirs
  {
    if d == ROOT then TheRoot else In(t.Parent(d), t.dirs[d].name)
  }

  /** The entry the kernel creates, replaces or removes under a path: the walk leads to the
      directory, and a final name is not followed. */
  function KernelEntry(t: Tree, disk: Disk, path: Path): (w: Option<Where>)
    requires t.Valid()
    ensures w.Some? && w.value.In? ==> w.value.dir in t.dirs
  {
    if path == [] then Some(TheRoot)
    else
      var init, last := path[..|path| - 1], path[|path| - 1];
      match Walk(t, disk, ROOT, init, MAX_LINKS)
      case Stuck(_) => None
      case Arrived(AtFile(_, _), _) => None
      case Arrived(AtDir(d), _) =>
        match last
        case Named(n) => Some(In(d, n))
        case Up => Some(EntryOfDir(t, t.Parent(d)))
        case _ => Some(EntryOfDir(t, d))
  }

  // ---- walks ----------------------------------------------------------------------------------------

  /** A walk that goes on: where the first part of a path leads decides, with the rest. */
  lemma {:induction false} WalkConcat(t: Tree, disk: Disk, d: Dir, a: Path, b: Path, fuel: nat)
    requires t.Valid() && d in t.dirs
    ensures Walk(t, disk, d, a + b, fuel) ==
              match Walk(t, disk, d, a, fuel)
              case Stuck(e) => Stuck(e)
              case Arrived(AtDir(x), left) => Walk(t, disk, x, b, left)
              case Arrived(AtFile(x, n), left) =>
                if b == [] then Arrived(AtFile(x, n), left) else Stuck(NotADirectory)
    decreases fuel, |a|
  {
    if a == [] {
      assert a + b == b;
    } else {
      var rest := a[1..];
      assert (a + b)[1..] == rest + b;
      match a[0]
      case Empty => WalkConcat(t, disk, d, rest, b, fuel);
      case Cur => WalkConcat(t, disk, d, rest, b, fuel);
      case Up => WalkConcat(t, disk, t.Parent(d), rest, b, fuel);
      case Named(n) =>
        match EntryAt(t, disk, d, n)
        case Missing =>
        case SubDir(sub) => WalkConcat(t, disk, sub, rest, b, fuel);
        case Regular =>
        case SymLink(target) =>
          if fuel > 0 {
            WalkConcat(t, disk, if target.absolute then ROOT else d, target.path + rest, b, fuel - 1);
            Regroup(target.path, rest, b);
          }
    }
  }

  /** More links allowed make no difference to a walk that arrives. */
  lemma {:induction false} WalkWithMore(t: Tree, disk: Disk, d: Dir, path: Path, fuel: nat, more: nat)
    requires t.Valid() && d in t.dirs && Walk(t, disk, d, path, fuel).Arrived?
    ensures var w := Walk(t, disk, d, path, fuel);
            Walk(t, disk, d, path, fuel + more) == Arrived(w.place, w.fuel + more)
    decreases fuel, |path|
  {
    if path != [] {
      var rest := path[1..];
      match path[0]
      case Empty => WalkWithMore(t, disk, d, rest, fuel, more);
      case Cur => WalkWithMore(t, disk, d, rest, fuel, more);
      case Up => WalkWithMore(t, disk, t.Parent(d), rest, fuel, more);
      case Named(n) =>
        match EntryAt(t, disk, d, n)
        case Missing =>
        case SubDir(sub) => WalkWithMore(t, disk, sub, rest, fuel, more);
        case Regular =>
        case SymLink(target) =>
          var next := if target.absolute then ROOT else d;
          WalkWithMore(t, disk, next, target.path + rest, fuel - 1, more);
          assert Walk(t, disk, d, path, fuel + more) ==
                 Walk(t, disk, next, target.path + rest, fuel - 1 + more);
    }
  }

  lemma SamePlace(t: Tree, disk: Disk, d: Dir, path: Path, f: nat, g: nat)
    requires t.Valid() && d in t.dirs
    requires Walk(t, disk, d, path, f).Arrived? && Walk(t, disk, d, path, g).Arrived?
    ensures Walk(t, disk, d, path, f).place == Walk(t, disk, d, path, g).place
  {
    if f <= g { WalkWithMore(t, disk, d, path, f, g - f); }
    else { WalkWithMore(t, disk, d, path, g, f - g); }
  }

  /** Regular files that come to be change no walk that arrived. */
  lemma {:induction false} WalkStable(t: Tree, disk: Disk, later: Disk, d: Dir, path: Path, fuel: nat)
    requires t.Valid() && d in t.dirs && disk.Keys <= later.Keys
    requires Walk(t, disk, d, path, fuel).Arrived?
    ensures Walk(t, later, d, path, fuel) == Walk(t, disk, d, path, fuel)
    decreases fuel, |path|
  {
    if path != [] {
      var rest := path[1..];
      match path[0]
      case Empty => WalkStable(t, disk, later, d, rest, fuel);
      case Cur => WalkStable(t, disk, later, d, rest, fuel);
      case Up => WalkStable(t, disk, later, t.Parent(d), rest, fuel);
      case Named(n) =>
        match EntryAt(t, disk, d, n)
        case Missing =>
        case SubDir(sub) => WalkStable(t, disk, later, sub, rest, fuel);
        case Regular =>
        case SymLink(target) =>
          WalkStable(t, disk, later, if target.absolute then ROOT else d, target.path + rest, fuel - 1);
    }
  }

  /** Empty components and dots change no walk that arrived. */
  lemma {:induction false} WalkWithoutDots(t: Tree, disk: Disk, d: Dir, path: Path, fuel: nat)
    requires t.Valid() && d in t.dirs && Walk(t, disk, d, path, fuel).Arrived?
    ensures Walk(t, disk, d, Components(path), fuel) == Walk(t, disk, d, path, fuel)
    decreases fuel, |path|
  {
    if path != [] {
      var rest := path[1..];
      assert path[0] != Empty && path[0] != Cur ==> Components(path)[1..] == Components(rest);
      match path[0]
      case Empty => WalkWithoutDots(t, disk, d, rest, fuel);
      case Cur => WalkWithoutDots(t, disk, d, rest, fuel);
      case Up => WalkWithoutDots(t, disk, t.Parent(d), rest, fuel);
      case Named(n) =>
        match EntryAt(t, disk, d, n)
        case Missing =>
        case SubDir(sub) => WalkWithoutDots(t, disk, sub, rest, fuel);
        case Regular =>
        case SymLink(target) => LinkWithoutDots(t, disk, if target.absolute then ROOT else d, target.path, rest, fuel - 1);
    }
  }

  lemma {:induction false} LinkWithoutDots(t: Tree, disk: Disk, d: Dir, target: Path, rest: Path, fuel: nat)
    requires t.Valid() && d in t.dirs && Walk(t, disk, d, target + rest, fuel).Arrived?
    ensures Walk(t, disk, d, target + Components(rest), fuel) == Walk(t, disk, d, target + rest, fuel)
    decreases fuel, |rest| + 1
  {
    WalkConcat(t, disk, d, target, rest, fuel);
    WalkConcat(t, disk, d, target, Components(rest), fuel);
    var w := Walk(t, disk, d, target, fuel);
    if w.place.AtDir? {
      WalkWithoutDots(t, disk, w.place.dir, rest, w.fuel);
    }
  }

  // ---- resolution names the kernel's entry --------------------------------------------------------

  lemma NameOfEntry(t: Tree, d: Dir)
    requires t.Valid() && d in t.dirs
    ensures EntryOfDir(t, d).In? ==> EntryOfDir(t, d).dir in t.dirs
    ensures WhereName(t, EntryOfDir(t, d)) == NameOf(t, d)
    ensures Apply(NameOf(t, d), Up) == NameOf(t, t.Parent(d))
  {
    if d != ROOT {
      var x := NameOf(t, d);
      assert x[..|x| - 1] == NameOf(t, t.Parent(d));
    }
  }

  lemma ComponentsResolve(t: Tree, disk: Disk, path: Path)
    requires t.Valid() && KernelEntry(t, disk, path).Some?
    requires path != [] ==> path[|path| - 1] != Empty && path[|path| - 1] != Cur
    ensures Resolve(t, disk, path) == Ok(WhereName(t, KernelEntry(t, disk, path).value))
  {
    if path != [] {
      var init := path[..|path| - 1];
      var d := Walk(t, disk, ROOT, init, MAX_LINKS).place.dir;
      NameOfEntry(t, d);
      NameOfEntry(t, t.Parent(d));
    }
  }

  lemma {:induction false} ComponentsLast(path: Path)
    requires path != []
    ensures Components(path) ==
              Components(path[..|path| - 1]) +
              (if path[|path| - 1] == Empty || path[|path| - 1] == Cur then [] else [path[|path| - 1]])
  {
    if |path| > 1 {
      ComponentsLast(path[1..]);
      assert path[1..][..|path| - 2] == path[..|path| - 1][1..];
    }
  }

  predicate EndsInDot(path: Path) {
    path != [] && (path[|path| - 1] == Empty || path[|path| - 1] == Cur)
  }

  lemma EntryWithoutDots(t: Tree, disk: Disk, path: Path)
    requires t.Valid() && KernelEntry(t, disk, path).Some? && !EndsInDot(path)
    ensures KernelEntry(t, disk, Components(path)) == KernelEntry(t, disk, path)
  {
    if path != [] {
      var init := path[..|path| - 1];
      ComponentsLast(path);
      assert Components(path)[..|Components(path)| - 1] == Components(init);
      WalkWithoutDots(t, disk, ROOT, init, MAX_LINKS);
    }
  }

  /** A path that ends in a name or in `..`, and whose parent exists, resolves to the entry that
      the kernel would replace. */
  lemma ResolvesToEntry(t: Tree, disk: Disk, path: Path)
    requires t.Valid() && KernelEntry(t, disk, path).Some? && !EndsInDot(path)
    ensures ResolveDestination(t, disk, path) == Ok(WhereName(t, KernelEntry(t, disk, path).value))
  {
    EntryWithoutDots(t, disk, path);
    ComponentsResolve(t, disk, Components(path));
  }

  /** So two spellings resolve alike exactly when they name the same entry. */
  lemma SpellingsAgree(t: Tree, disk: Disk, p: Path, q: Path)
    requires t.Valid() && !EndsInDot(p) && !EndsInDot(q)
    requires KernelEntry(t, disk, p).Some? && KernelEntry(t, disk, q).Some?
    ensures ResolveDestination(t, disk, p) == ResolveDestination(t, disk, q) <==>
              KernelEntry(t, disk, p) == KernelEntry(t, disk, q)
  {
    ResolvesToEntry(t, disk, p);
    ResolvesToEntry(t, disk, q);
    WhereDetermines(t, KernelEntry(t, disk, p).value, KernelEntry(t, disk, q).value);
  }

  // ---- final dots ---------------------------------------------------------------------------------------

  /** A path without its final dots and slashes. */
  function StripDots(path: Path): (r: Path)
    ensures r <= path && !EndsInDot(r)
  {
    if EndsInDot(path) then StripDots(path[..|path| - 1]) else path
  }

  /** A path whose last component is the name of a symbolic link. */
  ghost predicate EndsInLink(t: Tree, disk: Disk, path: Path)
    requires t.Valid()
  {
    path != [] && path[|path| - 1].Named? &&
    match KernelEntry(t, disk, path)
    case Some(In(d, n)) => (d, n) in t.links
    case _ => false
  }

  /** What stands before final dots is a symbolic link: the kernel follows it, `components` drops
      the dots. */
  ghost predicate LinkBeforeDots(t: Tree, disk: Disk, path: Path)
    requires t.Valid()
  {
    EndsInDot(path) && EndsInLink(t, disk, StripDots(path))
  }

  lemma {:induction false} DotsStayInDir(t: Tree, disk: Disk, path: Path)
    requires t.Valid() && Walk(t, disk, ROOT, path, MAX_LINKS).Arrived?
    requires Walk(t, disk, ROOT, path, MAX_LINKS).place.AtDir?
    ensures Walk(t, disk, ROOT, StripDots(path), MAX_LINKS) == Walk(t, disk, ROOT, path, MAX_LINKS)
    ensures Components(StripDots(path)) == Components(path)
  {
    if EndsInDot(path) {
      var init, last := path[..|path| - 1], path[|path| - 1..];
      assert init + last == path;
      WalkConcat(t, disk, ROOT, init, last, MAX_LINKS);
      ComponentsLast(path);
      DotsStayInDir(t, disk, init);
    }
  }

  /** Before a directory that a walk arrives at, the walk is in a directory too. */
  lemma ParentOfArrived(t: Tree, disk: Disk, path: Path)
    requires t.Valid() && path != [] && Walk(t, disk, ROOT, path, MAX_LINKS).Arrived?
    ensures KernelEntry(t, disk, path).Some?
    ensures var init := path[..|path| - 1];
            var w := Walk(t, disk, ROOT, init, MAX_LINKS);
            w.Arrived? && w.place.AtDir? &&
            Walk(t, disk, ROOT, path, MAX_LINKS) ==
              Walk(t, disk, w.place.dir, [path[|path| - 1]], w.fuel)
  {
    var init, last := path[..|path| - 1], [path[|path| - 1]];
    assert init + last == path;
    WalkConcat(t, disk, ROOT, init, last, MAX_LINKS);
  }

  /** With final dots, resolution still names the kernel's entry, unless a link stands before
      them: then it names the link. */
  lemma FinalDots(t: Tree, disk: Disk, path: Path)
    requires t.Valid() && KernelEntry(t, disk, path).Some?
    ensures ResolveDestination(t, disk, path) == Ok(WhereName(t, KernelEntry(t, disk, path).value)) <==>
              !LinkBeforeDots(t, disk, path)
  {
    if !EndsInDot(path) {
      ResolvesToEntry(t, disk, path);
    } else {
      var init, base := path[..|path| - 1], StripDots(path);
      var d := Walk(t, disk, ROOT, init, MAX_LINKS).place.dir;
      ComponentsLast(path);
      DotsStayInDir(t, disk, init);
      assert base == StripDots(init);
      if base != [] { ParentOfArrived(t, disk, base); }
      ResolvesToEntry(t, disk, base);
      NameOfEntry(t, d);
      WhereDetermines(t, KernelEntry(t, disk, base).value, EntryOfDir(t, d));
      BaseEntry(t, disk, base, d);
      assert KernelEntry(t, disk, path) == Some(EntryOfDir(t, d));
      assert Components(path) == Components(base);
      assert ResolveDestination(t, disk, path) == Ok(WhereName(t, KernelEntry(t, disk, base).value));
      assert LinkBeforeDots(t, disk, path) <==> EndsInLink(t, disk, base);
    }
  }

  /** The entry of a path that leads to a directory is the directory's, unless it is a link. */
  lemma BaseEntry(t: Tree, disk: Disk, base: Path, d: Dir)
    requires t.Valid() && !EndsInDot(base) && d in t.dirs && KernelEntry(t, disk, base).Some?
    requires Walk(t, disk, ROOT, base, MAX_LINKS).Arrived?
    requires Walk(t, disk, ROOT, base, MAX_LINKS).place == AtDir(d)
    ensures KernelEntry(t, disk, base) == Some(EntryOfDir(t, d)) <==> !EndsInLink(t, disk, base)
  {
    if base != [] {
      ParentOfArrived(t, disk, base);
      var w := Walk(t, disk, ROOT, base[..|base| - 1], MAX_LINKS);
      if base[|base| - 1].Named? {
        assert EntryAt(t, disk, w.place.dir, base[|base| - 1].name) != Missing;
      }
    }
  }

  // ---- missing tails ----------------------------------------------------------------------------------

  function ApplyAll(name: Name, path: Path): Name {
    if path == [] then name else Apply(ApplyAll(name, path[..|path| - 1]), path[|path| - 1])
  }

  /** The nearest existing ancestor is `path[..k]`: it exists and no longer proper prefix does. */
  ghost predicate NearestIs(t: Tree, disk: Disk, path: Path, k: nat)
    requires t.Valid()
  {
    k < |path| && Canonicalize(t, disk, path[..k]).Ok? &&
    forall j :: k < j < |path| ==> Canonicalize(t, disk, path[..j]) == Err(NotFound)
  }

  /** What is missing is applied to it component by component. */
  lemma {:induction false} MissingTail(t: Tree, disk: Disk, path: Path, k: nat)
    requires t.Valid() && NearestIs(t, disk, path, k)
    ensures Resolve(t, disk, path) == Ok(ApplyAll(Canonicalize(t, disk, path[..k]).value, path[k..]))
  {
    var init := path[..|path| - 1];
    if k == |path| - 1 {
      assert path[k..][..0] == [];
      assert ApplyAll(Canonicalize(t, disk, init).value, []) == Canonicalize(t, disk, init).value;
    } else {
      forall j | k < j < |init| ensures Canonicalize(t, disk, init[..j]) == Err(NotFound) {
        assert init[..j] == path[..j];
      }
      assert init[..k] == path[..k];
      assert path[..|init|] == init;
      MissingTail(t, disk, init, k);
      assert path[k..][..|path| - k - 1] == init[k..];
    }
  }

  /** Resolution fails exactly when, going up, something other than absence is met first. */
  lemma {:induction false} ResolveFails(t: Tree, disk: Disk, path: Path)
    requires t.Valid()
    ensures Resolve(t, disk, path).Err? <==> path != [] && !exists k: nat :: NearestIs(t, disk, path, k)
  {
    if path != [] {
      var init := path[..|path| - 1];
      if k: nat :| NearestIs(t, disk, path, k) {
        MissingTail(t, disk, path, k);
      } else {
        assert path[..|init|] == init;
        if Canonicalize(t, disk, init).Ok? {
          assert NearestIs(t, disk, path, |init|);
        }
        ResolveFails(t, disk, init);
        if Canonicalize(t, disk, init) == Err(NotFound) && Resolve(t, disk, init).Ok? && init != [] {
          var k: nat :| NearestIs(t, disk, init, k);
          forall j | k < j < |path| ensures Canonicalize(t, disk, path[..j]) == Err(NotFound) {
            if j < |init| { assert path[..j] == init[..j]; }
          }
          assert path[..k] == init[..k];
          assert NearestIs(t, disk, path, k);
        }
      }
    }
  }

  // ---- a path that ends in a slash after a link ----------------------------------------------------------

  /** A directory "d" in the root, and a link "l" to it. */
  const LINKED := Tree(
    map[ROOT := DirInfo(ROOT, "", 0), 1 := DirInfo(ROOT, "d", 1)],
    map[(ROOT, "d") := 1],
    map[(ROOT, "l") := Target(true, [Named("d")])])

  /** On "l/" the kernel acts on the directory, resolution names the link. */
  lemma SlashAfterLink()
    ensures LINKED.Valid() && LinkBeforeDots(LINKED, map[], [Named("l"), Empty])
    ensures KernelEntry(LINKED, map[], [Named("l"), Empty]) == Some(In(ROOT, "d"))
    ensures ResolveDestination(LINKED, map[], [Named("l"), Empty]) == Ok(["l"])
  {
    var path, base := [Named("l"), Empty], [Named("l")];
    assert path[..1] == base && base[..0] == [] && base[1..] == [];
    assert NameOf(LINKED, ROOT) + ["l"] == ["l"];
    assert "l" != "d";
    assert EntryAt(LINKED, map[], ROOT, "l") == SymLink(Target(true, [Named("d")]));
    assert EntryAt(LINKED, map[], ROOT, "d") == SubDir(1);
    assert [Named("d")] + base[1..] == [Named("d")] && [Named("d")][1..] == [];
    assert Walk(LINKED, map[], 1, [], MAX_LINKS - 1) == Arrived(AtDir(1), MAX_LINKS - 1);
    assert Walk(LINKED, map[], ROOT, [Named("d")], MAX_LINKS - 1) == Arrived(AtDir(1), MAX_LINKS - 1);
    assert Walk(LINKED, map[], ROOT, base, MAX_LINKS).place == AtDir(1);
    assert StripDots(path) == base;
    ComponentsLast(path);
    ResolvesToEntry(LINKED, map[], base);
    assert Components(path) == Components(base);
  }
}
