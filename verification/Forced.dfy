/** Concurrent `generate --force` runs on the same pair of paths, kept apart by a lock file. A run
    that finds the lock waits, gives up after a while, or judges the lock stale and removes it. */
module Forced {
  import opened Basics
  import opened Disk
  import opened Keypair
  import opened KeypairExact

  datatype Proc =
    | Waiting
    | Breaking
    | Inside(rest: Prog)
    | Releasing(result: Verdict)
    | Finished(result: Verdict)

  /** `entry` is the directory as the last run to take the lock found it. */
  datatype World = World(disk: Disk, procs: seq<Proc>, entry: Disk)

  /** Which run moves, what the operating system answers, and what the clock makes of the wait. */
  datatype Turn = Turn(run: nat, answer: Answer, stale: bool, timedOut: bool)

  function Enter(prog: Prog): Proc {
    if prog.Done? then Releasing(prog.result) else Inside(prog)
  }

  /** A run that found the lock and leaves it be. */
  function KeepWaiting(t: Turn): Proc {
    if t.timedOut then Finished(Failure(LockTimeout)) else Waiting
  }

  /** One attempt to create the lock file or to remove a stale one
      (`acquire_force_overwrite_lock`), one call of the transaction, or the deletion of the lock
      when the guard is dropped. */
  function Move(jobs: seq<Job>, lock: Name, w: World, t: Turn): World
    requires |jobs| == |w.procs|
  {
    if t.run >= |w.procs| then w
    else
      match w.procs[t.run]
      case Waiting =>
        var (disk, reply) := Perform(CreateNew(lock, 0), w.disk, t.answer);
        (match reply
         case Fine =>
           World(disk, w.procs[t.run := Enter(Overwrite(jobs[t.run]))], disk)
         case AlreadyExists =>
           w.(procs := w.procs[t.run := if t.stale then Breaking else KeepWaiting(t)])
         case Failed =>
           w.(procs := w.procs[t.run := Finished(Failure(FileWrite(lock)))]))
      case Breaking =>
        var (disk, reply) := Perform(Remove(lock), w.disk, t.answer);
        w.(disk := disk, procs := w.procs[t.run := if reply == Fine then Waiting else KeepWaiting(t)])
      case Inside(prog) =>
        if prog.Done? then w
        else
          var (disk, reply) := Perform(prog.op, w.disk, t.answer);
          w.(disk := disk, procs := w.procs[t.run := Enter(Next(prog, reply))])
      case Releasing(r) =>
        var (disk, _) := Perform(Remove(lock), w.disk, t.answer);
        w.(disk := disk, procs := w.procs[t.run := Finished(r)])
      case Finished(_) => w
  }

  function Interleave(jobs: seq<Job>, lock: Name, w: World, turns: seq<Turn>): (w': World)
    requires |jobs| == |w.procs|
    ensures |jobs| == |w'.procs|
    decreases |turns|
  {
    if turns == [] then w else Interleave(jobs, lock, Move(jobs, lock, w, turns[0]), turns[1..])
  }

  function Begin(jobs: seq<Job>, start: Disk): World {
    World(start, seq(|jobs|, i => Waiting), start)
  }

  predicate NoneStale(turns: seq<Turn>) {
    turns == [] || (!turns[0].stale && NoneStale(turns[1..]))
  }

  // ---- at most one run holds the lock -----------------------------------------------------------

  predicate Active(p: Proc) {
    p.Inside? || p.Releasing?
  }

  ghost predicate MutualExclusion(w: World) {
    forall i, k :: 0 <= i < |w.procs| && 0 <= k < |w.procs| && Active(w.procs[i]) && Active(w.procs[k]) ==> i == k
  }

  /** While a run is active the lock is there, nobody is removing it, and no call of the
      transaction touches it. */
  ghost predicate Exclusive(lock: Name, w: World) {
    MutualExclusion(w) &&
    forall i :: 0 <= i < |w.procs| ==>
      !w.procs[i].Breaking? && (Active(w.procs[i]) ==> lock in w.disk) &&
      (w.procs[i].Inside? ==> LockFree(w.procs[i].rest, lock))
  }

  ghost predicate LockFree(prog: Prog, lock: Name) {
    exists names :: lock !in names && TouchesOnly(prog, names)
  }

  lemma NextLockFree(prog: Prog, lock: Name, disk: Disk, a: Answer)
    requires prog.Do? && LockFree(prog, lock)
    ensures var (disk', reply) := Perform(prog.op, disk, a);
            LockFree(Next(prog, reply), lock) && (lock in disk ==> lock in disk')
  {
    var names :| lock !in names && TouchesOnly(prog, names);
    UntouchedStays(prog.op, disk, a, lock);
    assert TouchesOnly(Next(prog, Perform(prog.op, disk, a).1), names);
  }

  /** The lock is created only when it is not there, so no run is active then. */
  lemma TakeExclusive(lock: Name, w: World, i: nat, prog: Prog, entry: Disk)
    requires Exclusive(lock, w) && i < |w.procs| && lock !in w.disk && LockFree(prog, lock)
    ensures Exclusive(lock, World(w.disk[lock := File(0, [])], w.procs[i := Enter(prog)], entry))
  {
  }

  lemma MoveExclusive(jobs: seq<Job>, lock: Name, w: World, t: Turn)
    requires |jobs| == |w.procs| && forall i :: 0 <= i < |jobs| ==> lock !in jobs[i].Names()
    requires Exclusive(lock, w) && !t.stale
    ensures Exclusive(lock, Move(jobs, lock, w, t))
  {
    if t.run < |w.procs| {
      match w.procs[t.run]
      case Waiting =>
        OverwriteTouches(jobs[t.run]);
        if lock !in w.disk && t.answer.ok {
          TakeExclusive(lock, w, t.run, Overwrite(jobs[t.run]), w.disk[lock := File(0, [])]);
        }
      case Inside(prog) =>
        if prog.Do? { NextLockFree(prog, lock, w.disk, t.answer); }
      case Releasing(_) => ReleaseExclusive(jobs, lock, w, t);
      case Finished(_) =>
      case Breaking =>
    }
  }

  lemma ReleaseExclusive(jobs: seq<Job>, lock: Name, w: World, t: Turn)
    requires |jobs| == |w.procs| && Exclusive(lock, w)
    requires t.run < |w.procs| && w.procs[t.run].Releasing?
    ensures Exclusive(lock, Move(jobs, lock, w, t))
  {
    assert forall i :: 0 <= i < |w.procs| && i != t.run ==> !Active(w.procs[i]);
  }

  lemma {:induction false} InterleaveExclusive(jobs: seq<Job>, lock: Name, w: World, turns: seq<Turn>)
    requires |jobs| == |w.procs| && forall i :: 0 <= i < |jobs| ==> lock !in jobs[i].Names()
    requires Exclusive(lock, w) && NoneStale(turns)
    ensures Exclusive(lock, Interleave(jobs, lock, w, turns))
    decreases |turns|
  {
    if turns != [] {
      MoveExclusive(jobs, lock, w, turns[0]);
      InterleaveExclusive(jobs, lock, Move(jobs, lock, w, turns[0]), turns[1..]);
    }
  }

  /** At most one run is between taking the lock and dropping it, in any interleaving of any
      number of runs with any calls failing (undo calls and existence checks too) and any run
      stopping for good anywhere, as long as no lock is judged stale. */
  lemma ForcedRunsExclude(jobs: seq<Job>, lock: Name, start: Disk, turns: seq<Turn>)
    requires forall i :: 0 <= i < |jobs| ==> lock !in jobs[i].Names()
    requires NoneStale(turns)
    ensures MutualExclusion(Interleave(jobs, lock, Begin(jobs, start), turns))
  {
    InterleaveExclusive(jobs, lock, Begin(jobs, start), turns);
  }

  ghost predicate Reaches(jobs: seq<Job>, lock: Name, w: World, w': World)
    requires |jobs| == |w.procs|
  {
    exists turns :: Interleave(jobs, lock, w, turns) == w'
  }

  lemma MoveReaches(jobs: seq<Job>, lock: Name, w: World, t: Turn, w': World)
    requires |jobs| == |w.procs| == |w'.procs|
    requires Reaches(jobs, lock, Move(jobs, lock, w, t), w')
    ensures Reaches(jobs, lock, w, w')
  {
    var turns :| Interleave(jobs, lock, Move(jobs, lock, w, t), turns) == w';
    assert ([t] + turns)[1..] == turns;
    assert Interleave(jobs, lock, w, [t] + turns) == w';
  }

  /** Run `i` creates the lock and is the last to move. */
  lemma TakesLock(jobs: seq<Job>, lock: Name, w: World, i: nat) returns (t: Turn, w': World)
    requires |jobs| == |w.procs| && i < |jobs| && w.procs[i].Waiting? && lock !in w.disk
    ensures w' == Move(jobs, lock, w, t) && |w'.procs| == |jobs| && lock in w'.disk
    ensures Active(w'.procs[i]) && forall k :: 0 <= k < |jobs| && k != i ==> w'.procs[k] == w.procs[k]
  {
    t := Turn(i, Answer(true, 0), false, false);
    w' := Move(jobs, lock, w, t);
  }

  /** A run that waits judges the lock stale, removes it and takes it, whoever holds it. */
  lemma SecondHolder(jobs: seq<Job>, lock: Name, w: World, i: nat, k: nat) returns (w': World)
    requires |jobs| == |w.procs| && i < |jobs| && k < |jobs| && i != k
    requires w.procs[i].Waiting? && Active(w.procs[k]) && lock in w.disk
    ensures |w'.procs| == |jobs| && Reaches(jobs, lock, w, w') && Active(w'.procs[i]) && Active(w'.procs[k])
  {
    var judge, remove := Turn(i, Answer(true, 0), true, false), Turn(i, Answer(true, 0), false, false);
    var breaking := w.(procs := w.procs[i := Breaking]);
    var free := w.(disk := w.disk - {lock});
    assert breaking.procs[i := Waiting] == w.procs;
    assert Move(jobs, lock, w, judge) == breaking && Move(jobs, lock, breaking, remove) == free;
    var take;
    take, w' := TakesLock(jobs, lock, free, i);
    assert Interleave(jobs, lock, w', []) == w';
    MoveReaches(jobs, lock, free, take, w');
    MoveReaches(jobs, lock, breaking, remove, w');
    MoveReaches(jobs, lock, w, judge, w');
  }

  /** A lock judged stale while its holder lives admits a second holder: so it can for any runs,
      two or more, on any directory without the lock. */
  lemma StaleLockAdmitsTwo(jobs: seq<Job>, lock: Name, start: Disk)
    requires |jobs| >= 2 && lock !in start
    ensures exists turns :: !MutualExclusion(Interleave(jobs, lock, Begin(jobs, start), turns))
  {
    var w := Begin(jobs, start);
    var take, held := TakesLock(jobs, lock, w, 0);
    var both := SecondHolder(jobs, lock, held, 1, 0);
    MoveReaches(jobs, lock, w, take, both);
    assert !MutualExclusion(both);
  }

  // ---- at rest, one pair ------------------------------------------------------------------------------

  predicate LegalTurn(w: World, t: Turn, faults: set<Phase>) {
    !t.stale &&
    (t.run < |w.procs| && w.procs[t.run].Inside? && w.procs[t.run].rest.Do? ==>
       Allowed(w.procs[t.run].rest.phase, t.answer, faults))
  }

  predicate LegalTurns(jobs: seq<Job>, lock: Name, w: World, turns: seq<Turn>, faults: set<Phase>)
    requires |jobs| == |w.procs|
    decreases |turns|
  {
    turns == [] ||
    (LegalTurn(w, turns[0], faults) &&
     LegalTurns(jobs, lock, Move(jobs, lock, w, turns[0]), turns[1..], faults))
  }

  ghost predicate Rivals(jobs: seq<Job>, lock: Name, start: Disk) {
    forall i :: 0 <= i < |jobs| ==>
      jobs[i].Fresh(start) && lock !in jobs[i].Names() &&
      jobs[i].secret == jobs[0].secret && jobs[i].public == jobs[0].public &&
      forall k :: 0 <= k < |jobs| && k != i ==> Staged(jobs[i]) !! Staged(jobs[k])
  }

  function Staged(j: Job): set<Name> {
    {j.secretTmp, j.publicTmp, j.secretBak, j.publicBak}
  }

  /** No forward call can fail; or undo calls go through and the existence checks report the truth,
      of a run alone only about what it finds there. */
  predicate Undisturbed(jobs: seq<Job>, start: Disk, faults: set<Phase>) {
    Forward !in faults || (forall i :: 0 <= i < |jobs| ==> Truthful(jobs[i], faults)) ||
    (|jobs| == 1 && Undoable(jobs[0], start, faults))
  }

  predicate Truthful(j: Job, faults: set<Phase>) {
    Undo !in faults && Check(j.secret) !in faults && Check(j.public) !in faults
  }

  /** The final paths hold what they held at first, or the pair of one run. */
  ghost predicate OnePair(jobs: seq<Job>, start: Disk, disk: Disk) {
    |jobs| > 0 ==>
      (Lookup(disk, jobs[0].secret) == Lookup(start, jobs[0].secret) &&
       Lookup(disk, jobs[0].public) == Lookup(start, jobs[0].public)) ||
      exists i :: 0 <= i < |jobs| && HasPair(jobs[i], disk)
  }

  predicate HasPair(j: Job, disk: Disk) {
    Lookup(disk, j.secret) == Some(j.secretFile) && Lookup(disk, j.public) == Some(j.publicFile)
  }

  predicate AtRest(w: World) {
    forall i :: 0 <= i < |w.procs| ==> !w.procs[i].Inside?
  }

  /** The run inside the transaction touches only its own names, and ends with the pair it found
      when it took the lock or with its own. */
  ghost predicate InsideKept(jobs: seq<Job>, start: Disk, faults: set<Phase>, w: World, i: nat)
    requires |jobs| == |w.procs| && i < |jobs|
  {
    w.procs[i].Inside? ==>
      OnePair(jobs, start, w.entry) && TouchesOnly(w.procs[i].rest, jobs[i].Names()) &&
      Always(w.procs[i].rest, w.disk, faults, Exact(jobs[i], w.entry))
  }

  /** A run that has not begun finds its staged names free. */
  ghost predicate Unstaged(jobs: seq<Job>, w: World)
    requires |jobs| == |w.procs|
  {
    forall i :: 0 <= i < |jobs| && w.procs[i].Waiting? ==> Staged(jobs[i]) !! w.disk.Keys
  }

  ghost predicate Serial(jobs: seq<Job>, lock: Name, start: Disk, faults: set<Phase>, w: World) {
    |w.procs| == |jobs| && Exclusive(lock, w) && Unstaged(jobs, w) &&
    (forall i :: 0 <= i < |jobs| ==> InsideKept(jobs, start, faults, w, i)) &&
    (AtRest(w) ==> OnePair(jobs, start, w.disk)) &&
    (|jobs| == 1 && w.procs[0].Waiting? ==> w.disk == start)
  }

  /** The lock is no name of any run's. */
  lemma LockApart(jobs: seq<Job>, lock: Name, start: Disk, disk: Disk, disk': Disk)
    requires Rivals(jobs, lock, start) && SameButLock(lock, disk, disk')
    ensures OnePair(jobs, start, disk) ==> OnePair(jobs, start, disk')
    ensures forall k :: 0 <= k < |jobs| && Staged(jobs[k]) !! disk.Keys ==> Staged(jobs[k]) !! disk'.Keys
  {
    if OnePair(jobs, start, disk) && |jobs| > 0 {
      assert jobs[0].secret != lock && jobs[0].public != lock;
      if i :| 0 <= i < |jobs| && HasPair(jobs[i], disk) {
        assert HasPair(jobs[i], disk');
      }
    }
    forall k | 0 <= k < |jobs| && Staged(jobs[k]) !! disk.Keys ensures Staged(jobs[k]) !! disk'.Keys {
      forall p | p in Staged(jobs[k]) ensures p !in disk' {
        assert p != lock && Lookup(disk', p) == Lookup(disk, p);
      }
    }
  }

  ghost predicate SameButLock(lock: Name, disk: Disk, disk': Disk) {
    forall p :: p != lock ==> Lookup(disk', p) == Lookup(disk, p)
  }

  /** Nobody is inside when the lock is taken, and the newcomer with its program finds the
      directory as its invariant wants it. */
  lemma TakeLockSerial(jobs: seq<Job>, lock: Name, start: Disk, faults: set<Phase>, w: World, i: nat, prog: Prog)
    requires Rivals(jobs, lock, start) && Serial(jobs, lock, start, faults, w)
    requires i < |w.procs| && w.procs[i].Waiting? && lock !in w.disk
    requires prog.Do? && TouchesOnly(prog, jobs[i].Names())
    requires var disk' := w.disk[lock := File(0, [])];
             Always(prog, disk', faults, Exact(jobs[i], disk'))
    ensures var disk' := w.disk[lock := File(0, [])];
            Serial(jobs, lock, start, faults, World(disk', w.procs[i := Inside(prog)], disk'))
  {
    var disk' := w.disk[lock := File(0, [])];
    var w' := World(disk', w.procs[i := Inside(prog)], disk');
    assert LockFree(prog, lock);
    TakeExclusive(lock, w, i, prog, disk');
    assert SameButLock(lock, w.disk, disk');
    LockApart(jobs, lock, start, w.disk, disk');
    NobodyActive(lock, w);
    NewcomerSerial(jobs, lock, start, faults, w, w', i);
  }

  /** A run that has not begun may begin once the lock is there. */
  lemma MayBegin(jobs: seq<Job>, lock: Name, start: Disk, faults: set<Phase>, w: World, i: nat)
    requires Rivals(jobs, lock, start) && Undisturbed(jobs, start, faults)
    requires Serial(jobs, lock, start, faults, w) && i < |jobs| && w.procs[i].Waiting?
    ensures var disk' := w.disk[lock := File(0, [])];
            Always(Overwrite(jobs[i]), disk', faults, Exact(jobs[i], disk')) &&
            TouchesOnly(Overwrite(jobs[i]), jobs[i].Names())
  {
    var disk' := w.disk[lock := File(0, [])];
    assert lock !in jobs[i].Names();
    assert forall p :: p in Staged(jobs[i]) ==> p !in w.disk;
    OverwriteTouches(jobs[i]);
    SoundIsExact(jobs[i], disk', faults);
  }

  lemma NobodyActive(lock: Name, w: World)
    requires Exclusive(lock, w) && lock !in w.disk
    ensures AtRest(w) && forall k :: 0 <= k < |w.procs| ==> !Active(w.procs[k])
  {
    assert forall k :: 0 <= k < |w.procs| ==> !Active(w.procs[k]);
  }

  lemma NewcomerSerial(jobs: seq<Job>, lock: Name, start: Disk, faults: set<Phase>, w: World, w': World, i: nat)
    requires |jobs| == |w.procs| == |w'.procs| && i < |jobs| && Unstaged(jobs, w) && Exclusive(lock, w')
    requires forall k :: 0 <= k < |jobs| ==> !Active(w.procs[k]) && (k != i ==> w'.procs[k] == w.procs[k])
    requires w'.procs[i].Inside? && InsideKept(jobs, start, faults, w', i)
    requires forall k :: 0 <= k < |jobs| && Staged(jobs[k]) !! w.disk.Keys ==> Staged(jobs[k]) !! w'.disk.Keys
    ensures Serial(jobs, lock, start, faults, w')
  {
    forall k | 0 <= k < |jobs| ensures InsideKept(jobs, start, faults, w', k) {
      assert k != i ==> !w'.procs[k].Inside?;
    }
  }

  /** A move that leaves the directory alone and takes nobody inside. */
  lemma IdleSerial(jobs: seq<Job>, lock: Name, start: Disk, faults: set<Phase>, w: World, i: nat, p: Proc)
    requires Serial(jobs, lock, start, faults, w)
    requires i < |w.procs| && !w.procs[i].Inside? && !p.Inside?
    requires p.Waiting? ==> w.procs[i].Waiting?
    requires Exclusive(lock, w.(procs := w.procs[i := p]))
    ensures Serial(jobs, lock, start, faults, w.(procs := w.procs[i := p]))
  {
    var w' := w.(procs := w.procs[i := p]);
    forall k | 0 <= k < |jobs| ensures InsideKept(jobs, start, faults, w', k) {
      assert InsideKept(jobs, start, faults, w, k);
    }
    if AtRest(w') {
      forall k | 0 <= k < |w.procs| ensures !w.procs[k].Inside? {
        assert k != i ==> !w'.procs[k].Inside?;
      }
    }
  }

  lemma ReleaseSerial(jobs: seq<Job>, lock: Name, start: Disk, faults: set<Phase>, w: World, t: Turn)
    requires Rivals(jobs, lock, start) && Serial(jobs, lock, start, faults, w)
    requires t.run < |w.procs| && w.procs[t.run].Releasing?
    ensures Serial(jobs, lock, start, faults, Move(jobs, lock, w, t))
  {
    var w' := Move(jobs, lock, w, t);
    ReleaseExclusive(jobs, lock, w, t);
    assert SameButLock(lock, w.disk, w'.disk);
    LockApart(jobs, lock, start, w.disk, w'.disk);
    assert Active(w.procs[t.run]);
    assert forall k :: 0 <= k < |w.procs| && k != t.run ==> !Active(w.procs[k]);
    assert AtRest(w);
  }

  lemma SettledPair(jobs: seq<Job>, lock: Name, start: Disk, entry: Disk, i: nat, rest: Prog, disk: Disk)
    requires Rivals(jobs, lock, start) && i < |jobs| && OnePair(jobs, start, entry)
    requires rest.Done? && ExactOutcome(jobs[i], entry, rest, disk)
    ensures OnePair(jobs, start, disk)
  {
    var j := jobs[i];
    if rest.result == Success {
      assert HasPair(j, disk);
    } else if !(Lookup(entry, j.secret) == Lookup(start, j.secret) &&
                Lookup(entry, j.public) == Lookup(start, j.public)) {
      var k :| 0 <= k < |jobs| && HasPair(jobs[k], entry);
      assert HasPair(jobs[k], disk);
    }
  }

  lemma InsideSerial(jobs: seq<Job>, lock: Name, start: Disk, faults: set<Phase>, w: World, t: Turn)
    requires Rivals(jobs, lock, start) && Undisturbed(jobs, start, faults)
    requires Serial(jobs, lock, start, faults, w) && LegalTurn(w, t, faults)
    requires t.run < |w.procs| && w.procs[t.run].Inside? && w.procs[t.run].rest.Do?
    ensures Serial(jobs, lock, start, faults, Move(jobs, lock, w, t))
  {
    var i := t.run;
    var j, prog := jobs[i], w.procs[i].rest;
    var w' := Move(jobs, lock, w, t);
    var next := Next(prog, Perform(prog.op, w.disk, t.answer).1);
    MoveExclusive(jobs, lock, w, t);
    assert InsideKept(jobs, start, faults, w, i);
    assert Always(next, w'.disk, faults, Exact(j, w.entry)) && TouchesOnly(next, j.Names());
    assert Active(w.procs[i]);
    assert forall k :: 0 <= k < |w.procs| && k != i ==> !Active(w.procs[k]);
    assert forall k :: 0 <= k < |jobs| && k != i ==> w'.procs[k] == w.procs[k];
    InsideUnstaged(jobs, lock, start, w, t);
    if next.Done? {
      SettledPair(jobs, lock, start, w.entry, i, next, w'.disk);
    } else {
      assert w'.procs[i].Inside?;
    }
  }

  lemma InsideUnstaged(jobs: seq<Job>, lock: Name, start: Disk, w: World, t: Turn)
    requires Rivals(jobs, lock, start) && |jobs| == |w.procs| && Unstaged(jobs, w)
    requires t.run < |w.procs| && w.procs[t.run].Inside? && w.procs[t.run].rest.Do?
    requires TouchesOnly(w.procs[t.run].rest, jobs[t.run].Names())
    ensures Unstaged(jobs, Move(jobs, lock, w, t))
  {
    var w' := Move(jobs, lock, w, t);
    var j, op := jobs[t.run], w.procs[t.run].rest.op;
    forall k | 0 <= k < |jobs| && w'.procs[k].Waiting? ensures Staged(jobs[k]) !! w'.disk.Keys {
      assert Staged(j) !! Staged(jobs[k]) && jobs[k].DistinctNames();
      forall p | p in Staged(jobs[k]) ensures p !in w'.disk {
        assert p !in j.Names();
        UntouchedStays(op, w.disk, t.answer, p);
        assert Lookup(w'.disk, p) == Lookup(w.disk, p);
      }
    }
  }

  lemma MoveSerial(jobs: seq<Job>, lock: Name, start: Disk, faults: set<Phase>, w: World, t: Turn)
    requires Rivals(jobs, lock, start) && Undisturbed(jobs, start, faults)
    requires Serial(jobs, lock, start, faults, w) && LegalTurn(w, t, faults)
    ensures Serial(jobs, lock, start, faults, Move(jobs, lock, w, t))
  {
    if t.run < |w.procs| {
      match w.procs[t.run]
      case Waiting => EnterSerial(jobs, lock, start, faults, w, t);
      case Inside(prog) =>
        if prog.Do? { InsideSerial(jobs, lock, start, faults, w, t); }
      case Releasing(_) => ReleaseSerial(jobs, lock, start, faults, w, t);
      case Finished(_) =>
      case Breaking =>
    }
  }

  lemma EnterSerial(jobs: seq<Job>, lock: Name, start: Disk, faults: set<Phase>, w: World, t: Turn)
    requires Rivals(jobs, lock, start) && Undisturbed(jobs, start, faults)
    requires Serial(jobs, lock, start, faults, w) && !t.stale
    requires t.run < |w.procs| && w.procs[t.run].Waiting?
    ensures Serial(jobs, lock, start, faults, Move(jobs, lock, w, t))
  {
    if Perform(CreateNew(lock, 0), w.disk, t.answer).1 == Fine {
      MayBegin(jobs, lock, start, faults, w, t.run);
      TakeLockSerial(jobs, lock, start, faults, w, t.run, Overwrite(jobs[t.run]));
    } else {
      var w' := Move(jobs, lock, w, t);
      MoveExclusive(jobs, lock, w, t);
      assert w' == w.(procs := w.procs[t.run := w'.procs[t.run]]);
      IdleSerial(jobs, lock, start, faults, w, t.run, w'.procs[t.run]);
    }
  }

  lemma {:induction false} InterleaveSerial(
      jobs: seq<Job>, lock: Name, start: Disk, faults: set<Phase>, w: World, turns: seq<Turn>)
    requires Rivals(jobs, lock, start) && Undisturbed(jobs, start, faults)
    requires Serial(jobs, lock, start, faults, w) && LegalTurns(jobs, lock, w, turns, faults)
    ensures Serial(jobs, lock, start, faults, Interleave(jobs, lock, w, turns))
    decreases |turns|
  {
    if turns != [] {
      MoveSerial(jobs, lock, start, faults, w, turns[0]);
      InterleaveSerial(jobs, lock, start, faults, Move(jobs, lock, w, turns[0]), turns[1..]);
    }
  }

  /** Forced runs serialise. In any interleaving of any number of runs, with lock creation and lock
      deletion failing at will and any run stopping for good at any point, whenever none is inside
      the transaction the two final paths hold one run's pair or what they held at first: if no
      forward call can fail, or if undo calls go through and the existence checks are right. */
  lemma ForcedRunsSerialise(jobs: seq<Job>, lock: Name, start: Disk, faults: set<Phase>, turns: seq<Turn>)
    requires Rivals(jobs, lock, start) && Undisturbed(jobs, start, faults)
    requires LegalTurns(jobs, lock, Begin(jobs, start), turns, faults)
    ensures var w := Interleave(jobs, lock, Begin(jobs, start), turns);
            MutualExclusion(w) && (AtRest(w) ==> OnePair(jobs, start, w.disk))
  {
    assert Serial(jobs, lock, start, faults, Begin(jobs, start));
    InterleaveSerial(jobs, lock, start, faults, Begin(jobs, start), turns);
  }

  // ---- the condition is exact for a run alone -------------------------------------------------------

  /** Whatever is legal leaves one pair at rest. */
  ghost predicate AlwaysOnePair(jobs: seq<Job>, lock: Name, start: Disk, faults: set<Phase>) {
    forall turns :: LegalTurns(jobs, lock, Begin(jobs, start), turns, faults) ==>
      var w := Interleave(jobs, lock, Begin(jobs, start), turns);
      AtRest(w) ==> OnePair(jobs, start, w.disk)
  }

  /** The turns that give the one run inside the answers of a run of its program. */
  lemma {:induction false} InsideRuns(jobs: seq<Job>, lock: Name, w: World, answers: seq<Answer>, faults: set<Phase>)
    returns (turns: seq<Turn>)
    requires |jobs| == |w.procs| == 1 && w.procs[0].Inside? && w.procs[0].rest.Do?
    requires Legal(w.procs[0].rest, w.disk, answers, faults)
    requires Run(w.procs[0].rest, w.disk, answers).0.Done?
    ensures LegalTurns(jobs, lock, w, turns, faults)
    ensures var w' := Interleave(jobs, lock, w, turns);
            AtRest(w') && w'.disk == Run(w.procs[0].rest, w.disk, answers).1
    decreases |answers|
  {
    var t := Turn(0, answers[0], false, false);
    var w' := Move(jobs, lock, w, t);
    var rest: seq<Turn> := [];
    if w'.procs[0].Inside? {
      rest := InsideRuns(jobs, lock, w', answers[1..], faults);
    }
    turns := [t] + rest;
    assert turns[1..] == rest;
  }

  /** A run alone on a directory without the lock: one pair at rest, whatever is legal, exactly when
      no forward call can fail, or undo calls go through and no existing file can be taken for
      absent. */
  lemma AloneIff(j: Job, lock: Name, start: Disk, faults: set<Phase>)
    requires j.Fresh(start) && Differs(j, start) && lock !in j.Names() && lock !in start
    ensures AlwaysOnePair([j], lock, start, faults) <==> Sound(j, start, faults)
  {
    var jobs := [j];
    if Sound(j, start, faults) {
      forall turns | LegalTurns(jobs, lock, Begin(jobs, start), turns, faults)
        ensures var w := Interleave(jobs, lock, Begin(jobs, start), turns);
                AtRest(w) ==> OnePair(jobs, start, w.disk)
      {
        ForcedRunsSerialise(jobs, lock, start, faults, turns);
      }
    } else {
      var turns := AloneMisses(j, lock, start, faults);
      assert !AlwaysOnePair(jobs, lock, start, faults);
    }
  }

  lemma AloneMisses(j: Job, lock: Name, start: Disk, faults: set<Phase>) returns (turns: seq<Turn>)
    requires j.Fresh(start) && Differs(j, start) && lock !in j.Names() && lock !in start
    requires !Sound(j, start, faults)
    ensures LegalTurns([j], lock, Begin([j], start), turns, faults)
    ensures var w := Interleave([j], lock, Begin([j], start), turns);
            AtRest(w) && !OnePair([j], start, w.disk)
  {
    var locked := start[lock := File(0, [])];
    OverwriteMisses(j, locked, faults);
    var answers := MissingRun(j, locked, faults, Overwrite(j), locked);
    turns := TakenThenRun(j, lock, start, faults, Overwrite(j), answers);
  }

  lemma LockTaken(j: Job, lock: Name, start: Disk, prog: Prog)
    requires prog == Overwrite(j) && lock !in start
    ensures var locked := start[lock := File(0, [])];
            Move([j], lock, Begin([j], start), Turn(0, Answer(true, 0), false, false)) ==
              World(locked, [Inside(prog)], locked)
  {
  }

  lemma TakenThenRun(j: Job, lock: Name, start: Disk, faults: set<Phase>, prog: Prog, answers: seq<Answer>)
    returns (turns: seq<Turn>)
    requires prog == Overwrite(j) && prog.Do? && lock !in j.Names() && lock !in start
    requires var locked := start[lock := File(0, [])];
             Legal(prog, locked, answers, faults) &&
             Mixed(j, locked, Run(prog, locked, answers).0, Run(prog, locked, answers).1)
    ensures LegalTurns([j], lock, Begin([j], start), turns, faults)
    ensures var w := Interleave([j], lock, Begin([j], start), turns);
            AtRest(w) && !OnePair([j], start, w.disk)
  {
    var jobs, locked := [j], start[lock := File(0, [])];
    var take := Turn(0, Answer(true, 0), false, false);
    var w := World(locked, [Inside(prog)], locked);
    LockTaken(j, lock, start, prog);
    var rest := InsideRuns(jobs, lock, w, answers, faults);
    turns := [take] + rest;
    assert turns[1..] == rest;
    MixedIsNoPair(j, lock, start, Run(prog, locked, answers).0, Run(prog, locked, answers).1);
  }

  lemma MixedIsNoPair(j: Job, lock: Name, start: Disk, rest: Prog, disk: Disk)
    requires lock !in j.Names() && Mixed(j, start[lock := File(0, [])], rest, disk)
    ensures !OnePair([j], start, disk)
  {
    assert HasPair(j, disk) <==> BothNew(j, disk);
    assert Lookup(start[lock := File(0, [])], j.secret) == Lookup(start, j.secret);
    assert Lookup(start[lock := File(0, [])], j.public) == Lookup(start, j.public);
  }
}
