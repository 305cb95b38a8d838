/** What a batch of which every call is let through reports and leaves, in whatever order its jobs
    are interleaved. */
module BatchOutcome {
  import opened Basics
  import opened Disk
  import opened Paths
  import opened Batch
  import opened Gaps
  import opened BatchJobs
  import opened SignatureWrites
  import A = AtomicWrite

  /** The entry the kernel finds under a job's signature path. */
  function KindOf(s: Setting, i: nat): Entry
    requires s.tree.Valid() && i < |s.jobs|
  {
    match KernelEntry(s.tree, s.start, SigPath(s.jobs[i]))
    case Some(In(d, n)) => EntryAt(s.tree, s.start, d, n)
    case _ => Missing
  }

  /** What each job reports. */
  function Expected(s: Setting, i: nat): Report
    requires s.tree.Valid() && i < |s.jobs| && Dest(s, i).Ok?
  {
    var dest, kind := Dest(s, i).value, KindOf(s, i);
    if ReadMessage(s.tree, s.start, s.jobs[i]).None? then Unread
    else if !Signs(s, i) then Unsigned
    else if s.force then
      Written(if kind.SymLink? then Failure(OutputIsSymlink(dest))
              else if kind.SubDir? then Failure(FileWrite(dest)) else Success)
    else Written(if kind == Missing then Success else Failure(FileExists(dest)))
  }

  function CallsOf(script: Script, i: nat): nat -> Answer {
    (n: nat) => script(i, n)
  }

  /** A job that writes runs its program. */
  lemma {:induction false} AloneRuns(s: Setting, script: Script, i: nat, n: nat) returns (m: nat)
    requires s.tree.Valid() && i < |s.jobs| && Alone(s, script, i, n).0.Writing?
    ensures var (disk, _, r) := RunAll(Alone(s, script, i, n).0.rest, Alone(s, script, i, n).1, n, CallsOf(script, i));
            Alone(s, script, i, m) == (Stopped(Written(r)), disk)
    decreases Alone(s, script, i, n).0.rest
  {
    if Alone(s, script, i, n).0.rest.Done? {
      m := n + 1;
    } else {
      m := AloneRuns(s, script, i, n + 1);
    }
  }

  /** The program a job comes to write with. */
  function Program(s: Setting, i: nat): Prog
    requires s.tree.Valid() && i < |s.jobs| && Dest(s, i).Ok? && Signs(s, i)
  {
    WriteFile(s.jobs[i].tmp, Dest(s, i).value, KindOf(s, i), Signature(s, i), s.force)
  }

  lemma JobWrites(s: Setting, script: Script, i: nat)
    requires Checked(s) && i < |s.jobs| && script(i, 0).ok && script(i, 1).ok
    ensures Dest(s, i).Ok?
    ensures Alone(s, script, i, 2) ==
              if Signs(s, i) then (Writing(Program(s, i)), s.start) else (Stopped(Expected(s, i)), s.start)
  {
    assert Apart(s, i, i);
    PassesAtStart(s, i);
    DefaultDestination(s.tree, s.start, s.jobs[i].message);
    assert Alone(s, script, i, 0) == (Checking, s.start);
    assert Alone(s, script, i, 1) == (Reading, s.start);
  }

  /** The end of that program: the report, and the signature where the report is Ok. */
  lemma ProgramEnds(s: Setting, i: nat, clock: nat, calls: nat -> Answer)
    requires Checked(s) && i < |s.jobs| && Signs(s, i) && forall n :: calls(n).ok
    ensures Dest(s, i).Ok?
    ensures var (disk, _, r) := RunAll(Program(s, i), s.start, clock, calls);
            Written(r) == Expected(s, i) &&
            disk == if r == Success then s.start[Dest(s, i).value := Signature(s, i)] else s.start
  {
    assert Apart(s, i, i) && New(s, i, i);
    var tmp, dest, kind, file := s.jobs[i].tmp, Dest(s, i).value, KindOf(s, i), Signature(s, i);
    KindMeaning(s, i);
    GrantedIsLegal(WriteFile(tmp, dest, kind, file, s.force), s.start, clock, calls);
    if !s.force {
      UnforcedCreates(tmp, dest, kind, file, s.start, {}, clock, calls);
    } else if kind.SymLink? {
      ForcedRefusesLink(tmp, dest, kind, file, s.start, clock, calls);
      assert calls(clock).ok;
    } else if kind.SubDir? {
      ForcedDirectoryError(tmp, dest, kind, file, s.start, {}, clock, calls);
    } else {
      ForcedReplaces(tmp, dest, kind, file, s.start, {}, clock, calls);
    }
  }

  lemma KindMeaning(s: Setting, i: nat)
    requires Checked(s) && i < |s.jobs|
    ensures Dest(s, i).Ok?
    ensures Replaceable(KindOf(s, i)) ==> (KindOf(s, i) == Missing <==> Dest(s, i).value !in s.start)
  {
    assert Apart(s, i, i);
    DefaultDestination(s.tree, s.start, s.jobs[i].message);
  }

  lemma AloneEnds(s: Setting, script: Script, i: nat) returns (m: nat)
    requires Checked(s) && i < |s.jobs| && forall n :: script(i, n).ok
    ensures Dest(s, i).Ok?
    ensures Alone(s, script, i, m).0 == Stopped(Expected(s, i))
    ensures Expected(s, i) == Written(Success) ==>
              Signs(s, i) && Alone(s, script, i, m).1 == s.start[Dest(s, i).value := Signature(s, i)]
  {
    JobWrites(s, script, i);
    if Signs(s, i) {
      ProgramEnds(s, i, 2, CallsOf(script, i));
      m := AloneRuns(s, script, i, 2);
    } else {
      m := 2;
    }
  }

  /** In whatever order the jobs come to their end: each reports what becomes of its message, its
      signature and its destination, and where that is Ok the signature file is there. */
  lemma GrantedBatch(s: Setting, script: Script, turns: seq<nat>, i: nat)
    requires Checked(s) && KeyClear(s) && i < |s.jobs| && forall k, n :: script(k, n).ok
    requires Complete(Interleave(s, script, Begin(s), turns))
    ensures Dest(s, i).Ok?
    ensures var w := Interleave(s, script, Begin(s), turns);
            w.states[i] == Stopped(Expected(s, i)) &&
            (Expected(s, i) == Written(Success) ==>
               Signs(s, i) && Lookup(w.disk, Dest(s, i).value) == Some(Signature(s, i)))
  {
    var w := Interleave(s, script, Begin(s), turns);
    AlwaysIndependent(s, script, turns);
    assert AsAlone(s, script, w, i);
    var m := AloneEnds(s, script, i);
    StoppedAlike(s, script, i, w.clocks[i], m);
    assert Dest(s, i).value in Own(s, i);
  }
}
