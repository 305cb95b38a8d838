/** A directory of files, the system calls the key and signature writers issue on it, and
    programs of such calls.

    Every transaction in the repository is loop-free, so it is written as a finite tree: each
    node is one system call, with one branch for each way the call can return. A run consumes
    one `Answer` per call; cutting the answers short is a crash at that point. */
module Disk {
  import opened Basics

  /** The canonical name of a directory entry: the names on the way from the root. */
  type Name = seq<string>

  /** `ino` identifies the file itself: a hard link shares it, a rename carries it along. */
  datatype File = File(ino: nat, data: Bytes)

  type Disk = map<Name, File>

  /** `WriteSome` then `WriteRest` is one `write_all`: some prefix reaches the file first. */
  datatype Op =
    | CreateNew(path: Name, ino: nat)
    | SetMode(path: Name)
    | WriteSome(path: Name, data: Bytes)
    | WriteRest(path: Name, data: Bytes)
    | SyncFile(path: Name)
    | SyncDir(path: Name)
    | Link(source: Name, path: Name)
    | Rename(source: Name, path: Name)
    | Remove(path: Name)
    | Probe(path: Name)
    | Inspect(path: Name)

  /** What the operating system decides: whether the call is let through, and how much of a
      write lands before the call returns or the machine stops. */
  datatype Answer = Answer(ok: bool, part: nat)

  datatype Reply = Fine | AlreadyExists | Failed

  function Prefix(data: Bytes, part: nat): Bytes {
    if part < |data| then data[..part] else data
  }

  /** One system call. A call that fails leaves the directory as it was; `Probe` is
      `Path::exists`, which reports an error as absence; `Inspect` looks at an entry without
      following it. */
  function Perform(op: Op, disk: Disk, a: Answer): (Disk, Reply) {
    match op
    case CreateNew(p, ino) =>
      if !a.ok then (disk, Failed)
      else if p in disk then (disk, AlreadyExists)
      else (disk[p := File(ino, [])], Fine)
    case WriteSome(p, data) =>
      (if p in disk then disk[p := disk[p].(data := Prefix(data, a.part))] else disk,
       if a.ok then Fine else Failed)
    case WriteRest(p, data) =>
      if !a.ok then (disk, Failed)
      else (if p in disk then disk[p := disk[p].(data := data)] else disk, Fine)
    case Link(s, p) =>
      if !a.ok || s !in disk then (disk, Failed)
      else if p in disk then (disk, AlreadyExists)
      else (disk[p := disk[s]], Fine)
    case Rename(s, p) =>
      if !a.ok || s !in disk then (disk, Failed)
      else ((disk - {s})[p := disk[s]], Fine)
    case Remove(p) =>
      if !a.ok || p !in disk then (disk, Failed)
      else (disk - {p}, Fine)
    case Probe(p) =>
      (disk, if a.ok && p in disk then Fine else Failed)
    case _ =>
      (disk, if a.ok then Fine else Failed)
  }

  /** Why a call is made. `Undo` puts a final path back; `Cleanup` removes a staged file;
      `Finish` removes a backup after the commit has returned. */
  datatype Phase = Check(path: Name) | Forward | Undo | Cleanup | Finish

  /** `ParentSync` is the write error that names the parent directory of `path`. */
  datatype Error =
    | FileExists(path: Name)
    | FileWrite(path: Name)
    | ParentSync(path: Name)
    | LockTimeout
    | OutputIsSymlink(path: Name)

  /** How far a keypair commit got before it failed. */
  datatype Stage = Started | PublicRenamed | SecretRenamed

  datatype Verdict =
    | Success
    | Failure(error: Error)
    | CommitFailure(error: Error, stage: Stage)

  datatype Prog =
    | Done(result: Verdict)
    | Do(op: Op, phase: Phase, fine: Prog, taken: Prog, failed: Prog)

  /** A call whose caller does not tell `AlreadyExists` from other errors. */
  function Step(op: Op, phase: Phase, fine: Prog, failed: Prog): Prog {
    Do(op, phase, fine, failed, failed)
  }

  /** A call whose failure is only warned about. */
  function Then(op: Op, phase: Phase, next: Prog): Prog {
    Step(op, phase, next, next)
  }

  function Next(prog: Prog, reply: Reply): (next: Prog)
    requires prog.Do?
    ensures next < prog
  {
    match reply
    case Fine => prog.fine
    case AlreadyExists => prog.taken
    case Failed => prog.failed
  }

  /** The faults considered: calls in a phase outside `faults` are let through. */
  predicate Allowed(phase: Phase, a: Answer, faults: set<Phase>) {
    a.ok || phase in faults
  }

  /** What is left to do and the directory after the answers are used up. */
  function Run(prog: Prog, disk: Disk, answers: seq<Answer>): (Prog, Disk)
    decreases |answers|
  {
    if prog.Done? || answers == [] then (prog, disk)
    else
      var (disk', reply) := Perform(prog.op, disk, answers[0]);
      Run(Next(prog, reply), disk', answers[1..])
  }

  predicate Legal(prog: Prog, disk: Disk, answers: seq<Answer>, faults: set<Phase>)
    decreases |answers|
  {
    prog.Done? || answers == [] ||
    (Allowed(prog.phase, answers[0], faults) &&
     var (disk', reply) := Perform(prog.op, disk, answers[0]);
     Legal(Next(prog, reply), disk', answers[1..], faults))
  }

  /** `inv` holds now and after every further call, whatever the answers. */
  ghost predicate Always(prog: Prog, disk: Disk, faults: set<Phase>, inv: (Prog, Disk) -> bool)
    decreases prog
  {
    inv(prog, disk) &&
    (prog.Do? ==>
       forall a: Answer :: Allowed(prog.phase, a, faults) ==>
         var (disk', reply) := Perform(prog.op, disk, a);
         Always(Next(prog, reply), disk', faults, inv))
  }

  /** A call that either takes effect, leading to `after`, or fails and changes nothing. */
  lemma AlwaysEffect(prog: Prog, disk: Disk, after: Disk, faults: set<Phase>, inv: (Prog, Disk) -> bool)
    requires prog.Do? && inv(prog, disk)
    requires forall a: Answer ::
               Perform(prog.op, disk, a) == if a.ok then (after, Fine) else (disk, Failed)
    requires Always(prog.fine, after, faults, inv)
    requires Always(prog.failed, disk, faults, inv)
    ensures Always(prog, disk, faults, inv)
  {
  }

  /** A call that is let through and takes effect. */
  lemma AlwaysFine(prog: Prog, disk: Disk, faults: set<Phase>, inv: (Prog, Disk) -> bool)
    requires prog.Do? && prog.phase !in faults && inv(prog, disk)
    requires forall part :: Perform(prog.op, disk, Answer(true, part)).1 == Fine &&
                            Always(prog.fine, Perform(prog.op, disk, Answer(true, part)).0, faults, inv)
    ensures Always(prog, disk, faults, inv)
  {
    forall a: Answer | Allowed(prog.phase, a, faults)
      ensures var (disk', reply) := Perform(prog.op, disk, a);
              Always(Next(prog, reply), disk', faults, inv)
    {
      assert a == Answer(true, a.part);
    }
  }

  /** Such an invariant speaks of the end of a run alone. */
  ghost predicate OfTheEnd(inv: (Prog, Disk) -> bool) {
    forall rest: Prog, disk: Disk :: rest.Do? ==> inv(rest, disk)
  }

  /** The run has ended with this result and this directory. */
  ghost function EndsAs(r: Verdict, end: Disk): (Prog, Disk) -> bool {
    (rest: Prog, disk: Disk) => rest.Done? ==> rest.result == r && disk == end
  }

  ghost predicate SameOutside(a: Disk, b: Disk, names: set<Name>) {
    forall p :: p !in names ==> Lookup(a, p) == Lookup(b, p)
  }

  /** The same but for some names, staged ones whose removal may have failed. */
  ghost function EndsUpTo(r: Verdict, end: Disk, loose: set<Name>): (Prog, Disk) -> bool {
    (rest: Prog, disk: Disk) => rest.Done? ==> rest.result == r && SameOutside(disk, end, loose)
  }

  lemma {:induction false} AlwaysWeaker(
      prog: Prog, disk: Disk, faults: set<Phase>, inv: (Prog, Disk) -> bool, weaker: (Prog, Disk) -> bool)
    requires Always(prog, disk, faults, inv)
    requires forall rest: Prog, d: Disk :: inv(rest, d) ==> weaker(rest, d)
    ensures Always(prog, disk, faults, weaker)
    decreases prog
  {
    if prog.Do? {
      forall a: Answer | Allowed(prog.phase, a, faults)
        ensures var (disk', reply) := Perform(prog.op, disk, a);
                Always(Next(prog, reply), disk', faults, weaker)
      {
        var (disk', reply) := Perform(prog.op, disk, a);
        AlwaysWeaker(Next(prog, reply), disk', faults, inv, weaker);
      }
    }
  }

  /** `Always` speaks of exactly the configurations the legal runs reach. */
  lemma {:induction false} AlwaysHolds(
      prog: Prog, disk: Disk, faults: set<Phase>, inv: (Prog, Disk) -> bool, answers: seq<Answer>)
    requires Always(prog, disk, faults, inv)
    requires Legal(prog, disk, answers, faults)
    ensures var (rest, disk') := Run(prog, disk, answers);
            inv(rest, disk') && Always(rest, disk', faults, inv)
    decreases |answers|
  {
    if prog.Do? && answers != [] {
      var (disk', reply) := Perform(prog.op, disk, answers[0]);
      AlwaysHolds(Next(prog, reply), disk', faults, inv, answers[1..]);
    }
  }

  /** Some legal run reaches a configuration with this property. */
  ghost predicate CanReach(prog: Prog, disk: Disk, faults: set<Phase>, bad: (Prog, Disk) -> bool) {
    exists answers :: Legal(prog, disk, answers, faults) &&
                      bad(Run(prog, disk, answers).0, Run(prog, disk, answers).1)
  }

  lemma CanReachNow(prog: Prog, disk: Disk, faults: set<Phase>, bad: (Prog, Disk) -> bool)
    requires bad(prog, disk)
    ensures CanReach(prog, disk, faults, bad)
  {
    assert Legal(prog, disk, [], faults) && Run(prog, disk, []) == (prog, disk);
  }

  lemma CanReachStep(prog: Prog, disk: Disk, faults: set<Phase>, bad: (Prog, Disk) -> bool, a: Answer)
    requires prog.Do? && Allowed(prog.phase, a, faults)
    requires CanReach(Next(prog, Perform(prog.op, disk, a).1), Perform(prog.op, disk, a).0, faults, bad)
    ensures CanReach(prog, disk, faults, bad)
  {
    var (disk', reply) := Perform(prog.op, disk, a);
    var next := Next(prog, reply);
    var answers :| Legal(next, disk', answers, faults) &&
                   bad(Run(next, disk', answers).0, Run(next, disk', answers).1);
    assert ([a] + answers)[1..] == answers;
    assert Legal(prog, disk, [a] + answers, faults);
    assert Run(prog, disk, [a] + answers) == Run(next, disk', answers);
  }

  /** A run to the end under an unlimited supply of answers: the directory it leaves, the
      number of calls made, and the result. This is what the methods are proved against. */
  function RunAll(prog: Prog, disk: Disk, clock: nat, script: nat -> Answer): (Disk, nat, Verdict)
    decreases prog
  {
    match prog
    case Done(r) => (disk, clock, r)
    case Do(op, _, _, _, _) =>
      var (disk', reply) := Perform(op, disk, script(clock));
      RunAll(Next(prog, reply), disk', clock + 1, script)
  }

  predicate LegalScript(
      prog: Prog, disk: Disk, clock: nat, script: nat -> Answer, faults: set<Phase>)
    decreases prog
  {
    prog.Done? ||
    (Allowed(prog.phase, script(clock), faults) &&
     var (disk', reply) := Perform(prog.op, disk, script(clock));
     LegalScript(Next(prog, reply), disk', clock + 1, script, faults))
  }

  /** A complete run is one of the runs `Always` speaks of. */
  lemma {:induction false} RunAllHolds(
      prog: Prog, disk: Disk, faults: set<Phase>, inv: (Prog, Disk) -> bool,
      clock: nat, script: nat -> Answer)
    requires Always(prog, disk, faults, inv)
    requires LegalScript(prog, disk, clock, script, faults)
    ensures var (disk', _, r) := RunAll(prog, disk, clock, script);
            inv(Done(r), disk')
    decreases prog
  {
    if prog.Do? {
      var (disk', reply) := Perform(prog.op, disk, script(clock));
      RunAllHolds(Next(prog, reply), disk', faults, inv, clock + 1, script);
    }
  }

  /** Every call of a program is in one of these phases. */
  predicate PhasesIn(prog: Prog, phases: set<Phase>) {
    prog.Do? ==>
      prog.phase in phases &&
      PhasesIn(prog.fine, phases) && PhasesIn(prog.taken, phases) && PhasesIn(prog.failed, phases)
  }

  /** When any of them may fail, every sequence of answers is legal. */
  lemma {:induction false} AnyAnswersLegal(prog: Prog, disk: Disk, answers: seq<Answer>, faults: set<Phase>)
    requires PhasesIn(prog, faults)
    ensures Legal(prog, disk, answers, faults)
    decreases |answers|
  {
    if prog.Do? && answers != [] {
      var (disk', reply) := Perform(prog.op, disk, answers[0]);
      AnyAnswersLegal(Next(prog, reply), disk', answers[1..], faults);
    }
  }

  lemma {:induction false} AnyScriptLegal(
      prog: Prog, disk: Disk, clock: nat, script: nat -> Answer, faults: set<Phase>)
    requires PhasesIn(prog, faults)
    ensures LegalScript(prog, disk, clock, script, faults)
    decreases prog
  {
    if prog.Do? {
      var (disk', reply) := Perform(prog.op, disk, script(clock));
      AnyScriptLegal(Next(prog, reply), disk', clock + 1, script, faults);
    }
  }

  /** The names a call sees or changes. */
  function Touches(op: Op): set<Name> {
    match op
    case Link(a, b) => {a, b}
    case Rename(a, b) => {a, b}
    case _ => {op.path}
  }

  /** Every call of a program touches only these names. */
  predicate TouchesOnly(prog: Prog, names: set<Name>) {
    prog.Do? ==>
      Touches(prog.op) <= names &&
      TouchesOnly(prog.fine, names) && TouchesOnly(prog.taken, names) && TouchesOnly(prog.failed, names)
  }

  lemma UntouchedStays(op: Op, disk: Disk, a: Answer, p: Name)
    requires p !in Touches(op)
    ensures Lookup(Perform(op, disk, a).0, p) == Lookup(disk, p)
  {
  }

  /** Every way the program can end is with one of these results. */
  predicate EndsIn(prog: Prog, results: set<Verdict>) {
    match prog
    case Done(r) => r in results
    case Do(_, _, fine, taken, failed) => EndsIn(fine, results) && EndsIn(taken, results) && EndsIn(failed, results)
  }

  lemma {:induction false} RunEndsIn(prog: Prog, disk: Disk, clock: nat, script: nat -> Answer, results: set<Verdict>)
    requires EndsIn(prog, results)
    ensures RunAll(prog, disk, clock, script).2 in results
    decreases prog
  {
    if prog.Do? {
      var (disk', reply) := Perform(prog.op, disk, script(clock));
      RunEndsIn(Next(prog, reply), disk', clock + 1, script, results);
    }
  }

  lemma {:induction false} GrantedIsLegal(prog: Prog, disk: Disk, clock: nat, script: nat -> Answer)
    requires forall n :: script(n).ok
    ensures LegalScript(prog, disk, clock, script, {})
    decreases prog
  {
    if prog.Do? {
      var (disk', reply) := Perform(prog.op, disk, script(clock));
      GrantedIsLegal(Next(prog, reply), disk', clock + 1, script);
    }
  }

  function Lookup(disk: Disk, p: Name): Option<File> {
    if p in disk then Some(disk[p]) else None
  }

  lemma SameLookups(a: Disk, b: Disk)
    requires forall p :: Lookup(a, p) == Lookup(b, p)
    ensures a == b
  {
    forall p ensures p in a <==> p in b { assert Lookup(a, p) == Lookup(b, p); }
    forall p | p in a ensures a[p] == b[p] { assert Lookup(a, p) == Lookup(b, p); }
  }

  lemma EndOfRun(prog: Prog, start: Disk, faults: set<Phase>, r: Verdict, end: Disk, loose: set<Name>,
                 clock: nat, script: nat -> Answer)
    requires Always(prog, start, faults, EndsUpTo(r, end, loose)) && LegalScript(prog, start, clock, script, faults)
    ensures var (disk, _, r') := RunAll(prog, start, clock, script);
            r' == r && SameOutside(disk, end, loose) && (loose == {} ==> disk == end)
  {
    RunAllHolds(prog, start, faults, EndsUpTo(r, end, loose), clock, script);
    var (disk, _, r') := RunAll(prog, start, clock, script);
    assert EndsUpTo(r, end, loose)(Done(r'), disk);
    if loose == {} { SameLookups(disk, end); }
  }

  /** The running process: the directory it works on and the answers it will meet. */
  class FileSystem {
    var disk: Disk
    var clock: nat
    const script: nat -> Answer

    constructor (disk: Disk, script: nat -> Answer)
      ensures this.disk == disk && clock == 0 && this.script == script
    {
      this.disk, clock, this.script := disk, 0, script;
    }

    ghost function Outcome(prog: Prog): (Disk, nat, Verdict)
      reads this
    {
      RunAll(prog, disk, clock, script)
    }

    /** Issue one call. `plan` is the program being carried out; what is left of it leads
        where the whole led. */
    method Call(op: Op, ghost plan: Prog) returns (reply: Reply, ghost rest: Prog)
      requires plan.Do? && plan.op == op
      modifies this
      ensures (disk, reply) == Perform(op, old(disk), script(old(clock)))
      ensures clock == old(clock) + 1
      ensures rest == Next(plan, reply)
      ensures Outcome(rest) == old(Outcome(plan))
    {
      rest := Next(plan, Perform(op, disk, script(clock)).1);
      var (disk', r) := Perform(op, disk, script(clock));
      disk, reply, clock := disk', r, clock + 1;
    }
  }
}
