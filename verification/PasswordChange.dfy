/** Changing the password of a key file (rs/src/ops/change.rs): the key is decrypted, encrypted
    anew, and the file replaced atomically. Composed with the atomic replacement, a crash at any
    step leaves a file that one of the two passwords opens. */
module PasswordChange {
  import opened Basics
  import opened Utf8
  import opened SignatureText
  import opened Kdf
  import opened SecretKey
  import Lines
  import Base64
  import D = Disk
  import A = AtomicWrite
  import F = FileWriter

  /** "minisign secret key" and "minisign encrypted secret key". */
  const PLAIN_COMMENT: Bytes :=
    [109, 105, 110, 105, 115, 105, 103, 110, 32, 115, 101, 99, 114, 101, 116, 32, 107, 101, 121]
  const ENCRYPTED_COMMENT: Bytes :=
    [109, 105, 110, 105, 115, 105, 103, 110, 32, 101, 110, 99, 114, 121, 112, 116, 101, 100, 32,
     115, 101, 99, 114, 101, 116, 32, 107, 101, 121]

  /** One call: the passwords given, what it is to change to, its salt, its fresh names, and what
      the operating system answers. Fewer answers than calls are a crash. */
  datatype Change = Change(
    oldPassword: Option<Bytes>, newPassword: Option<Bytes>, unprotect: bool,
    logN: nat, forceWeak: bool, debug: bool, salt: Bytes,
    tmp: D.Name, ino: nat, answers: seq<D.Answer>)
  {
    /** The password (or none) that opens the new file. */
    function Opens(): Option<Bytes> {
      if unprotect then None else newPassword
    }
  }

  // ---- what is written ---------------------------------------------------------------------------

  function NewStruct(c: Primitives, ch: Change, key: Key): Result<SeckeyStruct, KeyError>
    requires c.WellSized() && key.Sized()
  {
    if ch.unprotect then Ok(NewUnencrypted(key))
    else if ch.newPassword.None? then Err(PasswordRequired)
    else
      match Calculate(ch.logN, ch.forceWeak, ch.debug)
      case Err(e) => Err(BadKdf(e))
      case Ok(l) =>
        LimitsAreWords(ch.logN, ch.forceWeak, ch.debug);
        NewEncrypted(c, key, ch.newPassword.value, ch.salt, l.ops, l.mem)
  }

  lemma LimitsAreWords(logN: nat, forceWeak: bool, debug: bool)
    requires Calculate(logN, forceWeak, debug).Ok?
    ensures var l := Calculate(logN, forceWeak, debug).value;
            l.ops < TWO_TO_64 && l.mem < TWO_TO_64
  {
  }

  function CommentFor(ch: Change): Bytes {
    if ch.unprotect then PLAIN_COMMENT else ENCRYPTED_COMMENT
  }

  /** The key a file yields. */
  function Extracted(c: Primitives, contents: Bytes, password: Option<Bytes>): Result<Key, KeyError>
    requires c.WellSized()
  {
    match LoadSecretKey(contents)
    case Err(e) => Err(e)
    case Ok(s) => LoadedIsSized(contents); ExtractKey(c, s, password)
  }

  lemma LoadedIsSized(contents: Bytes)
    requires LoadSecretKey(contents).Ok?
    ensures LoadSecretKey(contents).value.Sized()
  {
    var data := Base64.StrictDecode(Lines.Split(contents)[1]).value;
    SecretKey.StructInverse(data, LoadSecretKey(contents).value);
  }

  lemma ExtractedIsSized(c: Primitives, contents: Bytes, password: Option<Bytes>)
    requires c.WellSized() && Extracted(c, contents, password).Ok?
    ensures Extracted(c, contents, password).value.Sized()
  {
    LoadedIsSized(contents);
  }

  /** The new contents, or the error that comes before anything is written. */
  function NewContents(c: Primitives, ch: Change, contents: Bytes): Result<Bytes, KeyError>
    requires c.WellSized()
  {
    match Extracted(c, contents, ch.oldPassword)
    case Err(e) => Err(e)
    case Ok(key) =>
      ExtractedIsSized(c, contents, ch.oldPassword);
      match NewStruct(c, ch, key)
      case Err(e) => Err(e)
      case Ok(s) => ToFile(s, CommentFor(ch))
  }

  /** What is written opens with the new password, and yields the key that was extracted. */
  lemma NewContentsOpen(c: Primitives, ch: Change, contents: Bytes)
    requires c.WellSized() && |ch.salt| == KDF_SALT_BYTES
    requires NewContents(c, ch, contents).Ok?
    ensures Extracted(c, NewContents(c, ch, contents).value, ch.Opens()) ==
              Extracted(c, contents, ch.oldPassword)
  {
    var key := Extracted(c, contents, ch.oldPassword).value;
    ExtractedIsSized(c, contents, ch.oldPassword);
    var s := NewStruct(c, ch, key).value;
    NewStructOpens(c, ch, key);
    WrittenLoads(s, CommentFor(ch));
  }

  lemma NewStructOpens(c: Primitives, ch: Change, key: Key)
    requires c.WellSized() && |ch.salt| == KDF_SALT_BYTES && key.Sized()
    requires NewStruct(c, ch, key).Ok?
    ensures var s := NewStruct(c, ch, key).value;
            s.Sized() && ExtractKey(c, s.AsRead(), ch.Opens()) == Ok(key)
  {
    if !ch.unprotect {
      var l := Calculate(ch.logN, ch.forceWeak, ch.debug).value;
      LimitsAreWords(ch.logN, ch.forceWeak, ch.debug);
      EncryptionRoundTrip(c, key, ch.newPassword.value, ch.salt, l.ops, l.mem);
    }
  }

  /** Visible ASCII and spaces, and not too long for a comment. */
  predicate Plain(comment: Bytes) {
    |comment| < 100 && forall k :: 0 <= k < |comment| ==> 0x20 <= comment[k] && comment[k] <= 0x7E
  }

  lemma PlainIsValid(comment: Bytes)
    requires Plain(comment)
    ensures ValidUntrusted(comment)
  {
    PlainText(comment);
  }

  lemma PlainCommentPlain()
    ensures Plain(PLAIN_COMMENT)
  {
  }

  lemma EncryptedCommentPlain()
    ensures Plain(ENCRYPTED_COMMENT)
  {
  }

  lemma CommentsPlain(ch: Change)
    ensures Plain(CommentFor(ch))
  {
    PlainCommentPlain();
    EncryptedCommentPlain();
  }

  /** Exactly when there are new contents: the old password opens the file; and either the key is to
      be unprotected, or there is a new password, the limits can be calculated, and the derivation
      with them yields a key stream. */
  lemma NewContentsIff(c: Primitives, ch: Change, contents: Bytes)
    requires c.WellSized()
    ensures NewContents(c, ch, contents).Ok? <==>
              Extracted(c, contents, ch.oldPassword).Ok? &&
              (ch.unprotect ||
                 (ch.newPassword.Some? && (if ch.forceWeak then ch.debug else ch.logN <= 53) &&
                  Limited(ch) && KeyStream(c, ch.newPassword.value, ch.salt, Ops(ch), Mem(ch)).Ok?))
  {
    CommentsPlain(ch);
    PlainIsValid(CommentFor(ch));
    AskedIsCalculated(ch);
  }

  /** The limits asked for: those of 2^logN, or the weak ones of a debug build. */
  function Asked(ch: Change): Limits {
    if ch.forceWeak then Limits(4194304, 134217728) else Limits(32 * Pow2(ch.logN), 1024 * Pow2(ch.logN))
  }

  predicate Limited(ch: Change) {
    Asked(ch).ops < TWO_TO_64 && Asked(ch).mem < TWO_TO_64
  }

  function Ops(ch: Change): nat { Asked(ch).ops }
  function Mem(ch: Change): nat { Asked(ch).mem }

  lemma AskedIsCalculated(ch: Change)
    ensures Calculate(ch.logN, ch.forceWeak, ch.debug).Ok? ==>
              Limited(ch) && Calculate(ch.logN, ch.forceWeak, ch.debug).value == Asked(ch)
    ensures Calculate(ch.logN, ch.forceWeak, ch.debug).Ok? <==>
              if ch.forceWeak then ch.debug else ch.logN <= 53
  {
    CalculateMeaning(ch.logN, ch.debug, LimitsFor(ch.logN));
    if Calculate(ch.logN, ch.forceWeak, ch.debug).Ok? {
      LimitsAreWords(ch.logN, ch.forceWeak, ch.debug);
      if !ch.forceWeak {
        CalculateMeaning(ch.logN, ch.debug, Calculate(ch.logN, ch.forceWeak, ch.debug).value);
      }
    }
  }

  lemma NewStructIs(c: Primitives, ch: Change, key: Key)
    requires c.WellSized() && key.Sized() && NewStruct(c, ch, key).Ok?
    ensures var s := NewStruct(c, ch, key).value;
            s.encrypted == !ch.unprotect &&
            (ch.unprotect ==> s == NewUnencrypted(key)) &&
            (!ch.unprotect ==> s.salt == ch.salt && LimitsOf(s.ops, s.mem) == Asked(ch))
  {
    AskedIsCalculated(ch);
  }

  lemma LoadedIs(c: Primitives, ch: Change, contents: Bytes) returns (key: Key, s: SeckeyStruct)
    requires c.WellSized() && |ch.salt| == KDF_SALT_BYTES
    requires NewContents(c, ch, contents).Ok?
    ensures Extracted(c, contents, ch.oldPassword) == Ok(key) && key.Sized() && NewStruct(c, ch, key) == Ok(s)
    ensures LoadSecretKey(NewContents(c, ch, contents).value) == Ok(s.AsRead())
  {
    key := Extracted(c, contents, ch.oldPassword).value;
    ExtractedIsSized(c, contents, ch.oldPassword);
    s := NewStruct(c, ch, key).value;
    NewStructOpens(c, ch, key);
    WrittenLoads(s, CommentFor(ch));
  }

  /** What is written, as it is loaded: the key in the clear without parameters; or encrypted, with
      the limits asked for and the new salt. */
  lemma NewContentsAre(c: Primitives, ch: Change, contents: Bytes)
    requires c.WellSized() && |ch.salt| == KDF_SALT_BYTES
    requires NewContents(c, ch, contents).Ok?
    ensures LoadSecretKey(NewContents(c, ch, contents).value).Ok?
    ensures var s := LoadSecretKey(NewContents(c, ch, contents).value).value;
            s.encrypted == !ch.unprotect &&
            (ch.unprotect ==>
               Ok(Key(s.secretKey, s.keynum)) == Extracted(c, contents, ch.oldPassword) &&
               s.salt == Zeros(KDF_SALT_BYTES) && s.ops == 0 && s.mem == 0 && s.checksum == Zeros(CHECKSUM_BYTES)) &&
            (!ch.unprotect ==> s.salt == ch.salt && LimitsOf(s.ops, s.mem) == Asked(ch))
  {
    var key, s := LoadedIs(c, ch, contents);
    NewStructIs(c, ch, key);
  }

  // ---- one call -------------------------------------------------------------------------------------

  function FileOf(ch: Change, contents: Bytes): D.File {
    D.File(ch.ino, contents)
  }

  /** The directory after a call, or after the part of it that ran before a crash. */
  function After(c: Primitives, path: D.Name, disk: D.Disk, ch: Change): D.Disk
    requires c.WellSized()
  {
    if path !in disk then disk
    else
      match NewContents(c, ch, disk[path].data)
      case Err(_) => disk
      case Ok(contents) =>
        D.Run(A.AtomicReplace(path, ch.tmp, FileOf(ch, contents), true), disk, ch.answers).1
  }

  ghost predicate Ready(path: D.Name, disk: D.Disk, ch: Change) {
    A.Fresh(path, ch.tmp, disk) && |ch.salt| == KDF_SALT_BYTES
  }

  /** The file at `path` decodes and the password yields the key. */
  predicate Holds(c: Primitives, path: D.Name, disk: D.Disk, password: Option<Bytes>, key: Key)
    requires c.WellSized()
  {
    path in disk && Extracted(c, disk[path].data, password) == Ok(key)
  }

  /** The password given for the present file is refused or yields the key: no other password
      passes the checksum by accident. */
  predicate NotFooled(c: Primitives, path: D.Name, disk: D.Disk, ch: Change, key: Key)
    requires c.WellSized()
  {
    path in disk ==>
      var r := Extracted(c, disk[path].data, ch.oldPassword);
      r.Err? || r == Ok(key)
  }

  /** At every step of a call the file is the old one or the complete new one, and the new one
      yields with its password what the old one yielded with the password given. */
  lemma OldOrNew(c: Primitives, path: D.Name, disk: D.Disk, ch: Change)
    requires c.WellSized() && Ready(path, disk, ch)
    ensures var disk' := After(c, path, disk, ch);
            D.Lookup(disk', path) == D.Lookup(disk, path) ||
            (path in disk && path in disk' && NewContents(c, ch, disk[path].data).Ok? &&
             Extracted(c, disk'[path].data, ch.Opens()) == Extracted(c, disk[path].data, ch.oldPassword))
    ensures forall p :: p != path && p != ch.tmp ==>
              D.Lookup(After(c, path, disk, ch), p) == D.Lookup(disk, p)
  {
    if path in disk && NewContents(c, ch, disk[path].data).Ok? {
      var contents := NewContents(c, ch, disk[path].data).value;
      A.ReplaceCutOff(path, ch.tmp, FileOf(ch, contents), true, disk, ch.answers);
      NewContentsOpen(c, ch, disk[path].data);
    }
  }

  /** Crash safety of one call. */
  lemma ChangeKeepsKey(c: Primitives, path: D.Name, disk: D.Disk, ch: Change, password: Option<Bytes>, key: Key)
    requires c.WellSized() && Ready(path, disk, ch)
    requires Holds(c, path, disk, password, key) && NotFooled(c, path, disk, ch, key)
    ensures var disk' := After(c, path, disk, ch);
            Holds(c, path, disk', password, key) || Holds(c, path, disk', ch.Opens(), key)
  {
    OldOrNew(c, path, disk, ch);
    if NewContents(c, ch, disk[path].data).Ok? {
      assert Extracted(c, disk[path].data, ch.oldPassword).Ok?;
    }
  }

  /** The condition is needed: after a call that reports success the new password yields the key
      exactly when the password given for the old file did. */
  lemma SuccessYieldsKeyIff(c: Primitives, path: D.Name, disk: D.Disk, ch: Change, key: Key)
    requires c.WellSized() && Ready(path, disk, ch) && path in disk
    requires NewContents(c, ch, disk[path].data).Ok?
    requires var file := FileOf(ch, NewContents(c, ch, disk[path].data).value);
             D.Run(A.AtomicReplace(path, ch.tmp, file, true), disk, ch.answers).0 == D.Done(D.Success)
    ensures Holds(c, path, After(c, path, disk, ch), ch.Opens(), key) <==>
              Extracted(c, disk[path].data, ch.oldPassword) == Ok(key)
  {
    var file := FileOf(ch, NewContents(c, ch, disk[path].data).value);
    A.ReplacePhases(path, ch.tmp, file, true);
    D.AnyAnswersLegal(A.AtomicReplace(path, ch.tmp, file, true), disk, ch.answers, {D.Forward, D.Cleanup});
    A.ReplaceIsAtomic(path, ch.tmp, file, true, disk, {D.Forward, D.Cleanup}, ch.answers);
    NewContentsOpen(c, ch, disk[path].data);
  }

  // ---- any history ----------------------------------------------------------------------------------

  function AfterAll(c: Primitives, path: D.Name, disk: D.Disk, history: seq<Change>): D.Disk
    requires c.WellSized()
    decreases |history|
  {
    if history == [] then disk
    else AfterAll(c, path, After(c, path, disk, history[0]), history[1..])
  }

  ghost predicate Admissible(c: Primitives, path: D.Name, disk: D.Disk, history: seq<Change>, key: Key)
    requires c.WellSized()
    decreases |history|
  {
    history == [] ||
    (Ready(path, disk, history[0]) && NotFooled(c, path, disk, history[0], key) &&
     Admissible(c, path, After(c, path, disk, history[0]), history[1..], key))
  }

  /** The passwords that are or were to open the file. */
  function Passwords(password: Option<Bytes>, history: seq<Change>): set<Option<Bytes>>
    decreases |history|
  {
    if history == [] then {password}
    else {password} + Passwords(history[0].Opens(), history[1..])
  }

  /** Over any history of calls, each cut off or failing anywhere, the key file always decodes and
      yields the original key with the password it had before the last call or with the one the
      last call set. */
  lemma {:induction false} KeyNeverLost(
      c: Primitives, path: D.Name, disk: D.Disk, history: seq<Change>, password: Option<Bytes>, key: Key)
    requires c.WellSized() && Holds(c, path, disk, password, key)
    requires Admissible(c, path, disk, history, key)
    ensures exists p :: p in Passwords(password, history) &&
                        Holds(c, path, AfterAll(c, path, disk, history), p, key)
    ensures history != [] ==>
              var before := AfterAll(c, path, disk, history[..|history| - 1]);
              var now := AfterAll(c, path, disk, history);
              exists p :: p in Passwords(password, history[..|history| - 1]) &&
                          Holds(c, path, before, p, key) &&
                          (Holds(c, path, now, p, key) ||
                           Holds(c, path, now, history[|history| - 1].Opens(), key))
    decreases |history|
  {
    if history == [] {
      assert password in Passwords(password, history);
    } else {
      SplitLast(c, path, disk, history, key);
      PasswordsGrow(password, history);
      var earlier, last := history[..|history| - 1], history[|history| - 1];
      var before := AfterAll(c, path, disk, earlier);
      KeyNeverLost(c, path, disk, earlier, password, key);
      var p :| p in Passwords(password, earlier) && Holds(c, path, before, p, key);
      ChangeKeepsKey(c, path, before, last, p, key);
    }
  }

  lemma {:induction false} PasswordsGrow(password: Option<Bytes>, history: seq<Change>)
    requires history != []
    ensures Passwords(password, history[..|history| - 1]) <= Passwords(password, history)
    ensures history[|history| - 1].Opens() in Passwords(password, history)
    decreases |history|
  {
    if |history| > 1 {
      PasswordsGrow(history[0].Opens(), history[1..]);
      assert history[..|history| - 1][1..] == history[1..][..|history| - 2];
    }
  }

  lemma {:induction false} SplitLast(
      c: Primitives, path: D.Name, disk: D.Disk, history: seq<Change>, key: Key)
    requires c.WellSized() && history != [] && Admissible(c, path, disk, history, key)
    ensures var earlier, last := history[..|history| - 1], history[|history| - 1];
            var before := AfterAll(c, path, disk, earlier);
            Admissible(c, path, disk, earlier, key) &&
            Ready(path, before, last) && NotFooled(c, path, before, last, key) &&
            AfterAll(c, path, disk, history) == After(c, path, before, last)
    decreases |history|
  {
    var earlier := history[..|history| - 1];
    if |history| == 1 {
      assert earlier == [] && history[1..] == [];
    } else {
      var next, rest := After(c, path, disk, history[0]), history[1..];
      SplitLast(c, path, next, rest, key);
      assert earlier == [history[0]] + rest[..|rest| - 1];
      assert AfterAll(c, path, disk, earlier) == AfterAll(c, path, next, rest[..|rest| - 1]);
      assert rest[|rest| - 1] == history[|history| - 1];
    }
  }

  // ---- the call as it is executed ---------------------------------------------------------------------

  datatype ChangeResult = NotRead | NotWritten(reason: KeyError) | Finished(verdict: D.Verdict)

  /** `change_with_log_n`. */
  method ChangeWithLogN(fs: D.FileSystem, c: Primitives, path: D.Name, ch: Change)
    returns (r: ChangeResult)
    requires c.WellSized() && Ready(path, fs.disk, ch)
    modifies fs
    ensures r.NotRead? <==> path !in old(fs.disk)
    ensures path in old(fs.disk) ==>
              var n := NewContents(c, ch, old(fs.disk)[path].data);
              match n
              case Err(e) => r == NotWritten(e)
              case Ok(contents) =>
                r.Finished? &&
                (fs.disk, fs.clock, r.verdict) ==
                  old(fs.Outcome(A.AtomicReplace(path, ch.tmp, FileOf(ch, contents), true)))
    ensures !r.Finished? ==> fs.disk == old(fs.disk)
    ensures (forall n :: fs.script(n).ok) && path in old(fs.disk) &&
            NewContents(c, ch, old(fs.disk)[path].data).Ok? ==>
              r == Finished(D.Success) &&
              fs.disk == old(fs.disk)[path := FileOf(ch, NewContents(c, ch, old(fs.disk)[path].data).value)]
    ensures r == Finished(D.Success) ==>
              path in fs.disk &&
              Extracted(c, fs.disk[path].data, ch.Opens()) ==
                Extracted(c, old(fs.disk)[path].data, ch.oldPassword)
    ensures r.Finished? && r.verdict != D.Success && !(r.verdict.Failure? && r.verdict.error.ParentSync?) ==>
              D.Lookup(fs.disk, path) == D.Lookup(old(fs.disk), path)
  {
    if path !in fs.disk { return NotRead; }
    ghost var oldContents := fs.disk[path].data;
    var loaded := LoadSecretKey(fs.disk[path].data);
    if loaded.Err? { return NotWritten(loaded.error); }
    LoadedIsSized(fs.disk[path].data);
    var seckey := loaded.value;
    var key: Key;
    if !seckey.encrypted {
      key := Key(seckey.secretKey, seckey.keynum);
    } else if ch.oldPassword.None? {
      return NotWritten(PasswordRequired);
    } else {
      var unlocked := DecryptKey(c, seckey, ch.oldPassword.value);
      if unlocked.Err? { return NotWritten(unlocked.error); }
      key := unlocked.value;
    }
    ExtractedIsSized(c, oldContents, ch.oldPassword);
    var s := MakeStruct(c, ch, key);
    if s.Err? { return NotWritten(s.error); }
    var contents := ToFile(s.value, CommentFor(ch));
    if contents.Err? { return NotWritten(contents.error); }
    NewContentsOpen(c, ch, oldContents);
    A.ReplaceOutcome(path, ch.tmp, FileOf(ch, contents.value), true, fs.disk, fs.clock, fs.script);
    GrantedReplaces(path, ch.tmp, FileOf(ch, contents.value), fs.disk, fs.clock, fs.script);
    ghost var before := fs.disk;
    var v := F.AtomicReplaceFile(fs, path, ch.tmp, FileOf(ch, contents.value), true);
    ReplacedCases(path, ch.tmp, FileOf(ch, contents.value), before, v, fs.disk);
    return Finished(v);
  }

  lemma GrantedReplaces(path: D.Name, tmp: D.Name, file: D.File, disk: D.Disk, clock: nat, script: nat -> D.Answer)
    requires A.Fresh(path, tmp, disk)
    ensures (forall n :: script(n).ok) ==>
              var (disk', _, v) := D.RunAll(A.AtomicReplace(path, tmp, file, true), disk, clock, script);
              v == D.Success && disk' == disk[path := file]
  {
    if forall n :: script(n).ok {
      D.GrantedIsLegal(A.AtomicReplace(path, tmp, file, true), disk, clock, script);
      A.ReplaceSucceeds(path, tmp, file, true, disk, {}, clock, script);
    }
  }

  lemma ReplacedCases(path: D.Name, tmp: D.Name, file: D.File, start: D.Disk, v: D.Verdict, disk: D.Disk)
    requires A.Replaced(path, tmp, file, start, {D.Forward, D.Cleanup}, D.Done(v), disk)
    ensures v == D.Success ==> D.Lookup(disk, path) == Some(file)
    ensures v != D.Success && !(v.Failure? && v.error.ParentSync?) ==>
              D.Lookup(disk, path) == D.Lookup(start, path)
  {
  }

  method MakeStruct(c: Primitives, ch: Change, key: Key) returns (r: Result<SeckeyStruct, KeyError>)
    requires c.WellSized() && key.Sized()
    ensures r == NewStruct(c, ch, key)
  {
    if ch.unprotect { return Ok(NewUnencrypted(key)); }
    if ch.newPassword.None? { return Err(PasswordRequired); }
    var l := Calculate(ch.logN, ch.forceWeak, ch.debug);
    if l.Err? { return Err(BadKdf(l.error)); }
    LimitsAreWords(ch.logN, ch.forceWeak, ch.debug);
    r := EncryptKey(c, key, ch.newPassword.value, ch.salt, l.value.ops, l.value.mem);
  }
}
