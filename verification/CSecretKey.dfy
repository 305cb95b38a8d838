/** `seckey_compute_chk`, `encrypt_key`, `decrypt_key` and `seckey_load` of src/minisign.c, on the
    158-byte structure in place, and their agreement with the Rust side byte for byte. */
module CSecretKey {
  import opened Basics
  import opened Base64
  import opened CStrings
  import opened SignatureText
  import opened LittleEndian
  import opened Kdf
  import opened SecretKey
  import opened CSignature
  import Lines

  /** libsodium's scrypt by limits (password, salt, limits, output length). */
  type PwHash = (Bytes, Bytes, Limits, nat) -> Bytes

  /** The parallelism libsodium chooses for the limits of 2^k. It raises the operations to its
      minimum of 2^15, and what N = 2^k leaves of them below that goes into parallelism. */
  function Parallelism(k: nat): nat {
    if k < 10 then Pow2(10 - k) else 1
  }

  /** What libsodium derives from the limits of 2^k that Rust may take; of k = 0 nothing is said. */
  ghost predicate SameKdf(c: Primitives, pwhash: PwHash) {
    forall password, salt, k: nat, n :: 1 <= k <= 20 ==>
      pwhash(password, salt, LimitsFor(k), n) == c.scrypt(password, salt, Params(k, 8, Parallelism(k)), n)
  }

  ghost predicate Deriving(pwhash: PwHash) {
    forall password, salt, l, n :: |pwhash(password, salt, l, n)| == n
  }

  predicate IsStruct(b: Bytes) {
    |b| == SECKEY_STRUCT_SIZE
  }

  function ChecksumOf(c: Primitives, b: Bytes): Bytes
    requires IsStruct(b)
  {
    c.blake2b256(b[..2] + b[54..62] + b[62..126])
  }

  /** The hash is fed field by field. */
  method ComputeChk(c: Primitives, b: array<Byte>) returns (chk: Bytes)
    requires b.Length == SECKEY_STRUCT_SIZE
    ensures chk == ChecksumOf(c, b[..])
  {
    var fed := b[..2];
    fed := fed + b[54..62];
    fed := fed + b[62..126];
    chk := c.blake2b256(fed);
    assert b[..2] == b[..][..2] && b[54..62] == b[..][54..62] && b[62..126] == b[..][62..126];
  }

  /** The structure `generate` hands to `encrypt_key`: zero but for the names of the algorithms
      and the key. */
  function Unlocked(encrypted: bool, key: Key): Bytes {
    Header(encrypted) + Zeros(32) + Zeros(8) + Zeros(8) + key.keynum + key.secret + Zeros(32)
  }

  // ---- encryption ---------------------------------------------------------------------------------

  /** The structure that `encrypt_key` leaves. */
  function Locked(c: Primitives, b: Bytes, salt: Bytes, ops: Word, mem: Word, stream: Bytes): Bytes
    requires c.WellSized() && IsStruct(b) && |stream| == ENCRYPTED_BLOB_SIZE
  {
    b[..6] + salt + Store(ops) + Store(mem) + Xor(b[54..126] + ChecksumOf(c, b), stream)
  }

  /** `randombytes_buf` and the two `le64_store` calls. */
  method StoreParameters(b: array<Byte>, salt: Bytes, ops: Word, mem: Word)
    requires b.Length == SECKEY_STRUCT_SIZE && |salt| == KDF_SALT_BYTES
    modifies b
    ensures b[..] == old(b[..6]) + salt + Store(ops) + Store(mem) + old(b[54..])
  {
    CopyInto(b, 6, salt);
    StoreInto(b, 38, ops);
    StoreInto(b, 46, mem);
  }

  method EncryptKey(c: Primitives, pwhash: PwHash, b: array<Byte>, pwd: array<Byte>, salt: Bytes,
                    succeeds: nat -> bool) returns (ok: bool)
    requires c.WellSized() && b.Length == SECKEY_STRUCT_SIZE && b != pwd
    requires Terminated(pwd[..]) && |salt| == KDF_SALT_BYTES
    requires Deriving(pwhash)
    modifies b
    ensures ok <==> Settled(succeeds, 0).Some?
    ensures ok ==>
              var l := Settled(succeeds, 0).value;
              l.ops < TWO_TO_64 && l.mem < TWO_TO_64 &&
              b[..] == Locked(c, old(b[..]), salt, l.ops, l.mem,
                              pwhash(CString(pwd[..]), salt, l, ENCRYPTED_BLOB_SIZE))
  {
    ghost var before := b[..];
    var l := Settle(succeeds);
    if l.None? { return false; }
    SettledFits(succeeds, 0);
    var ops, mem := l.value.ops, l.value.mem;
    var stream := pwhash(CString(pwd[..]), salt, l.value, ENCRYPTED_BLOB_SIZE);
    StoreParameters(b, salt, ops, mem);
    LockBlob(c, b, stream);
    LockedInSteps(c, before, salt, ops, mem, stream);
    return true;
  }

  lemma {:induction false} SettledFits(succeeds: nat -> bool, i: nat)
    requires i <= 7
    ensures Settled(succeeds, i).Some? ==>
              Settled(succeeds, i).value.ops < TWO_TO_64 && Settled(succeeds, i).value.mem < TWO_TO_64
    decreases 7 - i
  {
    if i < 7 {
      Pow2Bound(20 - i);
      SettledFits(succeeds, i + 1);
    }
  }

  /** The checksum, then the key stream over everything from the keynum on. */
  method LockBlob(c: Primitives, b: array<Byte>, stream: Bytes)
    requires c.WellSized() && b.Length == SECKEY_STRUCT_SIZE && |stream| == ENCRYPTED_BLOB_SIZE
    modifies b
    ensures b[..] == old(b[..54]) + Xor(old(b[54..126]) + ChecksumOf(c, old(b[..])), stream)
  {
    ghost var before := b[..];
    var chk := ComputeChk(c, b);
    CopyInto(b, 126, chk);
    assert b[54..158] == before[54..126] + chk;
    XorInto(b, 54, stream);
    assert b[..54] == before[..54];
  }

  lemma LockedInSteps(c: Primitives, b: Bytes, salt: Bytes, ops: Word, mem: Word, stream: Bytes)
    requires c.WellSized() && IsStruct(b) && |stream| == ENCRYPTED_BLOB_SIZE && |salt| == KDF_SALT_BYTES
    ensures var s := b[..6] + salt + Store(ops) + Store(mem) + b[54..];
            IsStruct(s) && ChecksumOf(c, s) == ChecksumOf(c, b) &&
            s[..54] + Xor(s[54..126] + ChecksumOf(c, s), stream) == Locked(c, b, salt, ops, mem, stream)
  {
    var head := b[..6] + salt + Store(ops) + Store(mem);
    assert |head| == 54 && head[..2] == b[..2];
    Rejoined(head, b);
  }

  lemma Rejoined(head: Bytes, b: Bytes)
    requires |head| == 54 && IsStruct(b)
    ensures var s := head + b[54..];
            IsStruct(s) && s[..54] == head && s[..2] == head[..2] &&
            s[54..62] == b[54..62] && s[62..126] == b[62..126] && s[54..126] == b[54..126]
  {
  }

  /** The bytes C writes for a fresh key are the bytes Rust writes for it with the same salt and
      limits, whenever Rust accepts the limits and the key stream. C writes none below its minimum. */
  lemma SameBytes(c: Primitives, pwhash: PwHash, key: Key, password: Bytes, salt: Bytes, k: nat)
    requires c.WellSized() && SameKdf(c, pwhash) && key.Sized() && |salt| == KDF_SALT_BYTES
    requires 10 <= k <= 20
    ensures LimitsFor(k).ops < TWO_TO_64 && LimitsFor(k).mem < TWO_TO_64
    ensures var ops, mem := LimitsFor(k).ops, LimitsFor(k).mem;
            var stream := pwhash(password, salt, LimitsFor(k), ENCRYPTED_BLOB_SIZE);
            var r := NewEncrypted(c, key, password, salt, ops, mem);
            |stream| == ENCRYPTED_BLOB_SIZE && IsStruct(Unlocked(true, key)) &&
            (r.Ok? <==> c.scryptAccepts(k, 8, 1) && !AllZero(stream[64..])) &&
            (r.Ok? ==> Locked(c, Unlocked(true, key), salt, ops, mem, stream) == SecretKey.Layout(r.value))
  {
    var l := LimitsFor(k);
    ToParamsOf(k, c.scryptAccepts);
    StreamMeaning(c, password, salt, k);
    var stream := pwhash(password, salt, l, ENCRYPTED_BLOB_SIZE);
    assert stream == c.scrypt(password, salt, Params(k, 8, 1), ENCRYPTED_BLOB_SIZE);
    SameLayout(c, key, salt, l.ops, l.mem, stream);
  }

  lemma SameLayout(c: Primitives, key: Key, salt: Bytes, ops: Word, mem: Word, stream: Bytes)
    requires c.WellSized() && key.Sized() && |salt| == KDF_SALT_BYTES && |stream| == ENCRYPTED_BLOB_SIZE
    ensures IsStruct(Unlocked(true, key)) && |Blob(c, key)| == ENCRYPTED_BLOB_SIZE
    ensures Locked(c, Unlocked(true, key), salt, ops, mem, stream) ==
              SecretKey.Layout(FromBlob(key, salt, ops, mem, Xor(Blob(c, key), stream)))
  {
    UnlockedFields(c, key);
    var blob := Xor(Blob(c, key), stream);
    var head := Header(true) + salt + Store(ops) + Store(mem);
    ThreePieces(head, blob);
  }

  lemma ThreePieces(head: Bytes, blob: Bytes)
    requires |blob| == ENCRYPTED_BLOB_SIZE
    ensures head + blob == head + blob[..8] + blob[8..72] + blob[72..]
  {
  }

  lemma UnlockedFields(c: Primitives, key: Key)
    requires c.WellSized() && key.Sized()
    ensures var b := Unlocked(true, key);
            IsStruct(b) && b[..6] == Header(true) &&
            b[54..126] + ChecksumOf(c, b) == Blob(c, key)
  {
    var b := Unlocked(true, key);
    Fields(Header(true), Zeros(32), Zeros(8), Zeros(8), key.keynum, key.secret, Zeros(32));
    assert b[..6] == Header(true) && b[..2] == SIG_ALG_NORMAL;
    assert b[54..126] == key.keynum + key.secret;
  }

  /** For the limits of 2^k the key stream is scrypt's, unless scrypt or the guard objects. */
  lemma StreamMeaning(c: Primitives, password: Bytes, salt: Bytes, k: nat)
    requires c.WellSized() && k <= 20
    requires LimitsFor(k).ops < TWO_TO_64 && LimitsFor(k).mem < TWO_TO_64
    ensures var stream := c.scrypt(password, salt, Params(k, 8, 1), ENCRYPTED_BLOB_SIZE);
            var r := KeyStream(c, password, salt, LimitsFor(k).ops, LimitsFor(k).mem);
            |stream| == ENCRYPTED_BLOB_SIZE &&
            (r.Ok? <==> c.scryptAccepts(k, 8, 1) && !AllZero(stream[64..])) &&
            (r.Ok? ==> r.value == stream)
  {
    ToParamsOf(k, c.scryptAccepts);
  }

  // ---- decryption -----------------------------------------------------------------------------------

  /** The structure `decrypt_key` leaves. */
  function Unmasked(b: Bytes, stream: Bytes): (r: Bytes)
    requires IsStruct(b) && |stream| == ENCRYPTED_BLOB_SIZE
    ensures IsStruct(r)
  {
    b[..54] + Xor(b[54..158], stream)
  }

  method UnlockBlob(c: Primitives, b: array<Byte>, stream: Bytes) returns (ok: bool)
    requires c.WellSized() && b.Length == SECKEY_STRUCT_SIZE && |stream| == ENCRYPTED_BLOB_SIZE
    modifies b
    ensures b[..] == Unmasked(old(b[..]), stream)
    ensures ok <==> ChecksumOf(c, b[..]) == b[126..158]
  {
    XorInto(b, 54, stream);
    var chk := ComputeChk(c, b);
    ok := chk == b[126..158];
  }

  /** What the derivation yields for a structure: the salt and the two limits are read from it. */
  function Derived(pwhash: PwHash, b: Bytes, password: Bytes): Bytes
    requires IsStruct(b)
  {
    pwhash(password, b[6..38], Limits(LittleEndian.Load(b[38..46]), LittleEndian.Load(b[46..54])), ENCRYPTED_BLOB_SIZE)
  }

  /** `decrypt_key`: the string in `pwd` up to its terminator is the password; `derives` says
      whether the derivation has the memory it needs. */
  method DecryptKey(c: Primitives, pwhash: PwHash, b: array<Byte>, pwd: array<Byte>, derives: bool)
    returns (ok: bool)
    requires c.WellSized() && Deriving(pwhash)
    requires b.Length == SECKEY_STRUCT_SIZE && b != pwd && Terminated(pwd[..])
    modifies b
    ensures ok <==> derives && KeyIn(c, old(b[..]), Derived(pwhash, old(b[..]), CString(pwd[..]))).Some?
    ensures ok ==> b[..] == Unmasked(old(b[..]), Derived(pwhash, old(b[..]), CString(pwd[..])))
  {
    ghost var before := b[..];
    var limits := Limits(LittleEndian.Load(b[38..46]), LittleEndian.Load(b[46..54]));
    assert b[38..46] == before[38..46] && b[46..54] == before[46..54] && b[6..38] == before[6..38];
    var stream := pwhash(CString(pwd[..]), b[6..38], limits, ENCRYPTED_BLOB_SIZE);
    if !derives { return false; }
    ok := UnlockBlob(c, b, stream);
    assert b[126..158] == b[..][126..158];
  }

  /** The key that C finds in a structure with a key stream: none when the checksum disagrees. */
  function KeyIn(c: Primitives, b: Bytes, stream: Bytes): Option<Key>
    requires IsStruct(b) && |stream| == ENCRYPTED_BLOB_SIZE
  {
    var u := Unmasked(b, stream);
    if ChecksumOf(c, u) == u[126..158] then Some(Key(u[62..126], u[54..62])) else None
  }

  /** What C finds in a structure with a password, when the derivation has its memory. */
  function Found(c: Primitives, pwhash: PwHash, b: Bytes, password: Bytes): Option<Key>
    requires IsStruct(b) && Deriving(pwhash)
  {
    KeyIn(c, b, Derived(pwhash, b, password))
  }

  /** What Rust asks of a structure besides: limits of the agreed form and within its budget, that
      scrypt takes, and a key stream that passes the guard. */
  predicate RustTakes(c: Primitives, s: SeckeyStruct, stream: Bytes) {
    RustLimits(c, s).Ok? && |stream| == ENCRYPTED_BLOB_SIZE && !AllZero(stream[64..])
  }

  function RustLimits(c: Primitives, s: SeckeyStruct): Result<Params, KdfError> {
    ToParams(LimitsOf(s.ops, s.mem), c.scryptAccepts)
  }

  /** Limits that Rust takes are not below C's minimum of operations. */
  predicate AboveMinimum(c: Primitives, s: SeckeyStruct) {
    RustLimits(c, s).Ok? ==> s.ops >= OPSLIMIT_MIN
  }

  /** What opens a structure in Rust, for every structure: limits it takes, and a key under the key
      stream of N = 2^k, r = 8 and p = 1. */
  lemma RustOpens(c: Primitives, b: Bytes, s: SeckeyStruct, password: Bytes, key: Key)
    requires c.WellSized() && SecretKey.FromBytes(b) == Ok(s) && s.encrypted
    ensures IsStruct(b) && s.Sized()
    ensures Decrypt(c, s, password) == Ok(key) <==>
              RustLimits(c, s).Ok? &&
              var p := RustLimits(c, s).value;
              var stream := c.scrypt(password, s.salt, Params(p.logN, 8, 1), ENCRYPTED_BLOB_SIZE);
              RustTakes(c, s, stream) && KeyIn(c, b, stream) == Some(key)
  {
    EncryptedFields(b, s);
    if RustLimits(c, s).Ok? {
      var p := RustLimits(c, s).value;
      ToParamsMeaning(LimitsOf(s.ops, s.mem), c.scryptAccepts, p);
      ParamsWithinBudget(LimitsOf(s.ops, s.mem), c.scryptAccepts);
      UnmaskedFields(b, Xor(b[54..158], c.scrypt(password, s.salt, p, ENCRYPTED_BLOB_SIZE)));
    }
  }

  /** What C derives for limits Rust takes: the same key stream from its minimum on; below, that of
      another parallelism. */
  lemma CDerives(c: Primitives, pwhash: PwHash, b: Bytes, s: SeckeyStruct, password: Bytes)
    requires c.WellSized() && SameKdf(c, pwhash)
    requires SecretKey.FromBytes(b) == Ok(s) && s.encrypted && RustLimits(c, s).Ok?
    ensures IsStruct(b)
    ensures var k := RustLimits(c, s).value.logN;
            k <= 20 && (k >= 10 <==> s.ops >= OPSLIMIT_MIN) && (Parallelism(k) == 1 <==> k >= 10) &&
            (k >= 1 ==> Derived(pwhash, b, password) ==
                          c.scrypt(password, s.salt, Params(k, 8, Parallelism(k)), ENCRYPTED_BLOB_SIZE))
  {
    EncryptedFields(b, s);
    var p := RustLimits(c, s).value;
    ToParamsMeaning(LimitsOf(s.ops, s.mem), c.scryptAccepts, p);
    LowExponents(p.logN);
    assert LimitsOf(s.ops, s.mem) == LimitsFor(p.logN);
  }

  lemma LowExponents(k: nat)
    ensures LimitsFor(k).ops >= OPSLIMIT_MIN <==> k >= 10
    ensures Parallelism(k) == 1 <==> k >= 10
  {
    assert Pow2(10) == 1024 && Pow2(9) == 512;
    if k < 10 { Pow2Grows(k, 9); } else { Pow2Grows(10, k); }
  }

  /** On every accepted encrypted structure, whoever wrote it, with every password: unless Rust takes
      its limits and they are below C's minimum, Rust decrypts it to a key exactly when C finds that
      key and Rust takes the limits and the key stream. */
  lemma SameDecryption(c: Primitives, pwhash: PwHash, b: Bytes, s: SeckeyStruct, password: Bytes, key: Key)
    requires c.WellSized() && Deriving(pwhash) && SameKdf(c, pwhash)
    requires SecretKey.FromBytes(b) == Ok(s) && s.encrypted
    ensures IsStruct(b) && s.Sized()
    ensures AboveMinimum(c, s) ==> SameOpening(c, pwhash, b, s, password, key)
  {
    EncryptedFields(b, s);
    RustOpens(c, b, s, password, key);
    if RustLimits(c, s).Ok? {
      CDerives(c, pwhash, b, s, password);
    }
  }

  /** The two sides agree about a structure, a password and a key, but for what Rust does not take. */
  predicate SameOpening(c: Primitives, pwhash: PwHash, b: Bytes, s: SeckeyStruct, password: Bytes, key: Key)
    requires c.WellSized() && Deriving(pwhash) && IsStruct(b) && s.Sized()
  {
    Decrypt(c, s, password) == Ok(key) <==>
      Found(c, pwhash, b, password) == Some(key) && RustTakes(c, s, Derived(pwhash, b, password))
  }

  /** So from C's minimum on, the structures C opens with a password and Rust does not are exactly
      those C finds a key in and Rust does not take; Rust opens none that C does not. */
  lemma OnlyC(c: Primitives, pwhash: PwHash, b: Bytes, s: SeckeyStruct, password: Bytes)
    requires c.WellSized() && Deriving(pwhash) && SameKdf(c, pwhash)
    requires SecretKey.FromBytes(b) == Ok(s) && s.encrypted
    ensures IsStruct(b) && s.Sized()
    ensures AboveMinimum(c, s) && Decrypt(c, s, password).Ok? ==>
              Found(c, pwhash, b, password) == Some(Decrypt(c, s, password).value)
    ensures AboveMinimum(c, s) && Found(c, pwhash, b, password).Some? ==>
              (Decrypt(c, s, password).Err? <==> !RustTakes(c, s, Derived(pwhash, b, password)))
  {
    EncryptedFields(b, s);
    if Decrypt(c, s, password).Ok? {
      SameDecryption(c, pwhash, b, s, password, Decrypt(c, s, password).value);
    }
    if Found(c, pwhash, b, password).Some? {
      SameDecryption(c, pwhash, b, s, password, Found(c, pwhash, b, password).value);
    }
  }

  /** An unencrypted structure yields both sides the key it shows. */
  lemma SameUnencrypted(c: Primitives, b: Bytes, s: SeckeyStruct, password: Option<Bytes>)
    requires c.WellSized() && SecretKey.FromBytes(b) == Ok(s) && !s.encrypted
    ensures IsStruct(b) && s.Sized()
    ensures ExtractKey(c, s, password) == Ok(Key(b[62..126], b[54..62]))
  {
  }

  lemma EncryptedFields(b: Bytes, s: SeckeyStruct)
    requires SecretKey.FromBytes(b) == Ok(s) && s.encrypted
    ensures IsStruct(b) && s.Sized() && b[..2] == SIG_ALG_NORMAL
    ensures s.encryptedKeynum + s.secretKey + s.checksum == b[54..158]
    ensures s.salt == b[6..38] && s.ops == LittleEndian.Load(b[38..46]) && s.mem == LittleEndian.Load(b[46..54])
  {
  }

  lemma UnmaskedFields(b: Bytes, plain: Bytes)
    requires IsStruct(b) && |plain| == ENCRYPTED_BLOB_SIZE
    ensures var u := b[..54] + plain;
            u[..2] == b[..2] && u[54..62] == plain[..8] && u[62..126] == plain[8..72] &&
            u[126..158] == plain[72..]
  {
  }

  // ---- the key file ---------------------------------------------------------------------------------

  const SECKEY_BUFFER := B64MaxLen(SECKEY_STRUCT_SIZE) + 2

  /** The tests `seckey_load` puts to the decoded bytes. */
  predicate Tested(b: Bytes)
    requires IsStruct(b)
  {
    b[..2] == SIG_ALG_NORMAL && b[4..6] == CHK_ALG &&
    (b[2..4] == KDF_ALG_SCRYPT || b[2..4] == KDF_ALG_NONE)
  }

  /** They are those of the Rust parser. */
  lemma TestedIffParsed(b: Bytes)
    requires IsStruct(b)
    ensures Tested(b) <==> SecretKey.FromBytes(b).Ok?
    ensures Tested(b) ==> (SecretKey.FromBytes(b).value.encrypted <==> b[2..4] == KDF_ALG_SCRYPT)
  {
  }

  /** The structure that `seckey_load` finds in a file before it decrypts. */
  function LoadStruct(contents: Bytes): (r: Option<Bytes>)
    ensures r.Some? ==> IsStruct(r.value) && Tested(r.value)
  {
    var rest := After(contents, COMMENTMAXBYTES);
    if contents == [] || rest == [] then None else StructIn(Trimmed(Line(rest, SECKEY_BUFFER)))
  }

  function StructIn(text: Bytes): (r: Option<Bytes>)
    ensures r.Some? ==> IsStruct(r.value) && Tested(r.value)
  {
    var b := DecodeExactly(text, SECKEY_STRUCT_SIZE);
    if b.Some? && Tested(b.value) then b else None
  }

  /** What is handed over of a structure that was found: the bytes of one that is not encrypted; of
      another what decrypting leaves, if the key found with the password passes its checksum. */
  ghost predicate HandedOver(found: Option<Bytes>, c: Primitives, pwhash: PwHash, password: Bytes, derives: bool,
                             r: Option<Bytes>)
    requires Deriving(pwhash) && (found.Some? ==> IsStruct(found.value))
  {
    match found
    case None => r == None
    case Some(b) =>
      if b[2..4] == KDF_ALG_SCRYPT then
        (r.Some? <==> derives && Found(c, pwhash, b, password).Some?) &&
        (r.Some? ==> r.value == Unmasked(b, Derived(pwhash, b, password)))
      else r == Some(b)
  }

  ghost function Contents(r: Option<array<Byte>>): Option<Bytes>
    reads if r.Some? then {r.value} else {}
  {
    if r.Some? then Some(r.value[..]) else None
  }

  method SeckeyLoad(fp: Stream, c: Primitives, pwhash: PwHash, pwd: array<Byte>, derives: bool)
    returns (r: Option<array<Byte>>)
    requires c.WellSized() && Deriving(pwhash) && Terminated(pwd[..])
    modifies fp
    ensures HandedOver(LoadStruct(old(fp.rest)), c, pwhash, CString(pwd[..]), derives, Contents(r))
  {
    var comment := new Byte[COMMENTMAXBYTES](_ => 0);
    var ok := fp.Gets(comment, COMMENTMAXBYTES);
    if !ok { return None; }
    var text := new Byte[SECKEY_BUFFER](_ => 0);
    ok := fp.Gets(text, SECKEY_BUFFER);
    if !ok { return None; }
    var _ := Trim(text);
    r := LoadDecoded(CString(text[..]), c, pwhash, pwd, derives);
  }

  /** The rest of `seckey_load`, from the decoding on. */
  method LoadDecoded(text: Bytes, c: Primitives, pwhash: PwHash, pwd: array<Byte>, derives: bool)
    returns (r: Option<array<Byte>>)
    requires c.WellSized() && Deriving(pwhash) && Terminated(pwd[..])
    ensures HandedOver(StructIn(text), c, pwhash, CString(pwd[..]), derives, Contents(r))
  {
    var b := new Byte[SECKEY_STRUCT_SIZE](_ => 0);
    var ok := DecodeInto(b, text);
    if !ok || b[..2] != SIG_ALG_NORMAL || b[4..6] != CHK_ALG { return None; }
    ghost var bytes := b[..];
    assert bytes[..2] == b[..2] && bytes[2..4] == b[2..4] && bytes[4..6] == b[4..6];
    if b[2..4] == KDF_ALG_SCRYPT {
      ok := DecryptKey(c, pwhash, b, pwd, derives);
      if !ok { return None; }
    } else if b[2..4] != KDF_ALG_NONE {
      return None;
    }
    return Some(b);
  }

  /** C finds in every key file that Rust writes the bytes that Rust serialised. */
  lemma KeyFileLoads(s: SeckeyStruct, comment: Bytes)
    requires s.Sized() && ToFile(s, comment).Ok?
    ensures LoadStruct(ToFile(s, comment).value) == Some(SecretKey.Layout(s))
  {
    var data := SecretKey.Layout(s);
    var line0, line1 := UNTRUSTED_PREFIX + comment, Encode(data);
    KeyFileLines(s, comment);
    LayoutFields(s);
    EncodeLength(data);
    WholeLine(line0, line1 + [LF] + [], COMMENTMAXBYTES);
    WholeLine(line1, [], SECKEY_BUFFER);
    CompleteLine(line1);
    EncodedDecodesExactly(data);
  }

  // ---- a fresh key ----------------------------------------------------------------------------------

  /** `generate` with a password: the structure it fills and hands to `encrypt_key` ends as the
      bytes Rust writes for the same key, password, salt and limits, whenever Rust takes them. */
  method GenerateEncrypted(c: Primitives, pwhash: PwHash, key: Key, password: Bytes, salt: Bytes,
                           succeeds: nat -> bool) returns (b: array<Byte>, ok: bool)
    requires c.WellSized() && Deriving(pwhash) && SameKdf(c, pwhash)
    requires key.Sized() && |salt| == KDF_SALT_BYTES && 0 !in password
    ensures b.Length == SECKEY_STRUCT_SIZE && (ok <==> Settled(succeeds, 0).Some?)
    ensures ok ==>
              var l := Settled(succeeds, 0).value;
              l.ops < TWO_TO_64 && l.mem < TWO_TO_64 &&
              var r := NewEncrypted(c, key, password, salt, l.ops, l.mem);
              var stream := pwhash(password, salt, l, ENCRYPTED_BLOB_SIZE);
              |stream| == ENCRYPTED_BLOB_SIZE &&
              (r.Ok? <==> ToParams(l, c.scryptAccepts).Ok? && !AllZero(stream[64..])) &&
              (r.Ok? ==> b[..] == SecretKey.Layout(r.value))
  {
    b := Fill(key);
    var pwd := new Byte[|password| + 1](_ => 0);
    CopyInto(pwd, 0, password);
    assert pwd[..|password|] == password && pwd[|password|] == 0;
    FindUnique(pwd[..], 0, |password|);
    assert CString(pwd[..]) == password;
    ok := EncryptKey(c, pwhash, b, pwd, salt, succeeds);
    if ok {
      ghost var k := SettledIs(succeeds, 0);
      SameBytes(c, pwhash, key, password, salt, k);
      ToParamsOf(k, c.scryptAccepts);
    }
  }

  lemma SettledIs(succeeds: nat -> bool, i: nat) returns (k: nat)
    requires i <= 7 && Settled(succeeds, i).Some?
    ensures 14 <= k <= 20 && Settled(succeeds, i) == Some(LimitsFor(k))
    decreases 7 - i
  {
    if succeeds(i) { k := 20 - i; } else { k := SettledIs(succeeds, i + 1); }
  }

  /** The zeroed structure with the names of the algorithms and the key copied in. */
  method Fill(key: Key) returns (b: array<Byte>)
    requires key.Sized()
    ensures fresh(b) && b.Length == SECKEY_STRUCT_SIZE && b[..] == Unlocked(true, key)
  {
    b := new Byte[SECKEY_STRUCT_SIZE](_ => 0);
    assert b[6..] == Zeros(152);
    CopyInto(b, 0, SIG_ALG_NORMAL);
    assert b[6..] == Zeros(152);
    CopyInto(b, 2, KDF_ALG_SCRYPT);
    assert b[6..] == Zeros(152);
    CopyInto(b, 4, CHK_ALG);
    ghost var header := b[..];
    assert header[..6] == Header(true) && header[6..] == b[6..] == Zeros(152);
    CopyInto(b, 54, key.keynum);
    CopyInto(b, 62, key.secret);
    WrittenTwice(header, 54, key.keynum, key.secret);
    Filled(header, key);
  }

  lemma Filled(header: Bytes, key: Key)
    requires IsStruct(header) && header[..6] == Header(true) && header[6..] == Zeros(152) && key.Sized()
    ensures Written(header, 54, key.keynum + key.secret) == Unlocked(true, key)
  {
    var w := Written(header, 54, key.keynum + key.secret);
    assert header[..54] == header[..6] + header[6..][..48];
    assert header[126..] == header[6..][120..];
    assert Zeros(152)[..48] == Zeros(32) + Zeros(8) + Zeros(8) && Zeros(152)[120..] == Zeros(32);
  }
}
