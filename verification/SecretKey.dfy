/** Secret keys at rest: the 158-byte structure, its encryption under a password, and the key file
    (rs/src/keys.rs). The primitives are parameters. */
module SecretKey {
  import opened Basics
  import opened Base64
  import opened Utf8
  import opened CStrings
  import opened SignatureText
  import opened LittleEndian
  import opened Kdf
  import Lines

  const KDF_SALT_BYTES := 32
  const SECRET_KEY_BYTES := 64
  const CHECKSUM_BYTES := 32
  const ENCRYPTED_BLOB_SIZE := 104
  const SECKEY_STRUCT_SIZE := 158

  /** "Sc", two NULs, and "B2". */
  const KDF_ALG_SCRYPT: Bytes := [83, 99]
  const KDF_ALG_NONE: Bytes := [0, 0]
  const CHK_ALG: Bytes := [66, 50]

  /** scrypt (password, salt, parameters, output length), its own check of parameters, and
      Blake2b-256. */
  datatype Primitives = Primitives(
    scrypt: (Bytes, Bytes, Params, nat) -> Bytes,
    scryptAccepts: (nat, nat, nat) -> bool,
    blake2b256: Bytes -> Bytes)
  {
    ghost predicate WellSized() {
      (forall password, salt, p, n :: |scrypt(password, salt, p, n)| == n) &&
      (forall data :: |blake2b256(data)| == CHECKSUM_BYTES)
    }
  }

  datatype KeyError =
    | NotEncrypted | PasswordRequired | ChecksumFailed | BadKdf(kdf: KdfError)
    | InvalidSecretKey | BadBase64 | BadComment | TooLarge | InvalidUtf8

  datatype Key = Key(secret: Bytes, keynum: Bytes) {
    predicate Sized() {
      |secret| == SECRET_KEY_BYTES && |keynum| == KEYNUM_BYTES
    }
  }

  datatype SeckeyStruct = SeckeyStruct(
    encrypted: bool, salt: Bytes, ops: Word, mem: Word,
    keynum: Bytes, encryptedKeynum: Bytes, secretKey: Bytes, checksum: Bytes)
  {
    predicate Sized() {
      |salt| == KDF_SALT_BYTES && |keynum| == KEYNUM_BYTES && |encryptedKeynum| == KEYNUM_BYTES &&
      |secretKey| == SECRET_KEY_BYTES && |checksum| == CHECKSUM_BYTES
    }

    /** The structure as a reader of its bytes has it: the keynum that is not stored is zero. */
    function AsRead(): SeckeyStruct {
      if encrypted then this.(keynum := Zeros(KEYNUM_BYTES))
      else this.(encryptedKeynum := Zeros(KEYNUM_BYTES))
    }
  }

  function Zeros(n: nat): Bytes {
    seq(n, _ => 0)
  }

  // ---- layout -------------------------------------------------------------------------------------

  function Header(encrypted: bool): Bytes {
    SIG_ALG_NORMAL + (if encrypted then KDF_ALG_SCRYPT else KDF_ALG_NONE) + CHK_ALG
  }

  function Layout(s: SeckeyStruct): Bytes {
    Header(s.encrypted) + s.salt + Store(s.ops) + Store(s.mem) +
    (if s.encrypted then s.encryptedKeynum else s.keynum) + s.secretKey + s.checksum
  }

  /** `to_bytes`: fills a zeroed buffer field by field. */
  method ToBytes(s: SeckeyStruct) returns (bytes: array<Byte>)
    requires s.Sized()
    ensures fresh(bytes) && bytes[..] == Layout(s)
  {
    bytes := new Byte[SECKEY_STRUCT_SIZE](_ => 0);
    CopyInto(bytes, 0, SIG_ALG_NORMAL);
    CopyInto(bytes, 2, if s.encrypted then KDF_ALG_SCRYPT else KDF_ALG_NONE);
    CopyInto(bytes, 4, CHK_ALG);
    assert bytes[..6] == Header(s.encrypted);
    CopyInto(bytes, 6, s.salt);
    StoreInto(bytes, 38, s.ops);
    StoreInto(bytes, 46, s.mem);
    assert bytes[..54] == Header(s.encrypted) + s.salt + Store(s.ops) + Store(s.mem);
    CopyInto(bytes, 54, if s.encrypted then s.encryptedKeynum else s.keynum);
    CopyInto(bytes, 62, s.secretKey);
    CopyInto(bytes, 126, s.checksum);
  }

  /** `from_bytes`, check by check. */
  function FromBytes(bytes: Bytes): Result<SeckeyStruct, KeyError> {
    if |bytes| != SECKEY_STRUCT_SIZE || bytes[..2] != SIG_ALG_NORMAL then Err(InvalidSecretKey)
    else if bytes[2..4] != KDF_ALG_SCRYPT && bytes[2..4] != KDF_ALG_NONE then Err(InvalidSecretKey)
    else if bytes[4..6] != CHK_ALG then Err(InvalidSecretKey)
    else
      var encrypted := bytes[2..4] == KDF_ALG_SCRYPT;
      var keynum := bytes[54..62];
      Ok(SeckeyStruct(
           encrypted, bytes[6..38], Load(bytes[38..46]), Load(bytes[46..54]),
           if encrypted then Zeros(KEYNUM_BYTES) else keynum,
           if encrypted then keynum else Zeros(KEYNUM_BYTES),
           bytes[62..126], bytes[126..158]))
  }

  /** The fields of a structure's bytes. */
  lemma LayoutFields(s: SeckeyStruct)
    requires s.Sized()
    ensures var b := Layout(s);
            |b| == SECKEY_STRUCT_SIZE && b[..2] == SIG_ALG_NORMAL && b[4..6] == CHK_ALG &&
            b[2..4] == (if s.encrypted then KDF_ALG_SCRYPT else KDF_ALG_NONE) &&
            b[6..38] == s.salt && b[38..46] == Store(s.ops) && b[46..54] == Store(s.mem) &&
            b[54..62] == (if s.encrypted then s.encryptedKeynum else s.keynum) &&
            b[62..126] == s.secretKey && b[126..158] == s.checksum
  {
    var h := Header(s.encrypted);
    assert h[..2] == SIG_ALG_NORMAL && h[4..6] == CHK_ALG;
    assert h[2..4] == if s.encrypted then KDF_ALG_SCRYPT else KDF_ALG_NONE;
    Fields(h, s.salt, Store(s.ops), Store(s.mem),
           if s.encrypted then s.encryptedKeynum else s.keynum, s.secretKey, s.checksum);
  }

  lemma Fields(h: Bytes, salt: Bytes, ops: Bytes, mem: Bytes, keynum: Bytes, secret: Bytes, checksum: Bytes)
    requires |h| == 6 && |salt| == 32 && |ops| == |mem| == |keynum| == 8
    requires |secret| == 64 && |checksum| == 32
    ensures var b := h + salt + ops + mem + keynum + secret + checksum;
            b[..2] == h[..2] && b[2..4] == h[2..4] && b[4..6] == h[4..6] && b[6..38] == salt &&
            b[38..46] == ops && b[46..54] == mem && b[54..62] == keynum &&
            b[62..126] == secret && b[126..158] == checksum
  {
  }

  lemma JoinFields(b: Bytes)
    requires |b| == SECKEY_STRUCT_SIZE
    ensures b == b[..2] + b[2..4] + b[4..6] + b[6..38] + b[38..46] + b[46..54] + b[54..62] +
                 b[62..126] + b[126..158]
  {
  }

  /** Serialising is the identity on whatever was accepted, and what was serialised is accepted. */
  lemma StructInverse(b: Bytes, s: SeckeyStruct)
    ensures FromBytes(b) == Ok(s) <==> s.Sized() && s == s.AsRead() && b == Layout(s)
  {
    if FromBytes(b) == Ok(s) {
      JoinFields(b);
      StoreLoad(b[38..46]);
      StoreLoad(b[46..54]);
    }
    if s.Sized() && s == s.AsRead() && b == Layout(s) {
      LayoutFields(s);
      LoadStore(s.ops);
      LoadStore(s.mem);
      assert KDF_ALG_SCRYPT[0] != KDF_ALG_NONE[0];
    }
  }

  lemma ReadBack(s: SeckeyStruct)
    requires s.Sized()
    ensures FromBytes(Layout(s)) == Ok(s.AsRead())
  {
    StructInverse(Layout(s), s.AsRead());
  }

  // ---- encryption -----------------------------------------------------------------------------------

  function LimitsOf(ops: Word, mem: Word): Limits {
    Limits(ops, mem)
  }

  predicate AllZero(b: Bytes) {
    forall k :: 0 <= k < |b| ==> b[k] == 0
  }

  /** The key stream for a key, or why there is none: bad limits, over budget, or an output that
      is all zero beyond the first 64 bytes. */
  function KeyStream(c: Primitives, password: Bytes, salt: Bytes, ops: Word, mem: Word)
    : (r: Result<Bytes, KeyError>)
    requires c.WellSized()
    ensures r.Ok? ==> |r.value| == ENCRYPTED_BLOB_SIZE
  {
    match ToParams(LimitsOf(ops, mem), c.scryptAccepts)
    case Err(e) => Err(BadKdf(e))
    case Ok(p) =>
      var output := c.scrypt(password, salt, p, ENCRYPTED_BLOB_SIZE);
      if !c.scryptAccepts(p.logN, p.r, p.p) then Err(BadKdf(ScryptParam))
      else if AllZero(output[64..]) then Err(BadKdf(Truncated))
      else Ok(output)
  }

  function Checksum(c: Primitives, key: Key): Bytes {
    c.blake2b256(SIG_ALG_NORMAL + key.keynum + key.secret)
  }

  function Blob(c: Primitives, key: Key): Bytes {
    key.keynum + key.secret + Checksum(c, key)
  }

  function NewUnencrypted(key: Key): SeckeyStruct {
    SeckeyStruct(false, Zeros(KDF_SALT_BYTES), 0, 0, key.keynum, Zeros(KEYNUM_BYTES),
                 key.secret, Zeros(CHECKSUM_BYTES))
  }

  /** What `new_encrypted` makes of the encrypted blob. */
  function FromBlob(key: Key, salt: Bytes, ops: Word, mem: Word, blob: Bytes): (s: SeckeyStruct)
    requires |blob| == ENCRYPTED_BLOB_SIZE
  {
    SeckeyStruct(true, salt, ops, mem, key.keynum, blob[..8], blob[8..72], blob[72..])
  }

  function NewEncrypted(c: Primitives, key: Key, password: Bytes, salt: Bytes, ops: Word, mem: Word)
    : Result<SeckeyStruct, KeyError>
    requires c.WellSized() && key.Sized()
  {
    match KeyStream(c, password, salt, ops, mem)
    case Err(e) => Err(e)
    case Ok(stream) => Ok(FromBlob(key, salt, ops, mem, Xor(Blob(c, key), stream)))
  }

  function Opened(c: Primitives, plain: Bytes): Result<Key, KeyError>
    requires |plain| == ENCRYPTED_BLOB_SIZE
  {
    var key := Key(plain[8..72], plain[..8]);
    if Checksum(c, key) == plain[72..] then Ok(key) else Err(ChecksumFailed)
  }

  function Decrypt(c: Primitives, s: SeckeyStruct, password: Bytes): Result<Key, KeyError>
    requires c.WellSized() && s.Sized()
  {
    if !s.encrypted then Err(NotEncrypted)
    else if !WithinBudget(s.mem) then Err(BadKdf(OverBudget))
    else
      match KeyStream(c, password, s.salt, s.ops, s.mem)
      case Err(e) => Err(e)
      case Ok(stream) => Opened(c, Xor(s.encryptedKeynum + s.secretKey + s.checksum, stream))
  }

  /** `extract_key`. */
  function ExtractKey(c: Primitives, s: SeckeyStruct, password: Option<Bytes>): Result<Key, KeyError>
    requires c.WellSized() && s.Sized()
  {
    if s.encrypted then
      match password
      case None => Err(PasswordRequired)
      case Some(p) => Decrypt(c, s, p)
    else Ok(Key(s.secretKey, s.keynum))
  }

  /** The exclusive-or loop of `new_encrypted` and `decrypt`, from one buffer into another. */
  method XorLoop(from: Bytes, stream: Bytes) returns (to: array<Byte>)
    requires |from| == |stream| == ENCRYPTED_BLOB_SIZE
    ensures fresh(to) && to[..] == Xor(from, stream)
  {
    to := new Byte[ENCRYPTED_BLOB_SIZE](_ => 0);
    for i := 0 to ENCRYPTED_BLOB_SIZE
      invariant forall k :: 0 <= k < i ==> to[k] == from[k] ^ stream[k]
    {
      to[i] := from[i] ^ stream[i];
    }
    XorIs(from, stream, to[..]);
  }

  method EncryptKey(c: Primitives, key: Key, password: Bytes, salt: Bytes, ops: Word, mem: Word)
    returns (r: Result<SeckeyStruct, KeyError>)
    requires c.WellSized() && key.Sized()
    ensures r == NewEncrypted(c, key, password, salt, ops, mem)
  {
    var checksum := Checksum(c, key);
    var stream := KeyStream(c, password, salt, ops, mem);
    if stream.Err? { return Err(stream.error); }
    var blob := new Byte[ENCRYPTED_BLOB_SIZE](_ => 0);
    CopyInto(blob, 0, key.keynum);
    CopyInto(blob, 8, key.secret);
    CopyInto(blob, 72, checksum);
    assert blob[..] == Blob(c, key);
    var encrypted := XorLoop(blob[..], stream.value);
    return Ok(SeckeyStruct(true, salt, ops, mem, key.keynum,
                           encrypted[..8], encrypted[8..72], encrypted[72..]));
  }

  method DecryptKey(c: Primitives, s: SeckeyStruct, password: Bytes)
    returns (r: Result<Key, KeyError>)
    requires c.WellSized() && s.Sized()
    ensures r == Decrypt(c, s, password)
  {
    if !s.encrypted { return Err(NotEncrypted); }
    if !WithinBudget(s.mem) { return Err(BadKdf(OverBudget)); }
    var stream := KeyStream(c, password, s.salt, s.ops, s.mem);
    if stream.Err? { return Err(stream.error); }
    var blob := new Byte[ENCRYPTED_BLOB_SIZE](_ => 0);
    CopyInto(blob, 0, s.encryptedKeynum);
    CopyInto(blob, 8, s.secretKey);
    CopyInto(blob, 72, s.checksum);
    assert blob[..] == s.encryptedKeynum + s.secretKey + s.checksum;
    var plain := XorLoop(blob[..], stream.value);
    var key := Key(plain[8..72], plain[..8]);
    if Checksum(c, key) != plain[72..] { return Err(ChecksumFailed); }
    return Ok(key);
  }

  /** With the right password, what was encrypted, stored and read again decrypts to the key. */
  lemma EncryptionRoundTrip(
      c: Primitives, key: Key, password: Bytes, salt: Bytes, ops: Word, mem: Word)
    requires c.WellSized() && key.Sized() && |salt| == KDF_SALT_BYTES
    requires KeyStream(c, password, salt, ops, mem).Ok?
    ensures NewEncrypted(c, key, password, salt, ops, mem).Ok?
    ensures var s := NewEncrypted(c, key, password, salt, ops, mem).value;
            s.Sized() && FromBytes(Layout(s)) == Ok(s.AsRead()) &&
            Decrypt(c, s.AsRead(), password) == Ok(key)
  {
    var stream := KeyStream(c, password, salt, ops, mem).value;
    var blob := Xor(Blob(c, key), stream);
    var s := FromBlob(key, salt, ops, mem, blob);
    ReadBack(s);
    XorInverse(Blob(c, key), stream);
    assert blob[..8] + blob[8..72] + blob[72..] == blob;
    BlobOpens(c, key);
    StreamWithinBudget(c, password, salt, ops, mem);
  }

  lemma BlobOpens(c: Primitives, key: Key)
    requires c.WellSized() && key.Sized()
    ensures |Blob(c, key)| == ENCRYPTED_BLOB_SIZE && Opened(c, Blob(c, key)) == Ok(key)
  {
    var b := Blob(c, key);
    assert b[..8] == key.keynum && b[8..72] == key.secret && b[72..] == Checksum(c, key);
  }

  lemma StreamWithinBudget(c: Primitives, password: Bytes, salt: Bytes, ops: Word, mem: Word)
    requires c.WellSized() && KeyStream(c, password, salt, ops, mem).Ok?
    ensures WithinBudget(mem)
  {
    ParamsWithinBudget(LimitsOf(ops, mem), c.scryptAccepts);
  }

  // ---- the key file -----------------------------------------------------------------------------------

  /** `from_file_contents`: the first line is not looked at, nor is anything after the second. */
  function FromFile(contents: Bytes): Result<SeckeyStruct, KeyError> {
    var lines := Lines.Split(contents);
    if |lines| < 2 then Err(InvalidSecretKey)
    else
      match StrictDecode(lines[1])
      case None => Err(BadBase64)
      case Some(data) => FromBytes(data)
  }

  /** `to_file_contents`. */
  function ToFile(s: SeckeyStruct, comment: Bytes): Result<Bytes, KeyError> {
    if !ValidUntrusted(comment) then Err(BadComment)
    else Ok(UNTRUSTED_PREFIX + comment + [LF] + Encode(Layout(s)) + [LF])
  }

  lemma KeyFileLines(s: SeckeyStruct, comment: Bytes)
    requires ToFile(s, comment).Ok?
    ensures Clean(UNTRUSTED_PREFIX + comment) && Clean(Encode(Layout(s)))
    ensures ToFile(s, comment).value ==
              UNTRUSTED_PREFIX + comment + [LF] + (Encode(Layout(s)) + [LF] + [])
    ensures Lines.Split(ToFile(s, comment).value) == [UNTRUSTED_PREFIX + comment, Encode(Layout(s))]
  {
    var line0, line1 := UNTRUSTED_PREFIX + comment, Encode(Layout(s));
    CommentIsClean(comment);
    EncodedIsClean(Layout(s));
    TwoLines(line0, line1);
  }

  lemma TwoLines(line0: Bytes, line1: Bytes)
    requires LF !in line0 && CR !in line0 && LF !in line1 && CR !in line1
    ensures line0 + [LF] + line1 + [LF] == line0 + [LF] + (line1 + [LF] + [])
    ensures Lines.Split(line0 + [LF] + line1 + [LF]) == [line0, line1]
  {
    var last := line1 + [LF] + [];
    assert last == line1 + [LF];
    Regroup(line0 + [LF], line1, [LF]);
    Lines.SplitFirst(line1, []);
    assert Lines.Split([]) == [];
    Lines.SplitFirst(line0, last);
  }

  /** A key file is read as the structure it was written from. */
  lemma KeyFileRoundTrip(s: SeckeyStruct, comment: Bytes)
    requires s.Sized() && ToFile(s, comment).Ok?
    ensures FromFile(ToFile(s, comment).value) == Ok(s.AsRead())
  {
    KeyFileLines(s, comment);
    StrictDecodeInverse(Encode(Layout(s)), Layout(s));
    ReadBack(s);
  }

  const MAX_KEY_FILE_BYTES := 4096

  /** What `load_secret_key` makes of the bytes of a file. */
  function LoadSecretKey(contents: Bytes): Result<SeckeyStruct, KeyError> {
    if |contents| > MAX_KEY_FILE_BYTES then Err(TooLarge)
    else if DecodeText(contents).None? then Err(InvalidUtf8)
    else FromFile(contents)
  }

  /** A file is loaded as exactly the structure whose base64 is its second line, whatever stands in
      the others: if it is small enough and text, and the structure came from bytes. */
  lemma LoadSecretKeyIff(contents: Bytes, s: SeckeyStruct)
    ensures LoadSecretKey(contents) == Ok(s) <==>
              |contents| <= MAX_KEY_FILE_BYTES && DecodeText(contents).Some? && s.Sized() && s == s.AsRead() &&
              |Lines.Split(contents)| >= 2 && Lines.Split(contents)[1] == Encode(Layout(s))
  {
    var lines := Lines.Split(contents);
    if |lines| >= 2 {
      StrictDecodeInverse(lines[1], Layout(s));
      StructInverse(Layout(s), s);
      if StrictDecode(lines[1]).Some? {
        StructInverse(StrictDecode(lines[1]).value, s);
      }
    }
  }

  /** A key file that was written can be loaded: it is short enough and well-formed text. */
  lemma WrittenLoads(s: SeckeyStruct, comment: Bytes)
    requires s.Sized() && ToFile(s, comment).Ok?
    ensures LoadSecretKey(ToFile(s, comment).value) == Ok(s.AsRead())
  {
    var contents := ToFile(s, comment).value;
    KeyFileRoundTrip(s, comment);
    LayoutFields(s);
    EncodeLength(Layout(s));
    KeyFileLines(s, comment);
    PrefixesAscii();
    CommentLineDecodes(UNTRUSTED_PREFIX, comment);
    EncodedDecodes(Layout(s));
    var lines := [UNTRUSTED_PREFIX + comment, Encode(Layout(s))];
    assert AllDecode(lines[1..][1..]);
    assert AllDecode(lines[1..]);
    LinesDecode(contents);
  }
}
