/** Limits below libsodium's minimum of operations: Rust writes keys with them and opens them, and C
    derives with another parallelism. The agreement of the two sides about a password is exact: it
    holds from the minimum on, and not below. */
module KdfMinimum {
  import opened Basics
  import opened LittleEndian
  import opened Kdf
  import opened SecretKey
  import opened CSecretKey

  /** An encrypted structure with the limits of 2^k, and libraries that are related as libsodium and
      the scrypt crate are. */
  ghost predicate WithLimitsOf(k: nat, c: Primitives, pwhash: PwHash, b: Bytes, s: SeckeyStruct) {
    c.WellSized() && Deriving(pwhash) && SameKdf(c, pwhash) &&
    FromBytes(b) == Ok(s) && IsStruct(b) && s.Sized() && s.encrypted && LimitsOf(s.ops, s.mem) == LimitsFor(k)
  }

  /** Whatever the libraries, both sides agree about every structure with these limits, every
      password and every key. */
  ghost predicate AlwaysAgree(k: nat) {
    forall c, pwhash, b, s, password, key :: WithLimitsOf(k, c, pwhash, b, s) ==>
      SameOpening(c, pwhash, b, s, password, key)
  }

  // ---- libraries that tell the two derivations apart -----------------------------------------------

  function Flat(n: nat, v: Byte): (b: Bytes)
    ensures |b| == n
  {
    seq(n, _ => v)
  }

  function Scrypt(): (Bytes, Bytes, Params, nat) -> Bytes {
    (password: Bytes, salt: Bytes, p: Params, n: nat) => Flat(n, if p.p == 1 then 1 else 2)
  }

  function Accepts(): (nat, nat, nat) -> bool {
    (logN, r, p) => true
  }

  function Blake(): Bytes -> Bytes {
    data => Zeros(CHECKSUM_BYTES)
  }

  function Crate(): Primitives {
    Primitives(Scrypt(), Accepts(), Blake())
  }

  function Sodium(): PwHash {
    (password: Bytes, salt: Bytes, l: Limits, n: nat) => Flat(n, if l.ops < OPSLIMIT_MIN then 2 else 1)
  }

  lemma Related()
    ensures Crate().WellSized() && Deriving(Sodium()) && SameKdf(Crate(), Sodium())
  {
    forall password: Bytes, salt: Bytes, p: Params, n: nat
      ensures |Crate().scrypt(password, salt, p, n)| == n
    {
      assert Crate().scrypt(password, salt, p, n) == Flat(n, if p.p == 1 then 1 else 2);
    }
    forall password: Bytes, salt: Bytes, l: Limits, n: nat ensures |Sodium()(password, salt, l, n)| == n {
      assert Sodium()(password, salt, l, n) == Flat(n, if l.ops < OPSLIMIT_MIN then 2 else 1);
    }
    forall k: nat ensures LimitsFor(k).ops >= OPSLIMIT_MIN <==> Parallelism(k) == 1 {
      LowExponents(k);
    }
  }

  const KEY := Key(Zeros(SECRET_KEY_BYTES), Zeros(8))
  const SALT := Zeros(KDF_SALT_BYTES)

  lemma XorFlat(v: Byte, w: Byte)
    ensures Xor(Flat(ENCRYPTED_BLOB_SIZE, v), Flat(ENCRYPTED_BLOB_SIZE, w)) == Flat(ENCRYPTED_BLOB_SIZE, v ^ w)
  {
    XorIs(Flat(ENCRYPTED_BLOB_SIZE, v), Flat(ENCRYPTED_BLOB_SIZE, w), Flat(ENCRYPTED_BLOB_SIZE, v ^ w));
  }

  /** The structure Rust makes of the zero key. */
  lemma RustWrites(k: nat) returns (s: SeckeyStruct)
    requires k <= 20
    ensures Crate().WellSized() && LimitsFor(k).ops < TWO_TO_64 && LimitsFor(k).mem < TWO_TO_64
    ensures NewEncrypted(Crate(), KEY, [], SALT, LimitsFor(k).ops, LimitsFor(k).mem) == Ok(s)
    ensures s.Sized() && s.encrypted && LimitsOf(s.ops, s.mem) == LimitsFor(k)
    ensures FromBytes(Layout(s)) == Ok(s.AsRead()) && Decrypt(Crate(), s.AsRead(), []) == Ok(KEY)
    ensures s.encryptedKeynum + s.secretKey + s.checksum == Flat(ENCRYPTED_BLOB_SIZE, 1)
  {
    Related();
    ToParamsOf(k, Accepts());
    StreamMeaning(Crate(), [], SALT, k);
    var stream := Flat(ENCRYPTED_BLOB_SIZE, 1);
    assert stream[64..][0] == 1;
    EncryptionRoundTrip(Crate(), KEY, [], SALT, LimitsFor(k).ops, LimitsFor(k).mem);
    s := NewEncrypted(Crate(), KEY, [], SALT, LimitsFor(k).ops, LimitsFor(k).mem).value;
    assert Blob(Crate(), KEY) == Flat(ENCRYPTED_BLOB_SIZE, 0);
    XorFlat(0, 1);
    var blob := Flat(ENCRYPTED_BLOB_SIZE, 1);
    assert blob[..8] + blob[8..72] + blob[72..] == blob;
  }

  /** C, deriving something else, finds no key in it. */
  lemma CFindsNone(k: nat, b: Bytes, s: SeckeyStruct)
    requires k < 10 && WithLimitsOf(k, Crate(), Sodium(), b, s)
    requires s.encryptedKeynum + s.secretKey + s.checksum == Flat(ENCRYPTED_BLOB_SIZE, 1)
    ensures Found(Crate(), Sodium(), b, []) == None
  {
    EncryptedFields(b, s);
    LowExponents(k);
    var stream := Derived(Sodium(), b, []);
    assert stream == Flat(ENCRYPTED_BLOB_SIZE, 2);
    XorFlat(1, 2);
    var plain := Xor(b[54..158], stream);
    assert plain == Flat(ENCRYPTED_BLOB_SIZE, 3);
    UnmaskedFields(b, plain);
    assert Unmasked(b, stream)[126..158] == plain[72..];
    assert plain[72..][0] == 3 && Zeros(CHECKSUM_BYTES)[0] == 0;
  }

  /** Below the minimum Rust writes, for some libraries so related, a key that it opens and C does
      not; `change` and `generate` calculate these limits for an exponent below 10. */
  lemma UnreadableByC(k: nat, debug: bool) returns (s: SeckeyStruct)
    requires k < 10
    ensures Calculate(k, false, debug) == Ok(LimitsFor(k))
    ensures WithLimitsOf(k, Crate(), Sodium(), Layout(s), s.AsRead())
    ensures NewEncrypted(Crate(), KEY, [], SALT, LimitsFor(k).ops, LimitsFor(k).mem) == Ok(s)
    ensures Decrypt(Crate(), s.AsRead(), []) == Ok(KEY)
    ensures Found(Crate(), Sodium(), Layout(s), []) == None
  {
    CalculateMeaning(k, debug, LimitsFor(k));
    Related();
    s := RustWrites(k);
    LayoutFields(s);
    CFindsNone(k, Layout(s), s.AsRead());
  }

  /** The two sides agree about the limits of 2^k, whatever the libraries, exactly from k = 10 on. */
  lemma AgreeIff(k: nat)
    requires k <= 20
    ensures AlwaysAgree(k) <==> 10 <= k
  {
    if k < 10 {
      var s := UnreadableByC(k, true);
      assert !SameOpening(Crate(), Sodium(), Layout(s), s.AsRead(), [], KEY);
    } else {
      LowExponents(k);
      forall c, pwhash, b, s, password, key | WithLimitsOf(k, c, pwhash, b, s)
        ensures SameOpening(c, pwhash, b, s, password, key)
      {
        SameDecryption(c, pwhash, b, s, password, key);
      }
    }
  }
}
