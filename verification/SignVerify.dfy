/** Signing and verifying a message (rs/src/ops/sign.rs, rs/src/ops/verify.rs, the hashing of
    rs/src/crypto.rs) over an abstract signature scheme and an incremental hash. */
module SignVerify {
  import opened Basics
  import opened Utf8
  import opened SignatureText
  import opened Base64
  import opened Reading
  import Lines

  const MAX_MESSAGE_SIZE_BYTES := 0x4000_0000
  const MAX_SIGNATURE_FILE_BYTES := 16384
  const STREAM_BUFFER_SIZE := 65536

  /** Signing may refuse an inconsistent key pair. The hash has a state that takes in bytes. */
  datatype Scheme<!H> = Scheme(
    sign: (Bytes, Bytes) -> Option<Bytes>,
    verify: (Bytes, Bytes, Bytes) -> bool,
    publicOf: Bytes -> Option<Bytes>,
    empty: H, absorb: (H, Byte) -> H, finish: H -> Bytes)
  {
    /** What is signed verifies under the public key of the secret key. */
    ghost predicate Correct() {
      (forall secret, data :: sign(secret, data).Some? ==>
         |sign(secret, data).value| == SIGNATURE_BYTES && publicOf(secret).Some? &&
         verify(publicOf(secret).value, data, sign(secret, data).value))
    }

    function Absorb(h: H, data: Bytes): H {
      if data == [] then h else Absorb(absorb(h, data[0]), data[1..])
    }

    function Hash(data: Bytes): Bytes {
      finish(Absorb(empty, data))
    }
  }

  /** Taking in two pieces is taking in their concatenation. */
  lemma {:induction false} AbsorbConcat<H>(s: Scheme<H>, h: H, a: Bytes, b: Bytes)
    ensures s.Absorb(h, a + b) == s.Absorb(s.Absorb(h, a), b)
    decreases |a|
  {
    if a == [] {
      assert a + b == b;
    } else {
      AbsorbConcat(s, s.absorb(h, a[0]), a[1..], b);
      assert (a + b)[0] == a[0] && (a + b)[1..] == a[1..] + b;
    }
  }

  /** `Hasher::update`. */
  method Update<H>(s: Scheme<H>, h: H, buffer: array<Byte>, n: nat) returns (h': H)
    requires n <= buffer.Length
    ensures h' == s.Absorb(h, buffer[..n])
  {
    h' := h;
    for i := 0 to n
      invariant h' == s.Absorb(h, buffer[..i])
    {
      assert buffer[..i + 1] == buffer[..i] + [buffer[i]];
      AbsorbConcat(s, h, buffer[..i], [buffer[i]]);
      h' := s.absorb(h', buffer[i]);
    }
    assert buffer[..n] == buffer[..n];
  }

  lemma TakenIn<H>(s: Scheme<H>, done: Bytes, rest: Bytes, n: nat)
    requires n <= |rest|
    ensures s.Absorb(s.empty, done + rest[..n]) == s.Absorb(s.Absorb(s.empty, done), rest[..n])
    ensures done + rest == (done + rest[..n]) + rest[n..]
  {
    AbsorbConcat(s, s.empty, done, rest[..n]);
  }

  ghost predicate OnlyChunks(events: seq<Event>) {
    forall k :: 0 <= k < |events| ==> events[k].Chunk?
  }

  /** `blake2b_512_stream`: however the reads cut the file up, the hash is that of its bytes. An
      interrupted read is an error here, like any other. */
  method HashStream<H>(s: Scheme<H>, file: Reader) returns (r: Option<Bytes>)
    modifies file
    ensures r.Some? ==> r.value == s.Hash(old(file.rest))
    ensures OnlyChunks(old(file.events)) ==> r.Some?
  {
    ghost var content := file.rest;
    ghost var done: Bytes := [];
    var h := s.empty;
    var buffer := new Byte[STREAM_BUFFER_SIZE](_ => 0);
    while true
      invariant content == done + file.rest && h == s.Absorb(s.empty, done)
      invariant OnlyChunks(old(file.events)) ==> OnlyChunks(file.events)
      decreases |file.rest| + |file.events|
    {
      ghost var rest, events := file.rest, file.events;
      assert OnlyChunks(events) && events != [] ==> events[0].Chunk?;
      var got := file.Read(buffer, 0);
      if !got.Took? { return None; }
      if got.count == 0 { break; }
      ghost var piece := rest[..got.count];
      assert buffer[..got.count] == piece;
      TakenIn(s, done, rest, got.count);
      h := Update(s, h, buffer, got.count);
      done := done + piece;
    }
    assert done == content;
    return Some(s.finish(h));
  }

  // ---- signing --------------------------------------------------------------------------------------

  datatype SignError = BadComment | Unreadable | TooLong | BadKey | SelfCheck

  /** The bytes that are signed: the hash, or the message itself when it is not too long. */
  function Signed<H>(s: Scheme<H>, message: Bytes, prehashed: bool): Bytes {
    if prehashed then s.Hash(message) else message
  }

  /** `create_global_signature_data`. */
  function GlobalData(signature: Bytes, trusted: Bytes): Bytes {
    signature + trusted
  }

  /** The signing key: the secret, and the number that names the pair. */
  datatype SigningKey = SigningKey(secret: Bytes, keynum: Bytes)

  /** `create_signature` once the data to sign is at hand. */
  function SignData<H>(s: Scheme<H>, key: SigningKey, data: Bytes, prehashed: bool, trusted: Bytes, untrusted: Bytes)
    : Result<SignatureBox, SignError>
  {
    var signature := s.sign(key.secret, data);
    if signature.None? then Err(BadKey)
    else
      var global := s.sign(key.secret, GlobalData(signature.value, trusted));
      var pk := s.publicOf(key.secret);
      if global.None? || pk.None? then Err(BadKey)
      else if !s.verify(pk.value, data, signature.value) ||
              !s.verify(pk.value, GlobalData(signature.value, trusted), global.value)
      then Err(SelfCheck)
      else
        match SignatureText.New(untrusted, SigStruct(prehashed, key.keynum, signature.value), trusted, global.value)
        case Err(_) => Err(SignError.BadComment)
        case Ok(b) => Ok(b)
  }

  /** `create_signature` of an unchanging message: comments first, then the file. */
  function CreateSignature<H>(
      s: Scheme<H>, key: SigningKey, message: Bytes, prehashed: bool, trusted: Bytes, untrusted: Bytes)
    : Result<SignatureBox, SignError>
  {
    if !ValidUntrusted(untrusted) || !ValidTrusted(trusted) then Err(SignError.BadComment)
    else if !prehashed && |message| > MAX_MESSAGE_SIZE_BYTES then Err(TooLong)
    else SignData(s, key, Signed(s, message, prehashed), prehashed, trusted, untrusted)
  }

  /** With a correct scheme a signature is made exactly when the comments are valid, the mode can
      take the message, and the key signs both times; the self-check never objects. */
  lemma SigningSucceeds<H>(
      s: Scheme<H>, key: SigningKey, message: Bytes, prehashed: bool, trusted: Bytes, untrusted: Bytes)
    requires s.Correct() && |key.keynum| == KEYNUM_BYTES
    ensures var r := CreateSignature(s, key, message, prehashed, trusted, untrusted);
            var signature := s.sign(key.secret, Signed(s, message, prehashed));
            (r.Ok? <==>
               ValidUntrusted(untrusted) && ValidTrusted(trusted) &&
               (prehashed || |message| <= MAX_MESSAGE_SIZE_BYTES) && signature.Some? &&
               s.sign(key.secret, GlobalData(signature.value, trusted)).Some?) &&
            (r.Ok? ==> r.value.Valid()) &&
            (r.Err? ==>
               r.error == if !ValidUntrusted(untrusted) || !ValidTrusted(trusted) then SignError.BadComment
                          else if !prehashed && |message| > MAX_MESSAGE_SIZE_BYTES then TooLong
                          else BadKey)
  {
  }

  /** `create_signature` of a file, read as it comes; `size` is what its metadata said. */
  method CreateFrom<H>(
      s: Scheme<H>, key: SigningKey, file: Reader, size: nat, prehashed: bool, trusted: Bytes, untrusted: Bytes)
    returns (r: Result<SignatureBox, SignError>)
    modifies file
    ensures r.Ok? ==>
              r == SignData(s, key, Signed(s, old(file.rest), prehashed), prehashed, trusted, untrusted)
    ensures size == |old(file.rest)| && r != Err(Unreadable) ==>
              r == CreateSignature(s, key, old(file.rest), prehashed, trusted, untrusted)
    ensures OnlyChunks(old(file.events)) ==> r != Err(Unreadable)
  {
    if !ValidUntrusted(untrusted) || !ValidTrusted(trusted) { return Err(SignError.BadComment); }
    ghost var message := file.rest;
    var data: Bytes;
    if prehashed {
      var hash := HashStream(s, file);
      if hash.None? { return Err(Unreadable); }
      data := hash.value;
    } else {
      var read := ReadBounded(file, size, MAX_MESSAGE_SIZE_BYTES);
      if read == Err(ReadError.TooLarge) { return Err(TooLong); }
      if read.Err? { return Err(Unreadable); }
      data := read.value;
    }
    return SignData(s, key, data, prehashed, trusted, untrusted);
  }

  // ---- verifying ------------------------------------------------------------------------------------

  datatype PublicKey = PublicKey(public: Bytes, keynum: Bytes)

  datatype VerifyError =
    | BadSignatureFile | KeyMismatch | LegacySignatureRejected | MessageTooLong | MessageUnreadable
    | VerificationFailed

  datatype Verified = Verified(trusted: Bytes, untrusted: Bytes, output: Option<Bytes>)

  /** `load_signature`: a bounded read of UTF-8 text, then the four lines. */
  function LoadSignature(contents: Bytes): Result<SignatureBox, VerifyError> {
    if |contents| > MAX_SIGNATURE_FILE_BYTES || DecodeText(contents).None? then Err(BadSignatureFile)
    else
      match FromFileContents(contents)
      case Err(_) => Err(BadSignatureFile)
      case Ok(b) => Ok(b)
  }

  /** Whether the mode and the options need the message in memory. */
  predicate Buffers(b: SignatureBox, capture: bool) {
    capture || !b.sig.prehashed
  }

  /** `verify_message_signature` of an unchanging message. */
  function VerifyMessage<H>(
      s: Scheme<H>, pk: PublicKey, b: SignatureBox, message: Bytes, force: bool, capture: bool)
    : Result<Option<Bytes>, VerifyError>
  {
    if pk.keynum != b.sig.keynum then Err(KeyMismatch)
    else if force && !b.sig.prehashed then Err(LegacySignatureRejected)
    else if Buffers(b, capture) && |message| > MAX_MESSAGE_SIZE_BYTES then Err(MessageTooLong)
    else if !s.verify(pk.public, Signed(s, message, b.sig.prehashed), b.sig.signature) then Err(VerificationFailed)
    else Ok(if capture then Some(message) else None)
  }

  /** `verify_global_signature`. */
  predicate GlobalHolds<H>(s: Scheme<H>, pk: PublicKey, b: SignatureBox) {
    s.verify(pk.public, GlobalData(b.sig.signature, b.trusted), b.globalSignature)
  }

  function Verify<H>(
      s: Scheme<H>, pk: PublicKey, signatureFile: Bytes, message: Bytes, force: bool, capture: bool)
    : Result<Verified, VerifyError>
  {
    match LoadSignature(signatureFile)
    case Err(e) => Err(e)
    case Ok(b) =>
      match VerifyMessage(s, pk, b, message, force, capture)
      case Err(e) => Err(e)
      case Ok(output) =>
        if !GlobalHolds(s, pk, b) then Err(VerificationFailed)
        else Ok(Verified(b.trusted, b.untrusted, output))
  }

  /** `verify_message_signature` of a file that may be changing: `size` is what its metadata said
      and `file` what the reads deliver. Whatever that is, the bytes handed out are the bytes that
      were verified. */
  method VerifyMessageFrom<H>(
      s: Scheme<H>, pk: PublicKey, b: SignatureBox, file: Reader, size: nat, force: bool, capture: bool)
    returns (r: Result<Option<Bytes>, VerifyError>)
    modifies file
    ensures r.Ok? ==>
              s.verify(pk.public, Signed(s, old(file.rest), b.sig.prehashed), b.sig.signature) &&
              r.value == (if capture then Some(old(file.rest)) else None) &&
              pk.keynum == b.sig.keynum
    ensures OnlyChunks(old(file.events)) && size == |old(file.rest)| ==>
              r == VerifyMessage(s, pk, b, old(file.rest), force, capture)
  {
    if pk.keynum != b.sig.keynum { return Err(KeyMismatch); }
    if force && !b.sig.prehashed { return Err(LegacySignatureRejected); }
    ghost var message := file.rest;
    if b.sig.prehashed && !capture {
      var hash := HashStream(s, file);
      if hash.None? { return Err(MessageUnreadable); }
      if !s.verify(pk.public, hash.value, b.sig.signature) { return Err(VerificationFailed); }
      return Ok(None);
    }
    var read := ReadBounded(file, size, MAX_MESSAGE_SIZE_BYTES);
    if read == Err(ReadError.TooLarge) { return Err(MessageTooLong); }
    if read.Err? { return Err(MessageUnreadable); }
    var data := Signed(s, read.value, b.sig.prehashed);
    if !s.verify(pk.public, data, b.sig.signature) { return Err(VerificationFailed); }
    return Ok(if capture then Some(read.value) else None);
  }

  // ---- end to end -------------------------------------------------------------------------------------

  /** A written signature file is loaded as the box it was written from. */
  lemma WrittenSignatureLoads(b: SignatureBox)
    requires b.Valid()
    ensures LoadSignature(ToFileContents(b)) == Ok(b)
  {
    TextRoundTrip(b);
    AcceptedIsUtf8(ToFileContents(b));
    EncodeLength(Layout(b.sig));
    EncodeLength(b.globalSignature);
  }

  /** How the file of a fresh signature verifies under any public key and over any message: every
      outcome, in order of precedence. */
  lemma SignThenVerifyAny<H>(
      s: Scheme<H>, key: SigningKey, pk: PublicKey, message: Bytes, prehashed: bool,
      trusted: Bytes, untrusted: Bytes, message': Bytes, force: bool, capture: bool)
    requires s.Correct() && |key.keynum| == KEYNUM_BYTES
    requires CreateSignature(s, key, message, prehashed, trusted, untrusted).Ok?
    ensures var b := CreateSignature(s, key, message, prehashed, trusted, untrusted).value;
            var signature := s.sign(key.secret, if prehashed then s.Hash(message) else message).value;
            var global := s.sign(key.secret, signature + trusted).value;
            Verify(s, pk, ToFileContents(b), message', force, capture) ==
              if pk.keynum != key.keynum then Err(KeyMismatch)
              else if force && !prehashed then Err(LegacySignatureRejected)
              else if (capture || !prehashed) && |message'| > MAX_MESSAGE_SIZE_BYTES then Err(MessageTooLong)
              else if s.verify(pk.public, if prehashed then s.Hash(message') else message', signature) &&
                      s.verify(pk.public, signature + trusted, global)
              then Ok(Verified(trusted, untrusted, if capture then Some(message') else None))
              else Err(VerificationFailed)
  {
    SigningSucceeds(s, key, message, prehashed, trusted, untrusted);
    WrittenSignatureLoads(CreateSignature(s, key, message, prehashed, trusted, untrusted).value);
  }

  /** What was signed, written, read and verified with the pair's public key and an unchanged
      message passes, except when legacy signatures are refused, or when output is asked for of a
      prehashed message that is too long to hold in memory; and it gives back both comments and
      the message. */
  lemma SignThenVerify<H>(
      s: Scheme<H>, key: SigningKey, pk: PublicKey, message: Bytes, prehashed: bool,
      trusted: Bytes, untrusted: Bytes, force: bool, capture: bool)
    requires s.Correct() && |key.keynum| == KEYNUM_BYTES
    requires s.publicOf(key.secret) == Some(pk.public) && pk.keynum == key.keynum
    requires CreateSignature(s, key, message, prehashed, trusted, untrusted).Ok?
    ensures var b := CreateSignature(s, key, message, prehashed, trusted, untrusted).value;
            var r := Verify(s, pk, ToFileContents(b), message, force, capture);
            (r.Ok? <==> (prehashed || !force) && (capture && prehashed ==> |message| <= MAX_MESSAGE_SIZE_BYTES)) &&
            (r.Ok? ==> r.value == Verified(trusted, untrusted, if capture then Some(message) else None))
  {
    SigningSucceeds(s, key, message, prehashed, trusted, untrusted);
    SignThenVerifyAny(s, key, pk, message, prehashed, trusted, untrusted, message, force, capture);
  }

  /** A signature file is loaded as exactly the valid box whose lines it has, if it is not too large. */
  lemma LoadSignatureIff(contents: Bytes, b: SignatureBox)
    ensures LoadSignature(contents) == Ok(b) <==>
              b.Valid() && Lines.Split(contents) == BoxLines(b) && |contents| <= MAX_SIGNATURE_FILE_BYTES
  {
    AcceptedLines(contents, b);
    if LoadSignature(contents) == Ok(b) {
      assert FromFileContents(contents) == Ok(b);
    }
    if b.Valid() && Lines.Split(contents) == BoxLines(b) { AcceptedIsUtf8(contents); }
  }

  /** The file is the file of `b`, a box of the key's number that the options admit, and both of
      its signatures verify: one of the message in its mode, one of the first followed by the
      trusted comment. */
  ghost predicate Proves<H>(
      s: Scheme<H>, pk: PublicKey, signatureFile: Bytes, message: Bytes, force: bool, capture: bool,
      b: SignatureBox)
  {
    b.Valid() && Lines.Split(signatureFile) == BoxLines(b) &&
    |signatureFile| <= MAX_SIGNATURE_FILE_BYTES && b.sig.keynum == pk.keynum &&
    (force ==> b.sig.prehashed) &&
    (capture || !b.sig.prehashed ==> |message| <= MAX_MESSAGE_SIZE_BYTES) &&
    s.verify(pk.public, if b.sig.prehashed then s.Hash(message) else message, b.sig.signature) &&
    s.verify(pk.public, b.sig.signature + b.trusted, b.globalSignature)
  }

  /** Verification succeeds on exactly such files, with the comments of the box. */
  lemma VerifyMeaning<H>(
      s: Scheme<H>, pk: PublicKey, signatureFile: Bytes, message: Bytes, force: bool, capture: bool, v: Verified)
    ensures Verify(s, pk, signatureFile, message, force, capture) == Ok(v) <==>
              exists b :: Proves(s, pk, signatureFile, message, force, capture, b) &&
                          v == Verified(b.trusted, b.untrusted, if capture then Some(message) else None)
  {
    if Verify(s, pk, signatureFile, message, force, capture) == Ok(v) {
      var b := LoadSignature(signatureFile).value;
      AcceptedLines(signatureFile, b);
      assert Proves(s, pk, signatureFile, message, force, capture, b);
    }
    if b :| Proves(s, pk, signatureFile, message, force, capture, b) &&
            v == Verified(b.trusted, b.untrusted, if capture then Some(message) else None)
    {
      AcceptedLines(signatureFile, b);
      AcceptedIsUtf8(signatureFile);
    }
  }
}
