/** The signature file: the binary structure, the four lines of text, and the limits that both
    implementations put on comments (rs/src/signature.rs, rs/src/validation.rs). */
module SignatureText {
  import opened Basics
  import opened Base64
  import opened Utf8
  import opened CStrings
  import Lines

  const KEYNUM_BYTES := 8
  const SIGNATURE_BYTES := 64
  const SIG_STRUCT_SIZE := 74
  const COMMENTMAXBYTES := 1024
  const TRUSTEDCOMMENTMAXBYTES := 8192
  const COMMENT_PREFIX_SIZE := 20
  const TRUSTED_COMMENT_PREFIX_SIZE := 18

  /** "untrusted comment: " */
  const UNTRUSTED_PREFIX: Bytes :=
    [117, 110, 116, 114, 117, 115, 116, 101, 100, 32, 99, 111, 109, 109, 101, 110, 116, 58, 32]
  /** "trusted comment: " */
  const TRUSTED_PREFIX: Bytes :=
    [116, 114, 117, 115, 116, 101, 100, 32, 99, 111, 109, 109, 101, 110, 116, 58, 32]

  /** "Ed" and "ED". */
  const SIG_ALG_NORMAL: Bytes := [69, 100]
  const SIG_ALG_PREHASHED: Bytes := [69, 68]

  datatype SigError = InvalidSignatureFormat | InvalidComment | InvalidBase64

  // ---- the binary structure ---------------------------------------------------------------------

  datatype SigStruct = SigStruct(prehashed: bool, keynum: Bytes, signature: Bytes) {
    predicate Sized() {
      |keynum| == KEYNUM_BYTES && |signature| == SIGNATURE_BYTES
    }
  }

  function Layout(s: SigStruct): Bytes {
    (if s.prehashed then SIG_ALG_PREHASHED else SIG_ALG_NORMAL) + s.keynum + s.signature
  }

  /** `to_bytes`: fills a zeroed buffer field by field. */
  method ToBytes(s: SigStruct) returns (bytes: array<Byte>)
    requires s.Sized()
    ensures fresh(bytes) && bytes[..] == Layout(s)
  {
    bytes := new Byte[SIG_STRUCT_SIZE](_ => 0);
    CopyInto(bytes, 0, if s.prehashed then SIG_ALG_PREHASHED else SIG_ALG_NORMAL);
    CopyInto(bytes, 2, s.keynum);
    CopyInto(bytes, 10, s.signature);
  }

  function FromBytes(bytes: Bytes): Result<SigStruct, SigError> {
    if |bytes| != SIG_STRUCT_SIZE then Err(InvalidSignatureFormat)
    else if bytes[..2] == SIG_ALG_NORMAL then Ok(SigStruct(false, bytes[2..10], bytes[10..74]))
    else if bytes[..2] == SIG_ALG_PREHASHED then Ok(SigStruct(true, bytes[2..10], bytes[10..74]))
    else Err(InvalidSignatureFormat)
  }

  /** Parsing and serialising are inverse: a structure is read from its own bytes and no others. */
  lemma StructInverse(bytes: Bytes, s: SigStruct)
    ensures FromBytes(bytes) == Ok(s) <==> s.Sized() && bytes == Layout(s)
  {
    AlgorithmsDiffer();
    var alg := if s.prehashed then SIG_ALG_PREHASHED else SIG_ALG_NORMAL;
    if |bytes| == SIG_STRUCT_SIZE {
      StructFields(bytes, alg, s.keynum, s.signature);
    }
  }

  lemma AlgorithmsDiffer()
    ensures SIG_ALG_NORMAL != SIG_ALG_PREHASHED
  {
    assert SIG_ALG_NORMAL[1] != SIG_ALG_PREHASHED[1];
  }

  lemma StructFields(bytes: Bytes, alg: Bytes, keynum: Bytes, signature: Bytes)
    requires |bytes| == SIG_STRUCT_SIZE && |alg| == 2
    ensures bytes == alg + keynum + signature && |keynum| == KEYNUM_BYTES <==>
              bytes[..2] == alg && bytes[2..10] == keynum && bytes[10..74] == signature
  {
    assert bytes == bytes[..2] + bytes[2..10] + bytes[10..74];
  }

  // ---- comments -----------------------------------------------------------------------------------

  /** `validate_untrusted_comment`. */
  predicate ValidUntrusted(comment: Bytes) {
    PrintableText(comment) && |comment| < COMMENTMAXBYTES - COMMENT_PREFIX_SIZE
  }

  /** `validate_trusted_comment`. */
  predicate ValidTrusted(comment: Bytes) {
    PrintableText(comment) && |comment| < TRUSTEDCOMMENTMAXBYTES - TRUSTED_COMMENT_PREFIX_SIZE
  }

  // ---- the whole file -----------------------------------------------------------------------------

  datatype SignatureBox = SignatureBox(
    untrusted: Bytes, sig: SigStruct, trusted: Bytes, globalSignature: Bytes)
  {
    /** The field sizes that the Rust types fix. */
    predicate Sized() {
      sig.Sized() && |globalSignature| == SIGNATURE_BYTES
    }

    predicate Valid() {
      Sized() && ValidUntrusted(untrusted) && ValidTrusted(trusted)
    }
  }

  /** `SignatureBox::new`. */
  function New(untrusted: Bytes, sig: SigStruct, trusted: Bytes, globalSignature: Bytes)
    : Result<SignatureBox, SigError>
  {
    if !ValidUntrusted(untrusted) || !ValidTrusted(trusted) then Err(InvalidComment)
    else Ok(SignatureBox(untrusted, sig, trusted, globalSignature))
  }

  function StripPrefix(line: Bytes, prefix: Bytes): Option<Bytes> {
    if prefix <= line then Some(line[|prefix|..]) else None
  }

  /** `from_file_contents`, check by check. */
  function FromFileContents(contents: Bytes): Result<SignatureBox, SigError> {
    var lines := Lines.Split(contents);
    if |lines| != 4 then Err(InvalidSignatureFormat)
    else FromLines(lines[0], lines[1], lines[2], lines[3])
  }

  function FromLines(line0: Bytes, line1: Bytes, line2: Bytes, line3: Bytes)
    : Result<SignatureBox, SigError>
  {
    var untrusted := StripPrefix(line0, UNTRUSTED_PREFIX);
    if untrusted.None? then Err(InvalidSignatureFormat)
    else if !ValidUntrusted(untrusted.value) then Err(InvalidComment)
    else
      var bytes := StrictDecode(line1);
      if bytes.None? then Err(InvalidBase64)
      else
        match FromBytes(bytes.value)
        case Err(e) => Err(e)
        case Ok(sig) => FromLastLines(untrusted.value, sig, line2, line3)
  }

  function FromLastLines(untrusted: Bytes, sig: SigStruct, line2: Bytes, line3: Bytes)
    : Result<SignatureBox, SigError>
  {
    var trusted := StripPrefix(line2, TRUSTED_PREFIX);
    if trusted.None? then Err(InvalidSignatureFormat)
    else if !ValidTrusted(trusted.value) then Err(InvalidComment)
    else
      var bytes := StrictDecode(line3);
      if bytes.None? then Err(InvalidBase64)
      else if |bytes.value| != SIGNATURE_BYTES then Err(InvalidSignatureFormat)
      else Ok(SignatureBox(untrusted, sig, trusted.value, bytes.value))
  }

  function ToFileContents(b: SignatureBox): Bytes {
    UNTRUSTED_PREFIX + b.untrusted + [LF] + Encode(Layout(b.sig)) + [LF] +
    TRUSTED_PREFIX + b.trusted + [LF] + Encode(b.globalSignature) + [LF]
  }

  // ---- round trips ----------------------------------------------------------------------------------

  /** The four lines of a box. */
  function BoxLines(b: SignatureBox): seq<Bytes> {
    [UNTRUSTED_PREFIX + b.untrusted, Encode(Layout(b.sig)),
     TRUSTED_PREFIX + b.trusted, Encode(b.globalSignature)]
  }

  lemma StripPrefixIff(line: Bytes, prefix: Bytes, rest: Bytes)
    ensures StripPrefix(line, prefix) == Some(rest) <==> line == prefix + rest
  {
  }

  lemma LastLinesAccepted(untrusted: Bytes, sig: SigStruct, line2: Bytes, line3: Bytes, b: SignatureBox)
    ensures FromLastLines(untrusted, sig, line2, line3) == Ok(b) <==>
              b.untrusted == untrusted && b.sig == sig && ValidTrusted(b.trusted) &&
              |b.globalSignature| == SIGNATURE_BYTES &&
              line2 == TRUSTED_PREFIX + b.trusted && line3 == Encode(b.globalSignature)
  {
    StripPrefixIff(line2, TRUSTED_PREFIX, b.trusted);
    StrictDecodeInverse(line3, b.globalSignature);
  }

  /** The second line names a structure exactly when it is the structure's encoding. */
  lemma StructLine(line: Bytes, sig: SigStruct)
    ensures StrictDecode(line).Some? && FromBytes(StrictDecode(line).value) == Ok(sig) <==>
              sig.Sized() && line == Encode(Layout(sig))
  {
    if StrictDecode(line).Some? {
      StructInverse(StrictDecode(line).value, sig);
      StrictDecodeInverse(line, StrictDecode(line).value);
    }
    StructInverse(Layout(sig), sig);
    StrictDecodeInverse(line, Layout(sig));
  }

  lemma FourLinesAccepted(line0: Bytes, line1: Bytes, line2: Bytes, line3: Bytes, b: SignatureBox)
    ensures FromLines(line0, line1, line2, line3) == Ok(b) <==>
              b.Valid() &&
              line0 == UNTRUSTED_PREFIX + b.untrusted && line1 == Encode(Layout(b.sig)) &&
              line2 == TRUSTED_PREFIX + b.trusted && line3 == Encode(b.globalSignature)
  {
    StripPrefixIff(line0, UNTRUSTED_PREFIX, b.untrusted);
    StructLine(line1, b.sig);
    var untrusted, bytes := StripPrefix(line0, UNTRUSTED_PREFIX), StrictDecode(line1);
    if untrusted.Some? && bytes.Some? && FromBytes(bytes.value).Ok? {
      LastLinesAccepted(untrusted.value, FromBytes(bytes.value).value, line2, line3, b);
    }
  }

  /** What is accepted is exactly the four lines of a valid box. */
  lemma AcceptedLines(contents: Bytes, b: SignatureBox)
    ensures FromFileContents(contents) == Ok(b) <==>
              b.Valid() && Lines.Split(contents) == BoxLines(b)
  {
    var lines := Lines.Split(contents);
    if |lines| == 4 {
      FourLinesAccepted(lines[0], lines[1], lines[2], lines[3], b);
    }
  }

  lemma FourNested(p: Bytes, u: Bytes, e: Bytes, q: Bytes, t: Bytes, f: Bytes)
    ensures p + u + [LF] + e + [LF] + q + t + [LF] + f + [LF] ==
              p + u + [LF] + (e + [LF] + (q + t + [LF] + (f + [LF] + [])))
  {
  }

  /** The file of a box as four nested lines. */
  lemma Nested(b: SignatureBox)
    ensures ToFileContents(b) ==
              UNTRUSTED_PREFIX + b.untrusted + [LF] +
                (Encode(Layout(b.sig)) + [LF] +
                   (TRUSTED_PREFIX + b.trusted + [LF] + (Encode(b.globalSignature) + [LF] + [])))
  {
    FourNested(UNTRUSTED_PREFIX, b.untrusted, Encode(Layout(b.sig)),
               TRUSTED_PREFIX, b.trusted, Encode(b.globalSignature));
  }

  lemma JoinFour(a: Bytes, b: Bytes, c: Bytes, d: Bytes)
    ensures Lines.Join([a, b, c, d]) == a + [LF] + (b + [LF] + (c + [LF] + (d + [LF] + [])))
  {
    Lines.JoinFirst(d, []);
    Lines.JoinFirst(c, [d]);
    Lines.JoinFirst(b, [c, d]);
    Lines.JoinFirst(a, [b, c, d]);
    assert [d] + [] == [d] && [c] + [d] == [c, d] && [b] + [c, d] == [b, c, d];
    assert [a] + [b, c, d] == [a, b, c, d];
  }

  lemma ToFileContentsIsJoin(b: SignatureBox)
    ensures ToFileContents(b) == Lines.Join(BoxLines(b))
  {
    var l := BoxLines(b);
    JoinFour(l[0], l[1], l[2], l[3]);
    Nested(b);
  }

  /** Encoded bytes are letters, digits, '+', '/' and '='. */
  lemma EncodedBytes(data: Bytes)
    ensures forall k :: 0 <= k < |Encode(data)| ==> 0x20 < Encode(data)[k] && Encode(data)[k] < 0x7F
  {
    if data != [] {
      var t := Encode(data);
      EncodeIsCanonical(data);
      forall k | 0 <= k < |t| ensures 0x20 < t[k] && t[k] < 0x7F {
        WellFormedLetter(t, k);
        LetterRange(t[k]);
      }
    }
  }

  lemma WellFormedLetter(t: Bytes, k: nat)
    requires WellFormed(t) && k < |t|
    ensures InAlphabet(t[k]) || t[k] == PAD
  {
    assert k < |t| - 2 || k == |t| - 2 || k == |t| - 1;
  }

  lemma LetterRange(c: Byte)
    requires InAlphabet(c) || c == PAD
    ensures 0x20 < c && c < 0x7F
  {
  }

  /** Bytes that occur in no line: NUL, line feed and carriage return. */
  predicate Clean(line: Bytes) {
    0 !in line && LF !in line && CR !in line
  }

  lemma CleanLines(b: SignatureBox)
    requires PrintableText(b.untrusted) && PrintableText(b.trusted)
    ensures forall k :: 0 <= k < 4 ==> Clean(BoxLines(b)[k])
  {
    CommentIsClean(b.untrusted);
    CommentIsClean(b.trusted);
    EncodedIsClean(Layout(b.sig));
    EncodedIsClean(b.globalSignature);
  }

  lemma CommentIsClean(comment: Bytes)
    requires PrintableText(comment)
    ensures Clean(UNTRUSTED_PREFIX + comment) && Clean(TRUSTED_PREFIX + comment) && Clean(comment)
  {
    PrintableBytes(comment);
    CleanLine(UNTRUSTED_PREFIX, comment);
    CleanLine(TRUSTED_PREFIX, comment);
  }

  lemma EncodedIsClean(data: Bytes)
    ensures Clean(Encode(data))
  {
    EncodedBytes(data);
  }

  lemma CleanLine(prefix: Bytes, comment: Bytes)
    requires prefix == UNTRUSTED_PREFIX || prefix == TRUSTED_PREFIX
    requires forall k :: 0 <= k < |comment| ==> comment[k] >= 0x20 || comment[k] == 9
    ensures Clean(prefix + comment)
  {
  }

  /** A valid box is what its own file is read as. */
  lemma TextRoundTrip(b: SignatureBox)
    requires b.Valid()
    ensures FromFileContents(ToFileContents(b)) == Ok(b)
  {
    CleanLines(b);
    ToFileContentsIsJoin(b);
    Lines.SplitJoin(BoxLines(b));
    AcceptedLines(ToFileContents(b), b);
  }

  /** An accepted file is, up to CR LF for LF and a missing final line feed, the file that its
      box is written as. */
  lemma AcceptedReserialises(contents: Bytes, b: SignatureBox)
    requires FromFileContents(contents) == Ok(b)
    ensures b.Valid() && ToFileContents(b) == Lines.Normalise(contents)
  {
    AcceptedLines(contents, b);
    ToFileContentsIsJoin(b);
    Lines.JoinSplit(contents);
  }

  /** Constructing a box from sized parts succeeds exactly when it could have been read back. */
  lemma NewIffReadable(untrusted: Bytes, sig: SigStruct, trusted: Bytes, globalSignature: Bytes)
    requires sig.Sized() && |globalSignature| == SIGNATURE_BYTES
    ensures var b := SignatureBox(untrusted, sig, trusted, globalSignature);
            New(untrusted, sig, trusted, globalSignature) == Ok(b) <==>
              exists contents :: FromFileContents(contents) == Ok(b)
  {
    var b := SignatureBox(untrusted, sig, trusted, globalSignature);
    if b.Valid() { TextRoundTrip(b); }
    if contents :| FromFileContents(contents) == Ok(b) { AcceptedLines(contents, b); }
  }

  // ---- accepted files are UTF-8 ---------------------------------------------------------------------

  predicate AllDecode(lines: seq<Bytes>) {
    lines == [] || (DecodeText(lines[0]).Some? && AllDecode(lines[1..]))
  }

  lemma AllDecodeFirst(line: Bytes, rest: seq<Bytes>)
    ensures AllDecode([line] + rest) <==> DecodeText(line).Some? && AllDecode(rest)
  {
    assert ([line] + rest)[1..] == rest;
  }

  lemma {:induction false} LinesDecode(text: Bytes)
    requires AllDecode(Lines.Split(text))
    ensures DecodeText(text).Some?
  {
    if text != [] {
      var k := Find(text, LF);
      if k == |text| {
        assert Lines.Split(text) == [text] + [];
        AllDecodeFirst(text, []);
      } else {
        var line, rest := text[..k], text[k + 1..];
        assert text == line + [LF] + rest;
        Lines.SplitFirst(line, rest);
        AllDecodeFirst(WithoutCr(line), Lines.Split(rest));
        LinesDecode(rest);
        LineDecodes(line, rest);
      }
    }
  }

  lemma LineDecodes(line: Bytes, rest: Bytes)
    requires DecodeText(WithoutCr(line)).Some? && DecodeText(rest).Some?
    ensures DecodeText(line + [LF] + rest).Some?
  {
    AsciiDecodes([LF]);
    AsciiDecodes([CR]);
    if WithoutCr(line) != line {
      DecodeConcat(WithoutCr(line), [CR]);
      assert WithoutCr(line) + [CR] == line;
    }
    DecodeConcat(line, [LF]);
    DecodeConcat(line + [LF], rest);
  }

  /** Every accepted file is well-formed UTF-8 throughout, so reading the file as a Rust string
      first turns no accepted file away. */
  lemma AcceptedIsUtf8(contents: Bytes)
    requires FromFileContents(contents).Ok?
    ensures DecodeText(contents).Some?
  {
    var b := FromFileContents(contents).value;
    AcceptedLines(contents, b);
    PrefixesAscii();
    CommentLineDecodes(UNTRUSTED_PREFIX, b.untrusted);
    CommentLineDecodes(TRUSTED_PREFIX, b.trusted);
    EncodedDecodes(Layout(b.sig));
    EncodedDecodes(b.globalSignature);
    FourDecode(BoxLines(b));
    LinesDecode(contents);
  }

  lemma FourDecode(lines: seq<Bytes>)
    requires |lines| == 4
    requires DecodeText(lines[0]).Some? && DecodeText(lines[1]).Some?
    requires DecodeText(lines[2]).Some? && DecodeText(lines[3]).Some?
    ensures AllDecode(lines)
  {
    assert AllDecode(lines[1..][1..][1..]);
    assert AllDecode(lines[1..][1..]);
    assert AllDecode(lines[1..]);
  }

  lemma CommentLineDecodes(prefix: Bytes, comment: Bytes)
    requires forall k :: 0 <= k < |prefix| ==> prefix[k] < 0x80
    requires DecodeText(comment).Some?
    ensures DecodeText(prefix + comment).Some?
  {
    AsciiDecodes(prefix);
    DecodeConcat(prefix, comment);
  }

  lemma PrefixesAscii()
    ensures forall k :: 0 <= k < |UNTRUSTED_PREFIX| ==> UNTRUSTED_PREFIX[k] < 0x80
    ensures forall k :: 0 <= k < |TRUSTED_PREFIX| ==> TRUSTED_PREFIX[k] < 0x80
  {
  }

  lemma EncodedDecodes(data: Bytes)
    ensures DecodeText(Encode(data)).Some?
  {
    EncodedBytes(data);
    Ascii(Encode(data));
  }

  lemma Ascii(t: Bytes)
    requires forall k :: 0 <= k < |t| ==> 0x20 < t[k] && t[k] < 0x7F
    ensures DecodeText(t).Some?
  {
    forall k | 0 <= k < |t| ensures t[k] < 0x80 {
    }
    AsciiDecodes(t);
  }
}
