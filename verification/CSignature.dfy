/** `sig_load` of src/minisign.c: the signature file read through bounded `fgets` buffers, and its
    agreement with what the Rust side writes. */
module CSignature {
  import opened Basics
  import opened Base64
  import opened Base64Buffers
  import opened Utf8
  import opened Utf8Scanner
  import opened CStrings
  import opened SignatureText
  import Lines

  /** `B64_MAX_LEN_FROM_BIN_LEN`. */
  function B64MaxLen(n: nat): nat {
    (n + 2) / 3 * 4 + 1
  }

  const SIG_BUFFER := B64MaxLen(SIG_STRUCT_SIZE) + 2
  const GLOBAL_BUFFER := B64MaxLen(SIGNATURE_BYTES) + 2

  /** What `sig_load` hands to its caller. */
  datatype Loaded = Loaded(sig: Bytes, hashed: bool, trusted: Bytes, globalSignature: Bytes)

  // ---- what is read, stage by stage ------------------------------------------------------------

  function Trimmed(s: Bytes): Bytes {
    WithoutCr(WithoutLf(s))
  }

  /** The string one `fgets` leaves in its buffer. */
  function Line(rest: Bytes, size: nat): Bytes
    requires size > 1
  {
    CString(rest[..LineSize(rest, size)])
  }

  function After(rest: Bytes, size: nat): Bytes
    requires size > 1
  {
    rest[LineSize(rest, size)..]
  }

  function Load(contents: Bytes): Option<Loaded> {
    var line := Line(contents, COMMENTMAXBYTES);
    if contents == [] || !TrimAccepts(line) || !(UNTRUSTED_PREFIX <= Trimmed(line)) then None
    else LoadSignature(After(contents, COMMENTMAXBYTES))
  }

  function LoadSignature(rest: Bytes): Option<Loaded> {
    var line := Line(rest, SIG_BUFFER);
    if rest == [] || !TrimAccepts(line) then None
    else LoadTrusted(After(rest, SIG_BUFFER), Trimmed(line))
  }

  function LoadTrusted(rest: Bytes, sig: Bytes): Option<Loaded> {
    var line := Line(rest, TRUSTEDCOMMENTMAXBYTES);
    if rest == [] || !(TRUSTED_PREFIX <= line) then None
    else
      var comment := line[|TRUSTED_PREFIX|..];
      if !TrimAccepts(comment) || !PrintableText(Trimmed(comment)) then None
      else LoadGlobal(After(rest, TRUSTEDCOMMENTMAXBYTES), sig, Trimmed(comment))
  }

  function LoadGlobal(rest: Bytes, sig: Bytes, trusted: Bytes): Option<Loaded> {
    if rest == [] then None else Convert(sig, trusted, Trimmed(Line(rest, GLOBAL_BUFFER)))
  }

  /** The bytes of a text that fills `size` bytes exactly. */
  function DecodeExactly(text: Bytes, size: nat): Option<Bytes> {
    DecodableIffWellFormed(text);
    if WellFormed(text) && |Decode(text)| == size then Some(Decode(text)) else None
  }

  function Convert(sig: Bytes, trusted: Bytes, global: Bytes): Option<Loaded> {
    var s, g := DecodeExactly(sig, SIG_STRUCT_SIZE), DecodeExactly(global, SIGNATURE_BYTES);
    if s.None? || (s.value[..2] != SIG_ALG_NORMAL && s.value[..2] != SIG_ALG_PREHASHED) || g.None? then None
    else Some(Loaded(s.value, s.value[..2] != SIG_ALG_NORMAL, trusted, g.value))
  }

  // ---- the C routine -------------------------------------------------------------------------------

  /** `memmove` of a string over its own first `k` bytes. */
  method MoveDown(str: array<Byte>, k: nat)
    requires Terminated(str[..]) && k <= |CString(str[..])|
    modifies str
    ensures Terminated(str[..]) && CString(str[..]) == old(CString(str[..])[k..])
  {
    ghost var text := CString(str[..]);
    var n := Find(str[..], 0);
    var i := k;
    while i < n
      invariant k <= i <= n
      invariant forall m :: 0 <= m < i - k ==> str[m] == text[k + m]
      invariant forall m :: i <= m < n ==> str[m] == text[m]
    {
      str[i - k] := str[i];
      i := i + 1;
    }
    str[n - k] := 0;
    assert str[..n - k] == text[k..];
    FindUnique(str[..], 0, n - k);
  }

  /** `b64_to_bin` into a buffer of the expected size, and the test that it was filled. */
  method DecodeInto(bin: array<Byte>, text: Bytes) returns (ok: bool)
    modifies bin
    ensures ok <==> DecodeExactly(text, bin.Length).Some?
    ensures ok ==> bin[..] == DecodeExactly(text, bin.Length).value
  {
    GuardMeaning(text, bin.Length);
    var n := B64ToBin(bin, text, bin.Length);
    assert bin[..bin.Length] == bin[..];
    return n == Some(bin.Length);
  }

  method SigLoad(fp: Stream) returns (r: Option<Loaded>)
    modifies fp
    ensures r == Load(old(fp.rest))
  {
    var comment := new Byte[COMMENTMAXBYTES](_ => 0);
    var ok := fp.Gets(comment, COMMENTMAXBYTES);
    if !ok { return None; }
    ok := Trim(comment);
    if !ok || !(UNTRUSTED_PREFIX <= CString(comment[..])) { return None; }
    r := SigLoadSignature(fp);
  }

  method SigLoadSignature(fp: Stream) returns (r: Option<Loaded>)
    modifies fp
    ensures r == LoadSignature(old(fp.rest))
  {
    var sig := new Byte[SIG_BUFFER](_ => 0);
    var ok := fp.Gets(sig, SIG_BUFFER);
    if !ok { return None; }
    ok := Trim(sig);
    if !ok { return None; }
    r := SigLoadTrusted(fp, sig);
  }

  method SigLoadTrusted(fp: Stream, sig: array<Byte>) returns (r: Option<Loaded>)
    requires Terminated(sig[..])
    modifies fp
    ensures r == LoadTrusted(old(fp.rest), CString(sig[..]))
  {
    var comment := new Byte[TRUSTEDCOMMENTMAXBYTES](_ => 0);
    var ok := fp.Gets(comment, TRUSTEDCOMMENTMAXBYTES);
    if !ok || !(TRUSTED_PREFIX <= CString(comment[..])) { return None; }
    MoveDown(comment, |TRUSTED_PREFIX|);
    ok := Trim(comment);
    if !ok { return None; }
    ok := Scan(comment);
    if !ok { return None; }
    r := SigLoadGlobal(fp, sig, comment);
  }

  method SigLoadGlobal(fp: Stream, sig: array<Byte>, trusted: array<Byte>) returns (r: Option<Loaded>)
    requires Terminated(sig[..]) && Terminated(trusted[..])
    modifies fp
    ensures r == LoadGlobal(old(fp.rest), CString(sig[..]), CString(trusted[..]))
  {
    var global := new Byte[GLOBAL_BUFFER](_ => 0);
    var ok := fp.Gets(global, GLOBAL_BUFFER);
    if !ok { return None; }
    var _ := Trim(global);
    r := ConvertBoth(CString(sig[..]), CString(trusted[..]), CString(global[..]));
  }

  method ConvertBoth(sig: Bytes, trusted: Bytes, global: Bytes) returns (r: Option<Loaded>)
    ensures r == Convert(sig, trusted, global)
  {
    var sigStruct := new Byte[SIG_STRUCT_SIZE](_ => 0);
    var ok := DecodeInto(sigStruct, sig);
    if !ok { return None; }
    var alg := sigStruct[..2];
    var hashed := alg != SIG_ALG_NORMAL;
    if hashed && alg != SIG_ALG_PREHASHED { return None; }
    var globalSig := new Byte[SIGNATURE_BYTES](_ => 0);
    ok := DecodeInto(globalSig, global);
    if !ok { return None; }
    return Some(Loaded(sigStruct[..], hashed, trusted, globalSig[..]));
  }

  // ---- reading what Rust has written ---------------------------------------------------------------

  /** A line that fits the buffer is read whole. */
  lemma WholeLine(line: Bytes, rest: Bytes, size: nat)
    requires Clean(line) && |line| + 2 <= size
    ensures var file := line + [LF] + rest;
            Line(file, size) == line + [LF] && After(file, size) == rest
  {
    var file := line + [LF] + rest;
    Lines.FindIn(line, LF, rest);
    assert file[..|line| + 1] == line + [LF];
    FindUnique(line + [LF], 0, |line| + 1);
  }

  lemma CompleteLine(line: Bytes)
    requires Clean(line)
    ensures TrimAccepts(line + [LF]) && Trimmed(line + [LF]) == line
  {
    assert DropLast(line + [LF]) == line;
  }

  /** A longer one is cut before its line feed. */
  lemma CutLine(line: Bytes, rest: Bytes, size: nat)
    requires Clean(line) && size > 1 && |line| + 2 > size
    ensures Line(line + [LF] + rest, size) == line[..size - 1]
  {
    var file := line + [LF] + rest;
    Lines.FindIn(line, LF, rest);
    assert file[..size - 1] == line[..size - 1];
    FindUnique(line[..size - 1], 0, size - 1);
  }

  lemma EncodedDecodesExactly(data: Bytes)
    requires data != []
    ensures DecodeExactly(Encode(data), |data|) == Some(data)
  {
    RoundTrip(data);
    EncodeIsCanonical(data);
  }

  function WrittenAs(b: SignatureBox): Loaded {
    Loaded(Layout(b.sig), b.sig.prehashed, b.trusted, b.globalSignature)
  }

  lemma GlobalRead(b: SignatureBox)
    requires b.Sized() && Clean(Encode(b.globalSignature))
    ensures LoadGlobal(Encode(b.globalSignature) + [LF] + [], Encode(Layout(b.sig)), b.trusted) ==
              Some(WrittenAs(b))
  {
    var line := Encode(b.globalSignature);
    EncodeLength(b.globalSignature);
    WholeLine(line, [], GLOBAL_BUFFER);
    CompleteLine(line);
    EncodedDecodesExactly(b.globalSignature);
    EncodedDecodesExactly(Layout(b.sig));
    assert Layout(b.sig)[..2] == if b.sig.prehashed then SIG_ALG_PREHASHED else SIG_ALG_NORMAL;
    assert SIG_ALG_PREHASHED[1] != SIG_ALG_NORMAL[1];
  }

  const LONGEST_UNTRUSTED := 1003
  const LONGEST_TRUSTED := 8173

  lemma TrustedFits(comment: Bytes, rest: Bytes, sig: Bytes)
    requires PrintableText(comment) && Clean(TRUSTED_PREFIX + comment) && Clean(comment)
    requires |comment| <= LONGEST_TRUSTED
    ensures LoadTrusted(TRUSTED_PREFIX + comment + [LF] + rest, sig) == LoadGlobal(rest, sig, comment)
  {
    var line := TRUSTED_PREFIX + comment;
    WholeLine(line, rest, TRUSTEDCOMMENTMAXBYTES);
    assert (line + [LF])[|TRUSTED_PREFIX|..] == comment + [LF];
    CompleteLine(comment);
  }

  /** What is left of a comment that is cut does not end in a line feed. */
  lemma CutComment(prefix: Bytes, comment: Bytes, size: nat)
    requires LF !in comment && |prefix| < size <= |prefix| + |comment|
    ensures prefix <= (prefix + comment)[..size]
    ensures (prefix + comment)[..size][|prefix|..] == comment[..size - |prefix|]
    ensures !TrimAccepts((prefix + comment)[..size][|prefix|..])
  {
  }

  lemma TrustedCut(comment: Bytes, rest: Bytes, sig: Bytes)
    requires Clean(TRUSTED_PREFIX + comment) && Clean(comment) && |comment| > LONGEST_TRUSTED
    ensures LoadTrusted(TRUSTED_PREFIX + comment + [LF] + rest, sig) == None
  {
    CutLine(TRUSTED_PREFIX + comment, rest, TRUSTEDCOMMENTMAXBYTES);
    CutComment(TRUSTED_PREFIX, comment, TRUSTEDCOMMENTMAXBYTES - 1);
  }

  lemma SignatureRead(b: SignatureBox, rest: Bytes)
    requires b.Sized() && Clean(Encode(Layout(b.sig)))
    ensures LoadSignature(Encode(Layout(b.sig)) + [LF] + rest) ==
              LoadTrusted(rest, Encode(Layout(b.sig)))
  {
    EncodeLength(Layout(b.sig));
    WholeLine(Encode(Layout(b.sig)), rest, SIG_BUFFER);
    CompleteLine(Encode(Layout(b.sig)));
  }

  lemma UntrustedRead(b: SignatureBox, rest: Bytes)
    requires Clean(UNTRUSTED_PREFIX + b.untrusted)
    ensures Load(UNTRUSTED_PREFIX + b.untrusted + [LF] + rest) ==
              if |b.untrusted| <= LONGEST_UNTRUSTED then LoadSignature(rest) else None
  {
    var line := UNTRUSTED_PREFIX + b.untrusted;
    if |b.untrusted| <= LONGEST_UNTRUSTED {
      WholeLine(line, rest, COMMENTMAXBYTES);
      CompleteLine(line);
    } else {
      CutLine(line, rest, COMMENTMAXBYTES);
      assert line[..COMMENTMAXBYTES - 1][COMMENTMAXBYTES - 2] in line;
    }
  }

  /** C reads the file of a box with printable comments exactly when neither comment is longer
      than 1003 and 8173 bytes, and then gets the fields of the box. */
  lemma WrittenIsLoaded(b: SignatureBox)
    requires b.Sized() && PrintableText(b.untrusted) && PrintableText(b.trusted)
    ensures Load(ToFileContents(b)) ==
              if |b.untrusted| <= LONGEST_UNTRUSTED && |b.trusted| <= LONGEST_TRUSTED
              then Some(WrittenAs(b)) else None
  {
    CleanLines(b);
    assert Clean(BoxLines(b)[0]) && Clean(BoxLines(b)[1]) && Clean(BoxLines(b)[2]) && Clean(BoxLines(b)[3]);
    PrintableBytes(b.trusted);
    Nested(b);
    var last := Encode(b.globalSignature) + [LF] + [];
    var fromTrusted := TRUSTED_PREFIX + b.trusted + [LF] + last;
    var fromSignature := Encode(Layout(b.sig)) + [LF] + fromTrusted;
    UntrustedRead(b, fromSignature);
    SignatureRead(b, fromTrusted);
    if |b.trusted| <= LONGEST_TRUSTED {
      TrustedFits(b.trusted, last, Encode(Layout(b.sig)));
    } else {
      TrustedCut(b.trusted, last, Encode(Layout(b.sig)));
    }
    GlobalRead(b);
  }

  /** `SignatureBox::new` accepts exactly the comments with which C reads the file back. */
  lemma NewIffLoaded(untrusted: Bytes, sig: SigStruct, trusted: Bytes, globalSignature: Bytes)
    requires sig.Sized() && |globalSignature| == SIGNATURE_BYTES
    requires PrintableText(untrusted) && PrintableText(trusted)
    ensures New(untrusted, sig, trusted, globalSignature).Ok? <==>
              Load(ToFileContents(SignatureBox(untrusted, sig, trusted, globalSignature))).Some?
  {
    WrittenIsLoaded(SignatureBox(untrusted, sig, trusted, globalSignature));
  }

  /** Whatever Rust accepts from `new` or from a file, C accepts when Rust has written it. */
  method WriteThenLoad(b: SignatureBox) returns (r: Option<Loaded>)
    requires b.Valid()
    ensures r == Some(WrittenAs(b))
  {
    WrittenIsLoaded(b);
    var fp := new Stream(ToFileContents(b));
    r := SigLoad(fp);
  }
}
