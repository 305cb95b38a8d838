/** Exactly which signature files `sig_load` accepts, and which key files `seckey_load`, among files
    of lines without NULs and stray carriage returns, whoever wrote them and however their lines end. */
module CFiles {
  import opened Basics
  import opened Base64
  import opened Utf8
  import opened CStrings
  import opened SignatureText
  import opened CSignature
  import Lines
  import SecretKey
  import K = CSecretKey

  /** LF or CR LF. */
  predicate LineEnd(e: Bytes) {
    e == [LF] || e == [CR, LF]
  }

  // ---- one line ---------------------------------------------------------------------------------------

  lemma EndedLine(line: Bytes, e: Bytes)
    requires Clean(line) && LineEnd(e)
    ensures TrimAccepts(line + e) && Trimmed(line + e) == line && 0 !in line + e
  {
    var s := line + e;
    assert WithoutLf(s) == if e == [LF] then line else line + [CR];
  }

  /** A line that fits the buffer with its ending is read whole. */
  lemma ReadWhole(line: Bytes, e: Bytes, rest: Bytes, size: nat)
    requires Clean(line) && LineEnd(e) && |line| + |e| < size
    ensures Line(line + e + rest, size) == line + e && After(line + e + rest, size) == rest
  {
    var file := line + e + rest;
    var before := if e == [LF] then line else line + [CR];
    assert file == before + [LF] + rest;
    Lines.FindIn(before, LF, rest);
    assert file[..|line| + |e|] == line + e && file[|line| + |e|..] == rest;
    EndedLine(line, e);
    FindUnique(line + e, 0, |line| + |e|);
  }

  /** A longer one is cut before its line feed. */
  lemma ReadCut(line: Bytes, e: Bytes, rest: Bytes, size: nat)
    requires Clean(line) && LineEnd(e) && 1 < size <= |line| + |e|
    ensures Line(line + e + rest, size) == (line + e)[..size - 1]
    ensures LF !in (line + e)[..size - 1] && !TrimAccepts(Line(line + e + rest, size))
  {
    var file := line + e + rest;
    var before := if e == [LF] then line else line + [CR];
    assert file == before + [LF] + rest;
    Lines.FindIn(before, LF, rest);
    assert file[..size - 1] == (line + e)[..size - 1] == before[..size - 1];
    FindUnique(before[..size - 1], 0, size - 1);
  }

  lemma PrefixReachesEnd(prefix: Bytes, line: Bytes, e: Bytes)
    requires prefix <= line + e && |prefix| > |line|
    ensures e != [] && e[0] in prefix
  {
    assert prefix[|line|] == (line + e)[|line|] == e[0];
  }

  lemma PrefixOfLine(prefix: Bytes, line: Bytes, e: Bytes)
    requires LF !in prefix && CR !in prefix && LineEnd(e)
    ensures prefix <= line + e <==> prefix <= line
  {
    if |prefix| > |line| {
      if prefix <= line + e { PrefixReachesEnd(prefix, line, e); }
    } else {
      assert (line + e)[..|prefix|] == line[..|prefix|];
    }
  }

  lemma PrefixesClean()
    ensures LF !in UNTRUSTED_PREFIX && CR !in UNTRUSTED_PREFIX && LF !in TRUSTED_PREFIX && CR !in TRUSTED_PREFIX
  {
  }

  // ---- line by line -----------------------------------------------------------------------------------

  lemma UntrustedLine(line: Bytes, e: Bytes, rest: Bytes)
    requires Clean(line) && LineEnd(e)
    ensures Load(line + e + rest) ==
              if |line| + |e| < COMMENTMAXBYTES && UNTRUSTED_PREFIX <= line then LoadSignature(rest) else None
  {
    if |line| + |e| < COMMENTMAXBYTES {
      ReadWhole(line, e, rest, COMMENTMAXBYTES);
      EndedLine(line, e);
    } else {
      ReadCut(line, e, rest, COMMENTMAXBYTES);
    }
  }

  lemma SignatureLine(line: Bytes, e: Bytes, rest: Bytes)
    requires Clean(line) && LineEnd(e)
    ensures LoadSignature(line + e + rest) == if |line| + |e| < SIG_BUFFER then LoadTrusted(rest, line) else None
  {
    if |line| + |e| < SIG_BUFFER {
      ReadWhole(line, e, rest, SIG_BUFFER);
      EndedLine(line, e);
    } else {
      ReadCut(line, e, rest, SIG_BUFFER);
    }
  }

  lemma TrustedLine(line: Bytes, e: Bytes, rest: Bytes, sig: Bytes)
    requires Clean(line) && LineEnd(e)
    ensures LoadTrusted(line + e + rest, sig) ==
              if |line| + |e| < TRUSTEDCOMMENTMAXBYTES && TRUSTED_PREFIX <= line && PrintableText(line[|TRUSTED_PREFIX|..])
              then LoadGlobal(rest, sig, line[|TRUSTED_PREFIX|..])
              else None
  {
    PrefixesClean();
    if |line| + |e| < TRUSTEDCOMMENTMAXBYTES {
      ReadWhole(line, e, rest, TRUSTEDCOMMENTMAXBYTES);
      PrefixOfLine(TRUSTED_PREFIX, line, e);
      if TRUSTED_PREFIX <= line {
        var comment := line[|TRUSTED_PREFIX|..];
        assert (line + e)[|TRUSTED_PREFIX|..] == comment + e;
        EndedLine(comment, e);
      }
    } else {
      ReadCut(line, e, rest, TRUSTEDCOMMENTMAXBYTES);
      NoLfRefused((line + e)[..TRUSTEDCOMMENTMAXBYTES - 1], |TRUSTED_PREFIX|);
    }
  }

  lemma NoLfRefused(s: Bytes, k: nat)
    requires LF !in s && k <= |s|
    ensures !TrimAccepts(s[k..])
  {
  }

  lemma DecodedLength(text: Bytes, size: nat)
    requires DecodeExactly(text, size).Some?
    ensures |text| == (size + 2) / 3 * 4
  {
    ReencodedLength(text);
    EncodeLength(Decode(text));
  }

  /** The last line may lack its ending, and anything may follow it. */
  predicate LastEnd(e: Bytes, more: Bytes) {
    LineEnd(e) || (e == [] && more == [])
  }

  /** Reading the last line loses nothing that could be decoded. */
  lemma LastLine(line: Bytes, e: Bytes, more: Bytes, size: nat, buffer: nat) returns (text: Bytes)
    requires Clean(line) && LastEnd(e, more) && line + e + more != [] && buffer == B64MaxLen(size) + 2
    ensures text == Trimmed(Line(line + e + more, buffer))
    ensures DecodeExactly(text, size) == DecodeExactly(line, size)
  {
    var read := Line(line + e + more, buffer);
    text := Trimmed(read);
    if |line| + |e| < buffer {
      if e == [] {
        assert line + e + more == line;
        UnendedLine(line, buffer);
      } else {
        ReadWhole(line, e, more, buffer);
        EndedLine(line, e);
      }
    } else {
      if e == [] {
        assert line + e + more == line;
        UnendedLine(line, buffer);
      } else {
        ReadCut(line, e, more, buffer);
      }
      assert |read| == buffer - 1 && LF !in read;
      TooLong(read, line, size);
    }
  }

  lemma UnendedLine(line: Bytes, size: nat)
    requires Clean(line) && size > 1
    ensures Line(line, size) == (if |line| < size then line else line[..size - 1])
    ensures |line| < size ==> Trimmed(Line(line, size)) == line
  {
    FindUnique(line, LF, |line|);
    var read := if |line| < size then line else line[..size - 1];
    assert line[..LineSize(line, size)] == read;
    FindUnique(read, 0, |read|);
  }

  lemma TooLong(read: Bytes, line: Bytes, size: nat)
    requires |read| == B64MaxLen(size) + 1 && LF !in read && |line| >= B64MaxLen(size)
    ensures DecodeExactly(Trimmed(read), size) == None
    ensures DecodeExactly(line, size) == None
  {
    assert |Trimmed(read)| >= B64MaxLen(size);
    if DecodeExactly(Trimmed(read), size).Some? { DecodedLength(Trimmed(read), size); }
    if DecodeExactly(line, size).Some? { DecodedLength(line, size); }
  }

  lemma NothingDecoded(line: Bytes, size: nat)
    requires line == [] && size > 0
    ensures DecodeExactly(line, size) == None
  {
    if DecodeExactly(line, size).Some? { DecodedLength(line, size); }
  }

  lemma GlobalLine(line: Bytes, e: Bytes, more: Bytes, sig: Bytes, trusted: Bytes)
    requires Clean(line) && LastEnd(e, more)
    ensures LoadGlobal(line + e + more, sig, trusted) == Convert(sig, trusted, line)
  {
    if line + e + more == [] {
      assert line == [];
      NothingDecoded(line, SIGNATURE_BYTES);
    } else {
      var text := LastLine(line, e, more, SIGNATURE_BYTES, GLOBAL_BUFFER);
      SameConverted(sig, trusted, text, line);
    }
  }

  lemma SameConverted(sig: Bytes, trusted: Bytes, a: Bytes, b: Bytes)
    requires DecodeExactly(a, SIGNATURE_BYTES) == DecodeExactly(b, SIGNATURE_BYTES)
    ensures Convert(sig, trusted, a) == Convert(sig, trusted, b)
  {
  }

  // ---- the whole file ---------------------------------------------------------------------------------

  /** What is loaded from four lines, or nothing: the comment lines fit their buffers with their
      endings and bear their prefixes, the trusted comment is printable, and the other two lines
      are base64 of a structure of a known algorithm and of a signature. */
  function Accepted(line0: Bytes, e0: Bytes, line1: Bytes, line2: Bytes, e2: Bytes, line3: Bytes): Option<Loaded> {
    if |line0| + |e0| < COMMENTMAXBYTES && UNTRUSTED_PREFIX <= line0 &&
       |line2| + |e2| < TRUSTEDCOMMENTMAXBYTES && TRUSTED_PREFIX <= line2 &&
       PrintableText(line2[|TRUSTED_PREFIX|..])
    then AcceptedFields(line1, line2[|TRUSTED_PREFIX|..], line3)
    else None
  }

  function AcceptedFields(line1: Bytes, trusted: Bytes, line3: Bytes): Option<Loaded> {
    var s, g := DecodeExactly(line1, SIG_STRUCT_SIZE), DecodeExactly(line3, SIGNATURE_BYTES);
    if s.Some? && (s.value[..2] == SIG_ALG_NORMAL || s.value[..2] == SIG_ALG_PREHASHED) && g.Some?
    then Some(Loaded(s.value, s.value[..2] == SIG_ALG_PREHASHED, trusted, g.value))
    else None
  }

  lemma ConvertsTo(line1: Bytes, trusted: Bytes, line3: Bytes)
    ensures Convert(line1, trusted, line3) == AcceptedFields(line1, trusted, line3)
  {
    AlgorithmsDiffer();
  }

  /** A signature line that decodes fits its buffer with its ending. */
  lemma OverlongSignature(line1: Bytes, e1: Bytes)
    requires LineEnd(e1) && |line1| + |e1| >= SIG_BUFFER
    ensures DecodeExactly(line1, SIG_STRUCT_SIZE) == None
  {
    if DecodeExactly(line1, SIG_STRUCT_SIZE).Some? { DecodedLength(line1, SIG_STRUCT_SIZE); }
  }

  /** `sig_load` accepts exactly these files, whatever lines they have, whichever of LF and CR LF ends
      each line, with or without an ending of the fourth, and whatever follows it. */
  lemma LoadIff(line0: Bytes, e0: Bytes, line1: Bytes, e1: Bytes, line2: Bytes, e2: Bytes,
                line3: Bytes, e3: Bytes, more: Bytes)
    requires Clean(line0) && Clean(line1) && Clean(line2) && Clean(line3)
    requires LineEnd(e0) && LineEnd(e1) && LineEnd(e2) && LastEnd(e3, more)
    ensures Load(line0 + e0 + (line1 + e1 + (line2 + e2 + (line3 + e3 + more)))) ==
              Accepted(line0, e0, line1, line2, e2, line3)
  {
    var last := line3 + e3 + more;
    var third := line2 + e2 + last;
    assert line1 + e1 + third == line1 + e1 + (line2 + e2 + (line3 + e3 + more));
    UntrustedLine(line0, e0, line1 + e1 + third);
    SignatureLine(line1, e1, third);
    TrustedLine(line2, e2, last, line1);
    if |line1| + |e1| >= SIG_BUFFER {
      OverlongSignature(line1, e1);
    }
    if TRUSTED_PREFIX <= line2 {
      var trusted := line2[|TRUSTED_PREFIX|..];
      GlobalLine(line3, e3, more, line1, trusted);
      ConvertsTo(line1, trusted, line3);
    }
  }

  lemma UnendedRefused(last: Bytes, sig: Bytes)
    requires Clean(last)
    ensures Load(last) == None && LoadSignature(last) == None && LoadTrusted(last, sig) == None
  {
    UnendedLine(last, COMMENTMAXBYTES);
    UnendedLine(last, SIG_BUFFER);
    UnendedLine(last, TRUSTEDCOMMENTMAXBYTES);
    var line := Line(last, TRUSTEDCOMMENTMAXBYTES);
    if TRUSTED_PREFIX <= line { NoLfRefused(line, |TRUSTED_PREFIX|); }
  }

  /** A file with fewer than three ended lines, or with nothing after the third, is refused. */
  lemma TooFewLines(line0: Bytes, e0: Bytes, line1: Bytes, e1: Bytes, line2: Bytes, e2: Bytes, last: Bytes)
    requires Clean(line0) && Clean(line1) && Clean(line2) && Clean(last)
    requires LineEnd(e0) && LineEnd(e1) && LineEnd(e2)
    ensures Load(last) == None
    ensures Load(line0 + e0 + last) == None
    ensures Load(line0 + e0 + (line1 + e1 + last)) == None
    ensures Load(line0 + e0 + (line1 + e1 + (line2 + e2))) == None
  {
    UnendedRefused(last, line1);
    UntrustedLine(line0, e0, last);
    UntrustedLine(line0, e0, line1 + e1 + last);
    SignatureLine(line1, e1, last);
    assert line2 + e2 + [] == line2 + e2;
    UntrustedLine(line0, e0, line1 + e1 + (line2 + e2));
    SignatureLine(line1, e1, line2 + e2);
    TrustedLine(line2, e2, [], line1);
  }

  /** So the file of a box may have its lines ended by CR LF, if its comments leave room. */
  lemma CrLfLoads(b: SignatureBox)
    requires b.Sized() && PrintableText(b.untrusted) && PrintableText(b.trusted)
    requires |b.untrusted| < LONGEST_UNTRUSTED && |b.trusted| < LONGEST_TRUSTED
    ensures var l, e := BoxLines(b), [CR, LF];
            Load(l[0] + e + (l[1] + e + (l[2] + e + (l[3] + e + [])))) == Some(WrittenAs(b))
  {
    var l, e := BoxLines(b), [CR, LF];
    CleanLines(b);
    assert Clean(l[0]) && Clean(l[1]) && Clean(l[2]) && Clean(l[3]);
    LoadIff(l[0], e, l[1], e, l[2], e, l[3], e, []);
    EncodedDecodesExactly(Layout(b.sig));
    EncodedDecodesExactly(b.globalSignature);
    StructInverse(Layout(b.sig), b.sig);
    assert l[2][|TRUSTED_PREFIX|..] == b.trusted;
    assert Layout(b.sig)[..2] == if b.sig.prehashed then SIG_ALG_PREHASHED else SIG_ALG_NORMAL;
    AlgorithmsDiffer();
  }

  // ---- key files ----------------------------------------------------------------------------------------

  lemma SameStruct(a: Bytes, b: Bytes)
    requires DecodeExactly(a, SecretKey.SECKEY_STRUCT_SIZE) == DecodeExactly(b, SecretKey.SECKEY_STRUCT_SIZE)
    ensures K.StructIn(a) == K.StructIn(b)
  {
  }

  lemma KeyLine(line: Bytes, e: Bytes, more: Bytes)
    requires Clean(line) && LastEnd(e, more) && line + e + more != []
    ensures K.StructIn(Trimmed(Line(line + e + more, K.SECKEY_BUFFER))) == K.StructIn(line)
  {
    var text := LastLine(line, e, more, SecretKey.SECKEY_STRUCT_SIZE, K.SECKEY_BUFFER);
    SameStruct(text, line);
  }

  lemma NoStruct(line: Bytes)
    requires line == []
    ensures K.StructIn(line) == None
  {
    NothingDecoded(line, SecretKey.SECKEY_STRUCT_SIZE);
  }

  /** What `seckey_load` finds in a file whose first line fits its buffer is decided by the second
      line alone; what the comment says does not matter. */
  lemma KeyLoadIff(line0: Bytes, e0: Bytes, line1: Bytes, e1: Bytes, more: Bytes)
    requires Clean(line0) && Clean(line1) && LineEnd(e0) && LastEnd(e1, more)
    requires |line0| + |e0| < COMMENTMAXBYTES
    ensures K.LoadStruct(line0 + e0 + (line1 + e1 + more)) == K.StructIn(line1)
  {
    ReadWhole(line0, e0, line1 + e1 + more, COMMENTMAXBYTES);
    if line1 + e1 + more == [] {
      NoStruct(line1);
    } else {
      KeyLine(line1, e1, more);
    }
  }
}
