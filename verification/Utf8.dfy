/** UTF-8 as section 4 of RFC 3629 defines it, and the two printability checks: the C scanner over
    a NUL-terminated string and the Rust check over decoded characters. */
module Utf8 {
  import opened Basics

  /** A code point. */
  type Code = bv32
  type Codes = seq<bv32>

  predicate Scalar(c: Code) {
    c <= 0xD7FF || (0xE000 <= c && c <= 0x10FFFF)
  }

  predicate AllScalar(cs: Codes) {
    forall k :: 0 <= k < |cs| ==> Scalar(cs[k])
  }

  // ---- encoding -----------------------------------------------------------------------------------

  // The leading bytes and the continuation bytes of a code point.
  function Lead2(c: Code): Byte { (0xC0 | ((c >> 6) & 0x1F)) as bv8 }
  function Lead3(c: Code): Byte { (0xE0 | ((c >> 12) & 0x0F)) as bv8 }
  function Lead4(c: Code): Byte { (0xF0 | ((c >> 18) & 0x07)) as bv8 }
  function Tail0(c: Code): Byte { (0x80 | (c & 0x3F)) as bv8 }
  function Tail6(c: Code): Byte { (0x80 | ((c >> 6) & 0x3F)) as bv8 }
  function Tail12(c: Code): Byte { (0x80 | ((c >> 12) & 0x3F)) as bv8 }
  function Single(c: Code): Byte { (c & 0x7F) as bv8 }

  function EncodeChar(c: Code): (b: Bytes)
    ensures 1 <= |b| <= 4
  {
    if c < 0x80 then [Single(c)]
    else if c < 0x800 then [Lead2(c), Tail0(c)]
    else if c < 0x10000 then [Lead3(c), Tail6(c), Tail0(c)]
    else [Lead4(c), Tail12(c), Tail6(c), Tail0(c)]
  }

  function EncodeText(cs: Codes): Bytes {
    if cs == [] then [] else EncodeChar(cs[0]) + EncodeText(cs[1..])
  }

  // ---- decoding, by the grammar --------------------------------------------------------------------

  predicate IsTail(b: Byte) {
    0x80 <= b && b <= 0xBF
  }

  predicate Grammar2(b0: Byte, b1: Byte) {
    0xC2 <= b0 && b0 <= 0xDF && IsTail(b1)
  }

  predicate Grammar3(b0: Byte, b1: Byte, b2: Byte) {
    IsTail(b2) &&
    ((b0 == 0xE0 && 0xA0 <= b1 && b1 <= 0xBF) ||
     (0xE1 <= b0 && b0 <= 0xEC && IsTail(b1)) ||
     (b0 == 0xED && 0x80 <= b1 && b1 <= 0x9F) ||
     (0xEE <= b0 && b0 <= 0xEF && IsTail(b1)))
  }

  predicate Grammar4(b0: Byte, b1: Byte, b2: Byte, b3: Byte) {
    IsTail(b2) && IsTail(b3) &&
    ((b0 == 0xF0 && 0x90 <= b1 && b1 <= 0xBF) ||
     (0xF1 <= b0 && b0 <= 0xF3 && IsTail(b1)) ||
     (b0 == 0xF4 && 0x80 <= b1 && b1 <= 0x8F))
  }

  function Code2(b0: Byte, b1: Byte): Code {
    ((b0 & 0x1F) as bv32 << 6) | (b1 & 0x3F) as bv32
  }

  function Code3(b0: Byte, b1: Byte, b2: Byte): Code {
    ((b0 & 0x0F) as bv32 << 12) | ((b1 & 0x3F) as bv32 << 6) | (b2 & 0x3F) as bv32
  }

  function Code4(b0: Byte, b1: Byte, b2: Byte, b3: Byte): Code {
    ((b0 & 0x07) as bv32 << 18) | ((b1 & 0x3F) as bv32 << 12) | ((b2 & 0x3F) as bv32 << 6) |
    (b3 & 0x3F) as bv32
  }

  /** A decoded character and the number of bytes it took. */
  datatype Char = Char(code: Code, size: nat)

  /** The character that starts a byte string, if one does. */
  function First(b: Bytes): (r: Option<Char>)
    requires b != []
    ensures r.Some? ==> 1 <= r.value.size <= |b|
  {
    if b[0] < 0x80 then Some(Char(b[0] as bv32, 1))
    else if |b| >= 2 && Grammar2(b[0], b[1]) then Some(Char(Code2(b[0], b[1]), 2))
    else if |b| >= 3 && Grammar3(b[0], b[1], b[2]) then Some(Char(Code3(b[0], b[1], b[2]), 3))
    else if |b| >= 4 && Grammar4(b[0], b[1], b[2], b[3]) then
      Some(Char(Code4(b[0], b[1], b[2], b[3]), 4))
    else None
  }

  function DecodeText(b: Bytes): Option<Codes> {
    if b == [] then Some([])
    else
      match First(b)
      case None => None
      case Some(ch) =>
        match DecodeText(b[ch.size..])
        case None => None
        case Some(rest) => Some([ch.code] + rest)
  }

  // ---- one character there and back ----------------------------------------------------------------

  lemma Inverse1(c: Code, b0: Byte)
    ensures c < 0x80 ==> Single(c) < 0x80 && Single(c) as bv32 == c
    ensures b0 < 0x80 ==> b0 as bv32 < 0x80 && Single(b0 as bv32) == b0
  {
  }

  lemma Decode2(c: Code)
    requires 0x80 <= c && c < 0x800
    ensures Grammar2(Lead2(c), Tail0(c)) && Code2(Lead2(c), Tail0(c)) == c
  {
  }

  lemma Encode2(b0: Byte, b1: Byte)
    requires Grammar2(b0, b1)
    ensures var c := Code2(b0, b1);
            0x80 <= c && c < 0x800 && Lead2(c) == b0 && Tail0(c) == b1
  {
  }

  lemma Joined3(c: Code)
    requires c < 0x10000
    ensures Code3(Lead3(c), Tail6(c), Tail0(c)) == c
  {
  }

  lemma Allowed3(c: Code)
    requires 0x800 <= c && c < 0x10000 && Scalar(c)
    ensures Grammar3(Lead3(c), Tail6(c), Tail0(c)) && Lead3(c) >= 0xE0
  {
    assert IsTail(Tail0(c)) && IsTail(Tail6(c));
    assert Lead3(c) >= 0xE0 && Lead3(c) <= 0xEF;
    assert Lead3(c) == 0xE0 ==> Tail6(c) >= 0xA0;
    assert Lead3(c) == 0xED ==> Tail6(c) <= 0x9F;
  }

  lemma Encode3(b0: Byte, b1: Byte, b2: Byte)
    requires Grammar3(b0, b1, b2)
    ensures var c := Code3(b0, b1, b2);
            0x800 <= c && c < 0x10000 && Scalar(c) &&
            Lead3(c) == b0 && Tail6(c) == b1 && Tail0(c) == b2
  {
  }

  lemma Joined4(c: Code)
    requires c <= 0x10FFFF
    ensures Code4(Lead4(c), Tail12(c), Tail6(c), Tail0(c)) == c
  {
  }

  lemma Allowed4(c: Code)
    requires 0x10000 <= c && Scalar(c)
    ensures Grammar4(Lead4(c), Tail12(c), Tail6(c), Tail0(c)) && Lead4(c) >= 0xF0
  {
    assert IsTail(Tail0(c)) && IsTail(Tail6(c)) && IsTail(Tail12(c));
    assert Lead4(c) >= 0xF0 && Lead4(c) <= 0xF4;
    assert Lead4(c) == 0xF0 ==> Tail12(c) >= 0x90;
    assert Lead4(c) == 0xF4 ==> Tail12(c) <= 0x8F;
  }

  lemma Encode4(b0: Byte, b1: Byte, b2: Byte, b3: Byte)
    requires Grammar4(b0, b1, b2, b3)
    ensures var c := Code4(b0, b1, b2, b3);
            0x10000 <= c && c <= 0x10FFFF &&
            Lead4(c) == b0 && Tail12(c) == b1 && Tail6(c) == b2 && Tail0(c) == b3
  {
  }

  lemma FirstOfEncoded(c: Code, rest: Bytes)
    requires Scalar(c)
    ensures First(EncodeChar(c) + rest) == Some(Char(c, |EncodeChar(c)|))
  {
    var e := EncodeChar(c) + rest;
    assert forall k :: 0 <= k < |EncodeChar(c)| ==> e[k] == EncodeChar(c)[k];
    Inverse1(c, 0);
    if c < 0x80 {
    } else if c < 0x800 {
      Decode2(c);
    } else if c < 0x10000 {
      Joined3(c);
      Allowed3(c);
    } else {
      Joined4(c);
      Allowed4(c);
    }
  }

  lemma EncodedFirst(b: Bytes)
    requires b != [] && First(b).Some?
    ensures var ch := First(b).value;
            Scalar(ch.code) && EncodeChar(ch.code) == b[..ch.size]
  {
    if b[0] < 0x80 {
      Inverse1(0, b[0]);
    } else if |b| >= 2 && Grammar2(b[0], b[1]) {
      Encode2(b[0], b[1]);
    } else if |b| >= 3 && Grammar3(b[0], b[1], b[2]) {
      Encode3(b[0], b[1], b[2]);
    } else {
      Encode4(b[0], b[1], b[2], b[3]);
    }
  }

  // ---- whole texts ------------------------------------------------------------------------------------

  lemma EncodeCons(c: Code, cs: Codes)
    ensures EncodeText([c] + cs) == EncodeChar(c) + EncodeText(cs)
  {
    assert ([c] + cs)[1..] == cs;
  }

  lemma {:induction false} DecodeEncoded(cs: Codes)
    requires AllScalar(cs)
    ensures DecodeText(EncodeText(cs)) == Some(cs)
  {
    if cs != [] {
      var rest := EncodeText(cs[1..]);
      FirstOfEncoded(cs[0], rest);
      assert (EncodeChar(cs[0]) + rest)[|EncodeChar(cs[0])|..] == rest;
      DecodeEncoded(cs[1..]);
      assert [cs[0]] + cs[1..] == cs;
    }
  }

  lemma {:induction false} EncodeDecoded(b: Bytes)
    requires DecodeText(b).Some?
    ensures AllScalar(DecodeText(b).value) && EncodeText(DecodeText(b).value) == b
  {
    if b != [] {
      var ch := First(b).value;
      EncodedFirst(b);
      EncodeDecoded(b[ch.size..]);
      EncodeCons(ch.code, DecodeText(b[ch.size..]).value);
      assert b == b[..ch.size] + b[ch.size..];
    }
  }

  /** Decoding is the inverse of encoding: it succeeds on exactly the encodings of scalar values,
      each of which has one encoding. */
  lemma DecodeInverse(b: Bytes, cs: Codes)
    ensures DecodeText(b) == Some(cs) <==> AllScalar(cs) && b == EncodeText(cs)
  {
    if DecodeText(b) == Some(cs) { EncodeDecoded(b); }
    if AllScalar(cs) { DecodeEncoded(cs); }
  }

  lemma {:induction false} EncodeConcat(x: Codes, y: Codes)
    ensures EncodeText(x + y) == EncodeText(x) + EncodeText(y)
  {
    if x == [] {
      assert x + y == y;
    } else {
      var c, cs := x[0], x[1..];
      assert x == [c] + cs;
      Regroup([c], cs, y);
      EncodeCons(c, cs);
      EncodeCons(c, cs + y);
      EncodeConcat(cs, y);
      Regroup(EncodeChar(c), EncodeText(cs), EncodeText(y));
    }
  }

  /** Well-formed texts concatenate, character by character. */
  lemma DecodeConcat(a: Bytes, b: Bytes)
    requires DecodeText(a).Some? && DecodeText(b).Some?
    ensures DecodeText(a + b) == Some(DecodeText(a).value + DecodeText(b).value)
  {
    var x, y := DecodeText(a).value, DecodeText(b).value;
    DecodeInverse(a, x);
    DecodeInverse(b, y);
    EncodeConcat(x, y);
    DecodeInverse(a + b, x + y);
  }

  // ---- printable characters ------------------------------------------------------------------------

  /** Rust's `char::is_control`: C0, DEL and C1. */
  predicate IsControl(c: Code) {
    c <= 0x1F || (0x7F <= c && c <= 0x9F)
  }

  /** `is_printable` of validation.rs, on decoded characters. */
  predicate IsPrintable(cs: Codes) {
    cs == [] || ((cs[0] == 9 || !IsControl(cs[0])) && IsPrintable(cs[1..]))
  }

  /** Well-formed UTF-8 whose characters are all printable. */
  predicate PrintableText(b: Bytes) {
    DecodeText(b).Some? && IsPrintable(DecodeText(b).value)
  }

  lemma PrintableStep(b: Bytes)
    requires b != []
    ensures PrintableText(b) <==>
              First(b).Some? &&
              (First(b).value.code == 9 || !IsControl(First(b).value.code)) &&
              PrintableText(b[First(b).value.size..])
  {
    if First(b).Some? && DecodeText(b[First(b).value.size..]).Some? {
      var rest := DecodeText(b[First(b).value.size..]).value;
      assert ([First(b).value.code] + rest)[1..] == rest;
    }
  }

  /** Exactly the encodings of printable characters are printable texts. */
  lemma PrintableMeaning(b: Bytes)
    ensures PrintableText(b) <==>
              exists cs :: AllScalar(cs) && b == EncodeText(cs) && IsPrintable(cs)
  {
    if PrintableText(b) {
      DecodeInverse(b, DecodeText(b).value);
    }
    if cs :| AllScalar(cs) && b == EncodeText(cs) && IsPrintable(cs) {
      DecodeInverse(b, cs);
    }
  }

  /** No byte of a printable text is an ASCII control character, tab aside. */
  lemma {:induction false} PrintableBytes(b: Bytes)
    requires PrintableText(b)
    ensures forall k :: 0 <= k < |b| ==> b[k] >= 0x20 || b[k] == 9
  {
    if b != [] {
      var size := First(b).value.size;
      PrintableStep(b);
      PrintableBytes(b[size..]);
      FirstBytes(b);
      forall k | 0 <= k < |b| ensures b[k] >= 0x20 || b[k] == 9 {
        if k >= size { assert b[k] == b[size..][k - size]; }
      }
    }
  }

  lemma FirstBytes(b: Bytes)
    requires b != [] && First(b).Some?
    requires First(b).value.code == 9 || !IsControl(First(b).value.code)
    ensures forall k :: 0 <= k < First(b).value.size ==> b[k] >= 0x20 || b[k] == 9
  {
    if b[0] < 0x80 { AsciiControl(b[0]); }
  }

  lemma AsciiControl(c: Byte)
    requires c < 0x80
    ensures (c as bv32 == 9 || !IsControl(c as bv32)) <==> c == 9 || (0x20 <= c && c <= 0x7E)
  {
  }

  /** ASCII decodes. */
  lemma {:induction false} AsciiDecodes(b: Bytes)
    requires forall k :: 0 <= k < |b| ==> b[k] < 0x80
    ensures DecodeText(b).Some?
  {
    if b != [] { AsciiDecodes(b[1..]); }
  }

  /** ASCII without control characters is printable. */
  lemma {:induction false} PlainText(b: Bytes)
    requires forall k :: 0 <= k < |b| ==> 0x20 <= b[k] && b[k] <= 0x7E
    ensures PrintableText(b)
  {
    if b != [] {
      PlainText(b[1..]);
      AsciiControl(b[0]);
      PrintableStep(b);
    }
  }
}
