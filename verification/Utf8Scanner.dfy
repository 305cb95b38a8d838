/** `is_printable` of src/minisign.c: a scanner over the bytes of a NUL-terminated string. */
module Utf8Scanner {
  import opened Basics
  import opened Utf8
  import opened CStrings

  /** The string `str` holds. That `str` may end at its terminator is what makes every index the
      scanner uses an index of the string or of the terminator. */
  ghost function Text(str: array<Byte>): Bytes
    reads str
  {
    CString(str[..])
  }

  /** The number of continuation bytes a leading byte calls for; 0 for none that is allowed. */
  function Need(c: Byte): nat {
    if 0xC2 <= c && c <= 0xDF then 1
    else if 0xE0 <= c && c <= 0xEF then 2
    else if 0xF0 <= c && c <= 0xF4 then 3
    else 0
  }

  predicate Continues(cc: Byte) {
    cc != 0 && cc & 0xC0 == 0x80
  }

  /** Overlong forms, surrogates and values above U+10FFFF show in the second byte. */
  predicate BadSecond(c: Byte, second: Byte) {
    (c == 0xE0 && second < 0xA0) || (c == 0xED && second > 0x9F) ||
    (c == 0xF0 && second < 0x90) || (c == 0xF4 && second > 0x8F)
  }

  function LeadBits(c: Byte, need: nat): Code {
    (c & (if need == 1 then 0x1F else if need == 2 then 0x0F else 0x07)) as bv32
  }

  function Shifted(cp: Code, cc: Byte): Code {
    (cp << 6) | (cc & 0x3F) as bv32
  }

  lemma ContinuesIsTail(cc: Byte)
    ensures Continues(cc) <==> IsTail(cc)
  {
  }

  lemma Scan2(c: Byte, x: Byte)
    requires Need(c) == 1
    ensures IsTail(x) && !BadSecond(c, x) <==> Grammar2(c, x)
    ensures Shifted(LeadBits(c, 1), x) == Code2(c, x)
  {
  }

  lemma Scan3(c: Byte, x: Byte, y: Byte)
    requires Need(c) == 2
    ensures IsTail(x) && IsTail(y) && !BadSecond(c, x) <==> Grammar3(c, x, y)
    ensures Shifted(Shifted(LeadBits(c, 2), x), y) == Code3(c, x, y)
  {
  }

  lemma Scan4(c: Byte, x: Byte, y: Byte, z: Byte)
    requires Need(c) == 3
    ensures IsTail(x) && IsTail(y) && IsTail(z) && !BadSecond(c, x) <==> Grammar4(c, x, y, z)
    ensures Shifted(Shifted(Shifted(LeadBits(c, 3), x), y), z) == Code4(c, x, y, z)
  {
  }

  /** The code point the second inner loop has gathered after `k` continuation bytes. */
  ghost function Gathered(b: Bytes, k: nat): Code
    requires 1 <= |b| && k < |b|
  {
    if k == 0 then LeadBits(b[0], Need(b[0])) else Shifted(Gathered(b, k - 1), b[k])
  }

  /** The scanner's tests on a character of several bytes say whether one starts here. */
  lemma ScanMeaning(b: Bytes)
    requires b != [] && b[0] >= 0x80
    ensures First(b).Some? <==>
              Need(b[0]) > 0 && |b| > Need(b[0]) &&
              (forall k :: 1 <= k <= Need(b[0]) ==> IsTail(b[k])) && !BadSecond(b[0], b[1])
    ensures First(b).Some? ==>
              First(b).value == Char(Gathered(b, Need(b[0])), Need(b[0]) + 1)
  {
    var need := Need(b[0]);
    if need == 1 && |b| > 1 {
      Scan2(b[0], b[1]);
    } else if need == 2 && |b| > 2 {
      Scan3(b[0], b[1], b[2]);
      assert Gathered(b, 1) == Shifted(Gathered(b, 0), b[1]);
    } else if need == 3 && |b| > 3 {
      Scan4(b[0], b[1], b[2], b[3]);
      assert Gathered(b, 1) == Shifted(Gathered(b, 0), b[1]);
      assert Gathered(b, 2) == Shifted(Gathered(b, 1), b[2]);
    }
  }

  lemma MultibyteCode(b: Bytes)
    requires b != [] && b[0] >= 0x80 && First(b).Some?
    ensures First(b).value.code >= 0x80
  {
    if |b| >= 2 && Grammar2(b[0], b[1]) {
      Encode2(b[0], b[1]);
    } else if |b| >= 3 && Grammar3(b[0], b[1], b[2]) {
      Encode3(b[0], b[1], b[2]);
    } else {
      Encode4(b[0], b[1], b[2], b[3]);
    }
  }

  /** The character of several bytes that starts at `p`: its size, if it is well formed and not a
      control character. Reads on only while the bytes before continue the character. */
  method ScanChar(str: array<Byte>, p: nat) returns (size: Option<nat>)
    requires Terminated(str[..]) && p < |Text(str)| && str[p] >= 0x80
    ensures size.Some? <==>
              First(Text(str)[p..]).Some? && !IsControl(First(Text(str)[p..]).value.code)
    ensures size.Some? ==> size.value == First(Text(str)[p..]).value.size
  {
    ghost var b := Text(str)[p..];
    var c := str[p];
    var need := Need(c);
    ScanMeaning(b);
    if need == 0 { return None; }
    var i := 1;
    while i <= need
      invariant 1 <= i <= need + 1 && i <= |b|
      invariant forall k :: 1 <= k < i ==> IsTail(b[k])
    {
      var cc := str[p + i];
      ContinuesIsTail(cc);
      if !Continues(cc) {
        assert |b| > i ==> !IsTail(b[i]);
        return None;
      }
      assert p + i < |Text(str)| && cc == b[i];
      i := i + 1;
    }
    if BadSecond(c, str[p + 1]) { return None; }
    var cp := LeadBits(c, need);
    i := 1;
    while i <= need
      invariant 1 <= i <= need + 1 && cp == Gathered(b, i - 1)
    {
      cp := Shifted(cp, str[p + i]);
      i := i + 1;
    }
    if IsControl(cp) { return None; }
    return Some(need + 1);
  }

  /** One step of the scanner on `b`, what is left of the text. */
  lemma ScanStep(b: Bytes)
    requires b != []
    ensures b[0] < 0x80 ==>
              (PrintableText(b) <==> (b[0] == 9 || (0x20 <= b[0] && b[0] <= 0x7E)) && PrintableText(b[1..]))
    ensures b[0] >= 0x80 ==>
              (PrintableText(b) <==>
                 First(b).Some? && !IsControl(First(b).value.code) &&
                 PrintableText(b[First(b).value.size..]))
  {
    PrintableStep(b);
    if b[0] < 0x80 {
      AsciiControl(b[0]);
    } else if First(b).Some? {
      MultibyteCode(b);
    }
  }

  /** The scanner accepts exactly the well-formed texts of printable characters, and no index it
      uses lies beyond the terminator. */
  method Scan(str: array<Byte>) returns (ok: bool)
    requires Terminated(str[..])
    ensures ok <==> PrintableText(Text(str))
  {
    ghost var text := Text(str);
    ghost var b := text;
    var p := 0;
    while str[p] != 0
      invariant p <= |text| && b == text[p..]
      invariant PrintableText(text) <==> PrintableText(b)
      decreases |text| - p
    {
      assert b[0] == str[p];
      ScanStep(b);
      var c := str[p];
      if c == 9 || (0x20 <= c && c <= 0x7E) {
        b := b[1..];
        p := p + 1;
      } else if c < 0x20 || c == 0x7F {
        return false;
      } else {
        var size := ScanChar(str, p);
        if size.None? { return false; }
        b := b[size.value..];
        p := p + size.value;
      }
    }
    return true;
  }
}
