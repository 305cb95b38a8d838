/** Base64 as both implementations use it, the encoding of section 4 of RFC 4648: texts and bytes,
    what is accepted, and which texts stand for the same bytes. */
module Base64 {
  import opened Basics

  const PAD: Byte := 61
  const REV64_NONE: Byte := 64
  const REV64_EOT: Byte := 128

  /** The table `b64chars`: A-Z, a-z, 0-9, '+', '/'. */
  function Char64(v: Byte): Byte {
    if v < 26 then v + 65
    else if v < 52 then v + 71
    else if v < 62 then v - 4
    else if v == 62 then 43
    else 47
  }

  /** The table `rev64chars`. */
  function Rev64(c: Byte): Byte {
    if 65 <= c <= 90 then c - 65
    else if 97 <= c <= 122 then c - 71
    else if 48 <= c <= 57 then c + 4
    else if c == 43 then 62
    else if c == 47 then 63
    else if c == PAD then REV64_EOT
    else REV64_NONE
  }

  predicate InAlphabet(c: Byte) {
    Rev64(c) < 64
  }

  // ---- the encoding, group by group ---------------------------------------------------------

  /** 24 input bits, most significant first. */
  function Group(b0: Byte, b1: Byte, b2: Byte): bv24 {
    (b0 as bv24 << 16) | (b1 as bv24 << 8) | b2 as bv24
  }

  // The four 6-bit values in a group.
  function Sextet0(g: bv24): Byte { ((g >> 18) & 63) as bv8 }
  function Sextet1(g: bv24): Byte { ((g >> 12) & 63) as bv8 }
  function Sextet2(g: bv24): Byte { ((g >> 6) & 63) as bv8 }
  function Sextet3(g: bv24): Byte { (g & 63) as bv8 }

  function EncodeGroup(b: Bytes): (t: Bytes)
    requires 1 <= |b| <= 3
    ensures |t| == 4
  {
    var g := Group(b[0], if |b| > 1 then b[1] else 0, if |b| > 2 then b[2] else 0);
    [Char64(Sextet0(g)), Char64(Sextet1(g)),
     if |b| > 1 then Char64(Sextet2(g)) else PAD,
     if |b| > 2 then Char64(Sextet3(g)) else PAD]
  }

  function Encode(data: Bytes): Bytes {
    if data == [] then []
    else if |data| <= 3 then EncodeGroup(data)
    else EncodeGroup(data[..3]) + Encode(data[3..])
  }

  // ---- the decoding, group by group ---------------------------------------------------------

  predicate FullQuad(t: Bytes) {
    |t| == 4 && forall k :: 0 <= k < 4 ==> InAlphabet(t[k])
  }

  predicate PaddedQuad(t: Bytes) {
    |t| == 4 && InAlphabet(t[0]) && InAlphabet(t[1]) && t[3] == PAD &&
    (InAlphabet(t[2]) || t[2] == PAD)
  }

  /** Full groups, the last one possibly padded. */
  predicate Decodable(t: Bytes) {
    if |t| <= 4 then t == [] || FullQuad(t) || PaddedQuad(t)
    else FullQuad(t[..4]) && Decodable(t[4..])
  }

  /** The value of one character; padding stands for zero. */
  function Value(c: Byte): (v: Byte)
    ensures v < 64
  {
    if InAlphabet(c) then Rev64(c) else 0
  }

  /** Four 6-bit values side by side. */
  function Join(v0: Byte, v1: Byte, v2: Byte, v3: Byte): bv24 {
    (v0 as bv24 << 18) | (v1 as bv24 << 12) | (v2 as bv24 << 6) | v3 as bv24
  }

  // The three bytes of a group.
  function Byte0(g: bv24): Byte { (g >> 16) as bv8 }
  function Byte1(g: bv24): Byte { ((g >> 8) & 255) as bv8 }
  function Byte2(g: bv24): Byte { (g & 255) as bv8 }

  function DecodeQuad(t: Bytes): (b: Bytes)
    requires FullQuad(t) || PaddedQuad(t)
    ensures 1 <= |b| <= 3 && |b| == if t[3] != PAD then 3 else if t[2] != PAD then 2 else 1
  {
    var g := Join(Value(t[0]), Value(t[1]), Value(t[2]), Value(t[3]));
    if t[3] != PAD then [Byte0(g), Byte1(g), Byte2(g)]
    else if t[2] != PAD then [Byte0(g), Byte1(g)]
    else [Byte0(g)]
  }

  function Decode(t: Bytes): Bytes
    requires Decodable(t)
  {
    if t == [] then []
    else if |t| == 4 then DecodeQuad(t)
    else DecodeQuad(t[..4]) + Decode(t[4..])
  }

  // ---- single groups -------------------------------------------------------------------------

  lemma RevRoundTrip(c: Byte)
    requires InAlphabet(c)
    ensures Char64(Rev64(c)) == c && c != PAD
  {
  }

  lemma SplitBits(b0: Byte, b1: Byte, b2: Byte)
    ensures Byte0(Group(b0, b1, b2)) == b0
    ensures Byte1(Group(b0, b1, b2)) == b1
    ensures Byte2(Group(b0, b1, b2)) == b2
    ensures b2 == 0 ==> Sextet3(Group(b0, b1, b2)) == 0
    ensures b2 == 0 && b1 == 0 ==> Sextet2(Group(b0, b1, b2)) == 0
  {
  }

  lemma JoinBits(g: bv24)
    ensures Sextet0(g) < 64 && Sextet1(g) < 64 && Sextet2(g) < 64 && Sextet3(g) < 64
    ensures Join(Sextet0(g), Sextet1(g), Sextet2(g), Sextet3(g)) == g
  {
  }

  lemma LetterValue(v: Byte)
    requires v < 64
    ensures Value(Char64(v)) == v && InAlphabet(Char64(v)) && Char64(v) != PAD && Value(PAD) == 0
  {
  }

  lemma GroupRoundTrip(b: Bytes)
    requires 1 <= |b| <= 3
    ensures var t := EncodeGroup(b);
            (if |b| == 3 then FullQuad(t) else PaddedQuad(t)) && DecodeQuad(t) == b
  {
    var b1 := if |b| > 1 then b[1] else 0;
    var b2 := if |b| > 2 then b[2] else 0;
    var g := Group(b[0], b1, b2);
    SplitBits(b[0], b1, b2);
    JoinBits(g);
    LetterValue(Sextet0(g));
    LetterValue(Sextet1(g));
    LetterValue(Sextet2(g));
    LetterValue(Sextet3(g));
  }

  // ---- whole texts ------------------------------------------------------------------------------

  lemma {:induction false} EncodeLength(data: Bytes)
    ensures |Encode(data)| == (|data| + 2) / 3 * 4
  {
    if |data| > 3 { EncodeLength(data[3..]); }
  }

  /** Decoding undoes encoding, for every byte string. */
  lemma {:induction false} RoundTrip(data: Bytes)
    ensures Decodable(Encode(data)) && Decode(Encode(data)) == data
  {
    if data != [] {
      if |data| <= 3 {
        GroupRoundTrip(data);
      } else {
        GroupRoundTrip(data[..3]);
        RoundTrip(data[3..]);
        EncodeLength(data[3..]);
        assert Encode(data)[..4] == EncodeGroup(data[..3]);
        assert Encode(data)[4..] == Encode(data[3..]);
        assert data[..3] + data[3..] == data;
      }
    }
  }

  // ---- the language that is accepted -----------------------------------------------------------

  /** A whole number of groups over the alphabet, with '=' only as the last one or two characters. */
  predicate WellFormed(t: Bytes) {
    |t| % 4 == 0 && |t| >= 4 &&
    (forall i :: 0 <= i < |t| - 2 ==> InAlphabet(t[i])) &&
    (InAlphabet(t[|t| - 2]) || t[|t| - 2] == t[|t| - 1] == PAD) &&
    (InAlphabet(t[|t| - 1]) || t[|t| - 1] == PAD)
  }

  lemma {:induction false} DecodableIffWellFormed(t: Bytes)
    ensures t != [] && Decodable(t) <==> WellFormed(t)
  {
    if |t| > 4 {
      DecodableIffWellFormed(t[4..]);
      if Decodable(t) {
        assert forall i :: 4 <= i < |t| - 2 ==> t[i] == t[4..][i - 4];
      }
      if WellFormed(t) {
        assert WellFormed(t[4..]);
      }
    } else if |t| == 4 {
      assert t[0] == t[..2][0] && t[1] == t[..2][1];
    }
  }

  /** How many of the final characters are padding. */
  function Padding(t: Bytes): (n: nat)
    requires WellFormed(t)
    ensures n <= 2
  {
    if t[|t| - 2] == PAD then 2 else if t[|t| - 1] == PAD then 1 else 0
  }

  lemma {:induction false} DecodeLength(t: Bytes)
    requires WellFormed(t)
    ensures Decodable(t)
    ensures |Decode(t)| == |t| / 4 * 3 - Padding(t)
  {
    DecodableIffWellFormed(t);
    if |t| > 4 {
      DecodableIffWellFormed(t[4..]);
      DecodeLength(t[4..]);
    }
  }

  // ---- unused trailing bits --------------------------------------------------------------------

  /** The bits of the last letter that stand for data, by the number of padding characters. */
  function UsedBits(padding: nat): Byte {
    if padding == 0 then 63 else if padding == 1 then 60 else 48
  }

  predicate SameExceptAt(s: Bytes, t: Bytes, k: int) {
    |s| == |t| && forall i :: 0 <= i < |s| && i != k ==> s[i] == t[i]
  }

  predicate SameUsedBits(c: Byte, d: Byte, padding: nat) {
    Value(c) & UsedBits(padding) == Value(d) & UsedBits(padding)
  }

  /** Equal except possibly in the bits of the last letter that stand for no data. */
  predicate AlikeButForUnusedBits(s: Bytes, t: Bytes)
    requires WellFormed(s) && WellFormed(t)
  {
    var last := |s| - 1 - Padding(s);
    SameExceptAt(s, t, last) && Padding(s) == Padding(t) &&
    SameUsedBits(s[last], t[last], Padding(s))
  }

  predicate OnlyUsedBits(c: Byte, padding: nat) {
    Value(c) & UsedBits(padding) == Value(c)
  }

  predicate NoUnusedBits(t: Bytes)
    requires WellFormed(t)
  {
    OnlyUsedBits(t[|t| - 1 - Padding(t)], Padding(t))
  }

  lemma JoinSplit0(a: Byte, b: Byte, c: Byte, d: Byte, p: Byte, q: Byte, r: Byte, s: Byte)
    requires a < 64 && b < 64 && c < 64 && d < 64 && p < 64 && q < 64 && r < 64 && s < 64
    ensures Byte0(Join(a, b, c, d)) == Byte0(Join(p, q, r, s)) <==> a == p && b & 48 == q & 48
  {
  }

  lemma JoinSplit1(a: Byte, b: Byte, c: Byte, d: Byte, p: Byte, q: Byte, r: Byte, s: Byte)
    requires a < 64 && b < 64 && c < 64 && d < 64 && p < 64 && q < 64 && r < 64 && s < 64
    ensures Byte1(Join(a, b, c, d)) == Byte1(Join(p, q, r, s)) <==>
              b & 15 == q & 15 && c & 60 == r & 60
  {
  }

  lemma JoinSplit2(a: Byte, b: Byte, c: Byte, d: Byte, p: Byte, q: Byte, r: Byte, s: Byte)
    requires a < 64 && b < 64 && c < 64 && d < 64 && p < 64 && q < 64 && r < 64 && s < 64
    ensures Byte2(Join(a, b, c, d)) == Byte2(Join(p, q, r, s)) <==> c & 3 == r & 3 && d == s
  {
  }

  lemma Halves(b: Byte, q: Byte)
    requires b < 64 && q < 64
    ensures b & 48 == q & 48 && b & 15 == q & 15 <==> b == q
    ensures b & 60 == q & 60 && b & 3 == q & 3 <==> b == q
    ensures b & 63 == b && q & 63 == q
  {
  }

  lemma SameValue(c: Byte, d: Byte)
    requires InAlphabet(c) && InAlphabet(d)
    ensures Value(c) == Value(d) <==> c == d
  {
    RevRoundTrip(c);
    RevRoundTrip(d);
  }

  lemma QuadsDecodeAlike(s: Bytes, t: Bytes)
    requires |s| == |t| == 4 && WellFormed(s) && WellFormed(t) && Padding(s) == Padding(t)
    ensures FullQuad(s) || PaddedQuad(s)
    ensures FullQuad(t) || PaddedQuad(t)
    ensures DecodeQuad(s) == DecodeQuad(t) <==> AlikeButForUnusedBits(s, t)
  {
    QuadsAlike(s, t);
    if Padding(s) == 2 {
      PaddedTwice(s, t);
    } else if Padding(s) == 1 {
      PaddedOnce(s, t);
    } else {
      Unpadded(s, t);
    }
  }

  lemma PaddedTwice(s: Bytes, t: Bytes)
    requires PaddedQuad(s) && PaddedQuad(t) && s[2] == t[2] == PAD
    ensures DecodeQuad(s) == DecodeQuad(t) <==> s[0] == t[0] && SameUsedBits(s[1], t[1], 2)
  {
    BytesAlike(Value(s[0]), Value(s[1]), Value(s[2]), Value(s[3]),
               Value(t[0]), Value(t[1]), Value(t[2]), Value(t[3]));
    SameValue(s[0], t[0]);
  }

  lemma PaddedOnce(s: Bytes, t: Bytes)
    requires PaddedQuad(s) && PaddedQuad(t) && s[2] != PAD && t[2] != PAD
    ensures DecodeQuad(s) == DecodeQuad(t) <==>
              s[0] == t[0] && s[1] == t[1] && SameUsedBits(s[2], t[2], 1)
  {
    BytesAlike(Value(s[0]), Value(s[1]), Value(s[2]), Value(s[3]),
               Value(t[0]), Value(t[1]), Value(t[2]), Value(t[3]));
    SameValue(s[0], t[0]);
    SameValue(s[1], t[1]);
  }

  lemma Unpadded(s: Bytes, t: Bytes)
    requires FullQuad(s) && FullQuad(t)
    ensures DecodeQuad(s) == DecodeQuad(t) <==>
              s[0] == t[0] && s[1] == t[1] && s[2] == t[2] && s[3] == t[3]
  {
    BytesAlike(Value(s[0]), Value(s[1]), Value(s[2]), Value(s[3]),
               Value(t[0]), Value(t[1]), Value(t[2]), Value(t[3]));
    SameValue(s[0], t[0]);
    SameValue(s[1], t[1]);
    SameValue(s[2], t[2]);
    SameValue(s[3], t[3]);
  }

  lemma BytesAlike(a: Byte, b: Byte, c: Byte, d: Byte, p: Byte, q: Byte, r: Byte, s: Byte)
    requires a < 64 && b < 64 && c < 64 && d < 64 && p < 64 && q < 64 && r < 64 && s < 64
    ensures var g, h := Join(a, b, c, d), Join(p, q, r, s);
            (Byte0(g) == Byte0(h) <==> a == p && b & 48 == q & 48) &&
            (Byte0(g) == Byte0(h) && Byte1(g) == Byte1(h) <==> a == p && b == q && c & 60 == r & 60) &&
            (Byte0(g) == Byte0(h) && Byte1(g) == Byte1(h) && Byte2(g) == Byte2(h) <==>
               a == p && b == q && c == r && d == s)
  {
    JoinSplit0(a, b, c, d, p, q, r, s);
    JoinSplit1(a, b, c, d, p, q, r, s);
    JoinSplit2(a, b, c, d, p, q, r, s);
    Halves(b, q);
    Halves(c, r);
  }

  lemma QuadsAlike(s: Bytes, t: Bytes)
    requires |s| == |t| == 4 && WellFormed(s) && WellFormed(t) && Padding(s) == Padding(t)
    ensures AlikeButForUnusedBits(s, t) <==>
              s[0] == t[0] &&
              (if Padding(s) == 2 then SameUsedBits(s[1], t[1], 2)
               else s[1] == t[1] &&
                    (if Padding(s) == 1 then SameUsedBits(s[2], t[2], 1)
                     else s[2] == t[2] && s[3] == t[3]))
  {
    Halves(Value(s[3]), Value(t[3]));
    if Padding(s) == 0 { SameValue(s[3], t[3]); }
  }

  /** Two accepted texts of one length and padding decode alike exactly when they differ at most
      in the bits section 3.5 of RFC 4648 calls unused. */
  lemma {:induction false} DecodeAlike(s: Bytes, t: Bytes)
    requires WellFormed(s) && WellFormed(t) && |s| == |t| && Padding(s) == Padding(t)
    ensures Decodable(s) && Decodable(t)
    ensures Decode(s) == Decode(t) <==> AlikeButForUnusedBits(s, t)
  {
    DecodableIffWellFormed(s);
    DecodableIffWellFormed(t);
    if |s| == 4 {
      QuadsDecodeAlike(s, t);
    } else {
      Tail(s);
      Tail(t);
      SameQuads(s[..4], t[..4]);
      DecodeAlike(s[4..], t[4..]);
      DecodeByParts(s, t);
      AlikeByParts(s, t);
    }
  }

  lemma SameQuads(s: Bytes, t: Bytes)
    requires FullQuad(s) && FullQuad(t)
    ensures DecodeQuad(s) == DecodeQuad(t) <==> s == t
  {
    Unpadded(s, t);
    assert s == [s[0], s[1], s[2], s[3]] && t == [t[0], t[1], t[2], t[3]];
  }

  lemma DecodeByParts(s: Bytes, t: Bytes)
    requires |s| > 4 && |t| > 4 && Decodable(s) && Decodable(t)
    ensures FullQuad(s[..4]) && FullQuad(t[..4]) && Decodable(s[4..]) && Decodable(t[4..])
    ensures Decode(s) == Decode(t) <==>
              DecodeQuad(s[..4]) == DecodeQuad(t[..4]) && Decode(s[4..]) == Decode(t[4..])
  {
    DecodeParts(s);
    DecodeParts(t);
  }

  lemma DecodeParts(t: Bytes)
    requires |t| > 4 && Decodable(t)
    ensures FullQuad(t[..4]) && Decodable(t[4..])
    ensures Decode(t)[..3] == DecodeQuad(t[..4]) && Decode(t)[3..] == Decode(t[4..])
    ensures Decode(t) == Decode(t)[..3] + Decode(t)[3..]
  {
  }

  lemma AlikeByParts(s: Bytes, t: Bytes)
    requires WellFormed(s) && WellFormed(t) && |s| == |t| > 4 && Padding(s) == Padding(t)
    ensures WellFormed(s[4..]) && WellFormed(t[4..])
    ensures AlikeButForUnusedBits(s, t) <==>
              s[..4] == t[..4] && AlikeButForUnusedBits(s[4..], t[4..])
  {
    Tail(s);
    Tail(t);
    SameExceptAtTail(s, t, |s| - 1 - Padding(s));
  }

  lemma SameExceptAtTail(s: Bytes, t: Bytes, k: int)
    requires |s| > 4 && |t| > 4 && k >= 4
    ensures SameExceptAt(s, t, k) <==> s[..4] == t[..4] && SameExceptAt(s[4..], t[4..], k - 4)
  {
    var s1, t1 := s[4..], t[4..];
    if SameExceptAt(s, t, k) {
      forall i | 0 <= i < |s1| && i != k - 4 ensures s1[i] == t1[i] {
        assert s[i + 4] == t[i + 4];
      }
    }
    if s[..4] == t[..4] && SameExceptAt(s1, t1, k - 4) {
      forall i | 0 <= i < |s| && i != k ensures s[i] == t[i] {
        if i < 4 { assert s[i] == s[..4][i] && t[i] == t[..4][i]; }
        else { assert s[i] == s1[i - 4] && t[i] == t1[i - 4]; }
      }
    }
  }

  lemma Tail(t: Bytes)
    requires |t| > 4 && WellFormed(t)
    ensures FullQuad(t[..4]) && WellFormed(t[4..]) && Padding(t[4..]) == Padding(t)
    ensures |t| - 1 - Padding(t) >= 4
    ensures t[4..][|t| - 5 - Padding(t)] == t[|t| - 1 - Padding(t)]
    ensures NoUnusedBits(t[4..]) == NoUnusedBits(t)
  {
  }

  lemma Prepend(q: Bytes, t: Bytes)
    requires FullQuad(q) && WellFormed(t)
    ensures WellFormed(q + t) && Padding(q + t) == Padding(t)
    ensures NoUnusedBits(q + t) == NoUnusedBits(t)
  {
    var u := q + t;
    assert u[4..] == t;
    assert u[..4] == q;
    forall i | 0 <= i < |u| - 2 ensures InAlphabet(u[i]) {
      assert u[i] == if i < 4 then q[i] else t[i - 4];
    }
    Tail(u);
  }

  /** What an encoder writes has no unused bits set. */
  lemma {:induction false} EncodeIsCanonical(data: Bytes)
    requires data != []
    ensures WellFormed(Encode(data)) && NoUnusedBits(Encode(data))
    ensures Padding(Encode(data)) == PaddingFor(|data|)
  {
    if |data| <= 3 {
      GroupIsCanonical(data);
    } else {
      EncodeIsCanonical(data[3..]);
      PaddingStep(|data|);
      GroupRoundTrip(data[..3]);
      Prepend(EncodeGroup(data[..3]), Encode(data[3..]));
    }
  }

  /** The padding that a number of bytes calls for. */
  function PaddingFor(n: nat): nat {
    if n % 3 == 0 then 0 else 3 - n % 3
  }

  lemma PaddingStep(n: nat)
    requires n > 3
    ensures PaddingFor(n) == PaddingFor(n - 3)
  {
  }

  lemma GroupIsCanonical(b: Bytes)
    requires 1 <= |b| <= 3
    ensures WellFormed(EncodeGroup(b)) && Padding(EncodeGroup(b)) == 3 - |b|
    ensures NoUnusedBits(EncodeGroup(b))
  {
    var b1 := if |b| > 1 then b[1] else 0;
    var b2 := if |b| > 2 then b[2] else 0;
    var g := Group(b[0], b1, b2);
    UnusedSextetBits(b[0], b1, b2);
    JoinBits(g);
    LetterValue(Sextet0(g));
    LetterValue(Sextet1(g));
    LetterValue(Sextet2(g));
    LetterValue(Sextet3(g));
  }

  lemma UnusedSextetBits(b0: Byte, b1: Byte, b2: Byte)
    ensures var g := Group(b0, b1, b2);
            Sextet3(g) & 63 == Sextet3(g) &&
            (b2 == 0 ==> Sextet2(g) & 60 == Sextet2(g)) &&
            (b2 == 0 && b1 == 0 ==> Sextet1(g) & 48 == Sextet1(g))
  {
  }

  lemma ReencodedLength(t: Bytes)
    requires WellFormed(t)
    ensures Decodable(t) && Decode(t) != []
    ensures |Encode(Decode(t))| == |t| && PaddingFor(|Decode(t)|) == Padding(t)
  {
    DecodeLength(t);
    EncodeLength(Decode(t));
    PaddingOf(|t| / 4, Padding(t));
  }

  lemma PaddingOf(groups: nat, padding: nat)
    requires groups > 0 && padding <= 2
    ensures PaddingFor(groups * 3 - padding) == padding
    ensures (groups * 3 - padding + 2) / 3 * 4 == groups * 4
  {
  }

  /** Encoding undoes decoding exactly on the texts without unused bits. */
  lemma EncodeDecode(t: Bytes)
    requires WellFormed(t)
    ensures Decodable(t) && Decode(t) != []
    ensures Encode(Decode(t)) == t <==> NoUnusedBits(t)
  {
    ReencodedLength(t);
    var e := Encode(Decode(t));
    RoundTrip(Decode(t));
    EncodeIsCanonical(Decode(t));
    DecodeAlike(e, t);
    if NoUnusedBits(t) {
      var last := |t| - 1 - Padding(t);
      UsedBitsDecide(e[last], t[last], Padding(t));
      assert e == t;
    }
  }

  lemma UsedBitsDecide(c: Byte, d: Byte, padding: nat)
    requires InAlphabet(c) && InAlphabet(d) && SameUsedBits(c, d, padding)
    requires OnlyUsedBits(c, padding) && OnlyUsedBits(d, padding)
    ensures c == d
  {
    SameValue(c, d);
  }

  // ---- the strict decoder of the Rust side ----------------------------------------------------

  /** The standard engine of the base64 crate: padding is required and unused bits must be zero. */
  function StrictDecode(t: Bytes): Option<Bytes> {
    if t == [] then Some([])
    else if WellFormed(t) && NoUnusedBits(t) then DecodableIffWellFormed(t); Some(Decode(t))
    else None
  }

  /** The strict decoder accepts exactly the encoder's output. */
  lemma StrictDecodeInverse(t: Bytes, data: Bytes)
    ensures StrictDecode(t) == Some(data) <==> t == Encode(data)
  {
    if t == Encode(data) && data != [] {
      RoundTrip(data);
      EncodeIsCanonical(data);
    }
    if StrictDecode(t) == Some(data) && t != [] {
      EncodeDecode(t);
    }
  }
}
