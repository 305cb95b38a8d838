/** The two C routines of src/base64.c on caller-supplied buffers, step by step, proved against the
    encoding of module Base64, and the arithmetic that sizes their buffers. */
module Base64Buffers {
  import opened Basics
  import opened Base64

  /** One more than the size of the largest C object. */
  const OBJECT_LIMIT := 0x8000_0000_0000_0000

  // ---- decoding ---------------------------------------------------------------------------------

  /** The four table values of a group, packed as the decoder packs them. */
  function Pack(t0: Byte, t1: Byte, t2: Byte, t3: Byte): bv32 {
    t3 as bv32 | (t2 as bv32 << 6) | (t1 as bv32 << 12) | (t0 as bv32 << 18)
  }

  // Conversions of a packed group to `unsigned char`, which keep the low eight bits.
  function High(t: bv32): Byte { ((t >> 16) & 255) as bv8 }
  function Middle(t: bv32): Byte { ((t >> 8) & 255) as bv8 }
  function Low(t: bv32): Byte { (t & 255) as bv8 }

  lemma PackedFull(t0: Byte, t1: Byte, t2: Byte, t3: Byte)
    requires t0 < 64 && t1 < 64 && t2 < 64 && t3 < 64
    ensures High(Pack(t0, t1, t2, t3)) == Byte0(Join(t0, t1, t2, t3))
    ensures Middle(Pack(t0, t1, t2, t3)) == Byte1(Join(t0, t1, t2, t3))
    ensures Low(Pack(t0, t1, t2, t3)) == Byte2(Join(t0, t1, t2, t3))
  {
  }

  /** The padding marks sit above the bits that are kept. */
  lemma PackedPadded(t0: Byte, t1: Byte, t2: Byte)
    requires t0 < 64 && t1 < 64
    ensures t2 < 64 ==> Middle(Pack(t0, t1, t2, REV64_EOT)) == Byte1(Join(t0, t1, t2, 0))
    ensures t2 < 64 ==> High(Pack(t0, t1, t2, REV64_EOT)) == Byte0(Join(t0, t1, t2, 0))
    ensures High(Pack(t0, t1, REV64_EOT, REV64_EOT)) == Byte0(Join(t0, t1, 0, 0))
  {
  }

  predicate TableValue(t: Byte) {
    t < 64 || t == REV64_NONE || t == REV64_EOT
  }

  /** What the accumulated mask says of the four values. */
  lemma MaskMeaning(t0: Byte, t1: Byte, t2: Byte, t3: Byte, mask: Byte)
    requires TableValue(t0) && TableValue(t1) && TableValue(t2) && TableValue(t3)
    requires mask == t0 | t1 | t2 | t3
    ensures mask & (REV64_NONE | REV64_EOT) == 0 <==> t0 < 64 && t1 < 64 && t2 < 64 && t3 < 64
    ensures mask & REV64_NONE != 0 <==>
              t0 == REV64_NONE || t1 == REV64_NONE || t2 == REV64_NONE || t3 == REV64_NONE
    ensures mask & REV64_EOT != 0 <==>
              t0 == REV64_EOT || t1 == REV64_EOT || t2 == REV64_EOT || t3 == REV64_EOT
    ensures (t0 | t1) & REV64_EOT != 0 <==> t0 == REV64_EOT || t1 == REV64_EOT
  {
  }

  lemma TableMeaning(c: Byte)
    ensures TableValue(Rev64(c))
    ensures Rev64(c) < 64 <==> InAlphabet(c)
    ensures Rev64(c) == REV64_EOT <==> c == PAD
    ensures InAlphabet(c) ==> Rev64(c) == Value(c)
    ensures c == PAD ==> Value(c) == 0 && !InAlphabet(c)
  {
  }

  /** `t` decodes and the result fits a buffer of `room` bytes. */
  predicate Fits(t: Bytes, room: nat) {
    WellFormed(t) && |t| / 4 * 3 - Padding(t) <= room
  }

  /** The decoder's first test. */
  predicate Guard(t: Bytes, room: nat) {
    |t| % 4 == 0 && |t| / 4 > 0 &&
    room >= |t| / 4 * 3 - (if t[|t| - 1] == PAD then 1 else 0) - (if t[|t| - 2] == PAD then 1 else 0)
  }

  /** What the first test lets through. */
  lemma GuardMeaning(t: Bytes, room: nat)
    ensures Fits(t, room) ==> Guard(t, room)
    ensures WellFormed(t) && Guard(t, room) ==> Fits(t, room)
    ensures WellFormed(t) <==> t != [] && Decodable(t)
    ensures WellFormed(t) ==> |Decode(t)| == |t| / 4 * 3 - Padding(t)
  {
    DecodableIffWellFormed(t);
    if WellFormed(t) { DecodeLength(t); }
  }

  /** The bitwise or of a group's table values. */
  function Mask(q: Bytes): Byte
    requires |q| == 4
  {
    Rev64(q[0]) | Rev64(q[1]) | Rev64(q[2]) | Rev64(q[3])
  }

  function Packed(q: Bytes): bv32
    requires |q| == 4
  {
    Pack(Rev64(q[0]), Rev64(q[1]), Rev64(q[2]), Rev64(q[3]))
  }

  lemma FullGroup(q: Bytes)
    requires |q| == 4
    ensures Mask(q) & (REV64_NONE | REV64_EOT) == 0 <==> FullQuad(q)
    ensures FullQuad(q) ==> Mask(q) & REV64_EOT == 0
    ensures FullQuad(q) ==>
              DecodeQuad(q) == [High(Packed(q)), Middle(Packed(q)), Low(Packed(q))]
  {
    TableMeaning(q[0]);
    TableMeaning(q[1]);
    TableMeaning(q[2]);
    TableMeaning(q[3]);
    MaskMeaning(Rev64(q[0]), Rev64(q[1]), Rev64(q[2]), Rev64(q[3]), Mask(q));
    if FullQuad(q) {
      PackedFull(Rev64(q[0]), Rev64(q[1]), Rev64(q[2]), Rev64(q[3]));
    }
  }

  lemma PaddedGroup(q: Bytes)
    requires |q| == 4 && !FullQuad(q)
    ensures PaddedQuad(q) <==>
              Mask(q) & REV64_NONE == 0 && (Rev64(q[0]) | Rev64(q[1])) & REV64_EOT == 0 &&
              Rev64(q[3]) == REV64_EOT
    ensures Mask(q) & REV64_NONE == 0 ==> Mask(q) & REV64_EOT != 0
    ensures Rev64(q[2]) == REV64_EOT <==> q[2] == PAD
    ensures PaddedQuad(q) ==>
              DecodeQuad(q) == if q[2] == PAD then [High(Packed(q))]
                               else [High(Packed(q)), Middle(Packed(q))]
  {
    TableMeaning(q[0]);
    TableMeaning(q[1]);
    TableMeaning(q[2]);
    TableMeaning(q[3]);
    MaskMeaning(Rev64(q[0]), Rev64(q[1]), Rev64(q[2]), Rev64(q[3]), Mask(q));
    if PaddedQuad(q) {
      PackedPadded(Rev64(q[0]), Rev64(q[1]), Rev64(q[2]));
    }
  }

  /** A first group that is followed by others. */
  lemma NextGroup(t: Bytes)
    requires |t| >= 4
    ensures FullQuad(t[..4]) ==>
              (Decodable(t) <==> Decodable(t[4..])) &&
              (Decodable(t) ==> Decode(t) == DecodeQuad(t[..4]) + Decode(t[4..]))
    ensures !FullQuad(t[..4]) && |t| > 4 ==> !Decodable(t)
    ensures |t| == 4 ==> t[..4] == t
  {
    assert |t| == 4 ==> t[..4] == t;
  }

  ghost predicate SameFrom(before: Bytes, now: Bytes, w: nat) {
    |before| == |now| && forall k :: w <= k < |now| ==> now[k] == before[k]
  }

  /** The state between two groups: `r` characters are consumed and `w` bytes written. */
  ghost predicate Between(b64: Bytes, before: Bytes, now: Bytes, r: nat, w: nat)
  {
    r <= |b64| && w <= |now| &&
    SameFrom(before, now, w) &&
    (Decodable(b64) <==> Decodable(b64[r..])) &&
    (Decodable(b64) ==> Decode(b64) == now[..w] + Decode(b64[r..]))
  }

  lemma WriteThree(now: Bytes, w: nat, x: Byte, y: Byte, z: Byte)
    requires w + 3 <= |now|
    ensures now[w := x][w + 1 := y][w + 2 := z] == Written(now, w, [x, y, z])
  {
  }

  lemma WriteFew(now: Bytes, w: nat, x: Byte, y: Byte)
    requires w + 1 <= |now|
    ensures now[w := x] == Written(now, w, [x])
    ensures w + 2 <= |now| ==> now[w := x][w + 1 := y] == Written(now, w, [x, y])
  {
  }

  lemma DecodeNext(b64: Bytes, r: nat)
    requires r + 4 <= |b64| && FullQuad(b64[r..r + 4])
    ensures Decodable(b64[r..]) <==> Decodable(b64[r + 4..])
    ensures Decodable(b64[r..]) ==>
              Decode(b64[r..]) == DecodeQuad(b64[r..r + 4]) + Decode(b64[r + 4..])
  {
    NextGroup(b64[r..]);
    assert b64[r..][..4] == b64[r..r + 4] && b64[r..][4..] == b64[r + 4..];
  }

  lemma Advance(b64: Bytes, before: Bytes, now: Bytes, r: nat, w: nat)
    requires Between(b64, before, now, r, w) && r + 4 <= |b64|
    requires FullQuad(b64[r..r + 4]) && w + 3 <= |now|
    ensures Between(b64, before, Written(now, w, DecodeQuad(b64[r..r + 4])), r + 4, w + 3)
  {
    var d := DecodeQuad(b64[r..r + 4]);
    DecodeNext(b64, r);
    WrittenParts(before, now, w, d);
    if Decodable(b64) {
      Regroup(now[..w], d, Decode(b64[r + 4..]));
    }
  }

  lemma WrittenParts(before: Bytes, now: Bytes, w: nat, d: Bytes)
    requires w + |d| <= |now| && SameFrom(before, now, w)
    ensures Written(now, w, d)[..w + |d|] == now[..w] + d
    ensures SameFrom(before, Written(now, w, d), w + |d|)
  {
  }

  /** The buffer holds the decoded text in its first `n` bytes and is otherwise as it was. */
  ghost predicate Decoded(b64: Bytes, before: Bytes, now: Bytes, n: nat) {
    Decodable(b64) && n == |Decode(b64)| <= |now| &&
    now[..n] == Decode(b64) && SameFrom(before, now, n)
  }

  lemma Finished(b64: Bytes, before: Bytes, now: Bytes, r: nat, w: nat)
    requires Between(b64, before, now, r, w) && r == |b64|
    ensures Decoded(b64, before, now, w)
  {
    assert b64[r..] == [];
  }

  /** What the group at `r` does to the state between groups. */
  lemma Progress(b64: Bytes, before: Bytes, now: Bytes, r: nat, w: nat)
    requires Between(b64, before, now, r, w) && r + 4 <= |b64|
    ensures var q := b64[r..r + 4];
            if FullQuad(q) || (r + 4 == |b64| && PaddedQuad(q)) then
              w + |DecodeQuad(q)| <= |now| ==>
                Between(b64, before, Written(now, w, DecodeQuad(q)), r + 4, w + |DecodeQuad(q)|)
            else !Decodable(b64)
  {
    var q := b64[r..r + 4];
    assert b64[r..][..4] == q;
    if FullQuad(q) {
      if w + 3 <= |now| { Advance(b64, before, now, r, w); }
    } else if r + 4 == |b64| {
      assert b64[r..] == q && b64[r + 4..] == [];
      if PaddedQuad(q) && w + |DecodeQuad(q)| <= |now| {
        WrittenParts(before, now, w, DecodeQuad(q));
      }
    } else {
      NextGroup(b64[r..]);
    }
  }

  /** What `b64_to_bin` reports. */
  ghost predicate Reported(b64: Bytes, room: nat, before: Bytes, now: Bytes, n: Option<nat>) {
    (n.Some? <==> Fits(b64, room)) &&
    (n.Some? ==> Decoded(b64, before, now, n.value))
  }

  /** After `k` groups there is room for another. */
  lemma Room(b64: Bytes, room: nat, k: nat)
    requires Guard(b64, room) && 4 * k + 4 <= |b64|
    ensures FullQuad(b64[4 * k..4 * k + 4]) ==> 3 * k + 3 <= room
    ensures 4 * k + 4 == |b64| && PaddedQuad(b64[4 * k..4 * k + 4]) ==>
              3 * k + |DecodeQuad(b64[4 * k..4 * k + 4])| <= room
  {
    var q := b64[4 * k..4 * k + 4];
    if 4 * k + 4 == |b64| {
      assert q[3] == b64[|b64| - 1] && q[2] == b64[|b64| - 2];
    }
  }

  /** The group after `k` others: it fits and leads to the next state, or the text is rejected. */
  lemma NextState(b64: Bytes, before: Bytes, now: Bytes, room: nat, k: nat)
    requires Guard(b64, room) && room <= |now| && 4 * k + 4 <= |b64|
    requires Between(b64, before, now, 4 * k, 3 * k)
    ensures var q := b64[4 * k..4 * k + 4];
            if FullQuad(q) || (4 * k + 4 == |b64| && PaddedQuad(q)) then
              var w := 3 * k + |DecodeQuad(q)|;
              w <= room && (4 * k + 4 < |b64| ==> w == 3 * k + 3) &&
              Between(b64, before, Written(now, 3 * k, DecodeQuad(q)), 4 * k + 4, w)
            else !Decodable(b64)
  {
    Room(b64, room, k);
    Progress(b64, before, now, 4 * k, 3 * k);
  }

  /** The last step, after a group `q` with padding in it. */
  method DecodePadded(bin: array<Byte>, q: Bytes, w: nat) returns (n: Option<nat>)
    requires |q| == 4 && !FullQuad(q) && Mask(q) & REV64_NONE == 0
    requires PaddedQuad(q) ==> w + |DecodeQuad(q)| <= bin.Length
    modifies bin
    ensures n.Some? <==> PaddedQuad(q)
    ensures n.Some? ==>
              n.value == w + |DecodeQuad(q)| && bin[..] == Written(old(bin[..]), w, DecodeQuad(q))
    ensures n.None? ==> bin[..] == old(bin[..])
  {
    PaddedGroup(q);
    var t0, t1, t2, t3 := Rev64(q[0]), Rev64(q[1]), Rev64(q[2]), Rev64(q[3]);
    var t := Pack(t0, t1, t2, t3);
    if (t0 | t1) & REV64_EOT != 0 || t3 != REV64_EOT {
      return None;
    }
    WriteFew(bin[..], w, High(t), Middle(t));
    var end := w + 1;
    bin[w] := High(t);
    if t2 != REV64_EOT {
      bin[end] := Middle(t);
      end := end + 1;
    }
    return Some(end);
  }

  /** One group: the loop body, and what follows the loop when the group is padded. */
  method DecodeGroup(bin: array<Byte>, q: Bytes, last: bool, w: nat) returns (n: Option<nat>)
    requires |q| == 4
    requires FullQuad(q) || (last && PaddedQuad(q)) ==> w + |DecodeQuad(q)| <= bin.Length
    modifies bin
    ensures n.Some? <==> FullQuad(q) || (last && PaddedQuad(q))
    ensures n.Some? ==>
              n.value == w + |DecodeQuad(q)| && bin[..] == Written(old(bin[..]), w, DecodeQuad(q))
    ensures n.None? ==> bin[..] == old(bin[..])
  {
    FullGroup(q);
    var t := Pack(Rev64(q[0]), Rev64(q[1]), Rev64(q[2]), Rev64(q[3]));
    var mask := Rev64(q[0]) | Rev64(q[1]) | Rev64(q[2]) | Rev64(q[3]);
    if mask & (REV64_NONE | REV64_EOT) != 0 {
      PaddedGroup(q);
      if mask & REV64_NONE != 0 || !last {
        return None;
      }
      n := DecodePadded(bin, q, w);
      return n;
    }
    WriteThree(bin[..], w, High(t), Middle(t), Low(t));
    bin[w], bin[w + 1], bin[w + 2] := High(t), Middle(t), Low(t);
    return Some(w + 3);
  }

  /** `b64_to_bin`: accepts exactly the well-formed texts whose bytes fit `bin_maxlen`, leaves the
      decoded bytes in the buffer, and on no input writes past `bin_maxlen`. */
  method B64ToBin(bin: array<Byte>, b64: Bytes, bin_maxlen: nat) returns (n: Option<nat>)
    requires bin_maxlen <= bin.Length
    modifies bin
    ensures Reported(b64, bin_maxlen, old(bin[..]), bin[..], n)
    ensures SameFrom(old(bin[..]), bin[..], bin_maxlen)
  {
    GuardMeaning(b64, bin_maxlen);
    if !Guard(b64, bin_maxlen) { return None; }
    n := DecodeGroups(bin, b64, bin_maxlen);
  }

  /** One turn of the loop: the group after `k` others. */
  method DecodeAfter(bin: array<Byte>, b64: Bytes, bin_maxlen: nat, k: nat, ghost before: Bytes)
    returns (n: Option<nat>)
    requires bin_maxlen <= bin.Length && Guard(b64, bin_maxlen) && 4 * k + 4 <= |b64|
    requires Between(b64, before, bin[..], 4 * k, 3 * k)
    modifies bin
    ensures n.Some? ==>
              n.value <= bin_maxlen && (4 * k + 4 < |b64| ==> n.value == 3 * k + 3) &&
              Between(b64, before, bin[..], 4 * k + 4, n.value)
    ensures n.None? ==> !Decodable(b64) && bin[..] == old(bin[..])
  {
    NextState(b64, before, bin[..], bin_maxlen, k);
    n := DecodeGroup(bin, b64[4 * k..4 * k + 4], 4 * k + 4 == |b64|, 3 * k);
  }

  lemma FrameOnly(b64: Bytes, before: Bytes, now: Bytes, r: nat, w: nat, room: nat)
    requires Between(b64, before, now, r, w) && w <= room
    ensures SameFrom(before, now, room)
  {
  }

  method DecodeGroups(bin: array<Byte>, b64: Bytes, bin_maxlen: nat) returns (n: Option<nat>)
    requires bin_maxlen <= bin.Length && Guard(b64, bin_maxlen)
    modifies bin
    ensures n.Some? <==> Decodable(b64)
    ensures n.Some? ==> Decoded(b64, old(bin[..]), bin[..], n.value)
    ensures SameFrom(old(bin[..]), bin[..], bin_maxlen)
  {
    ghost var before := bin[..];
    var groups := |b64| / 4;
    var i: nat, k: nat, w: nat := groups, 0, 0;
    while i > 0
      invariant i + k == groups && |b64| == 4 * groups
      invariant w <= bin_maxlen && (i > 0 ==> w == 3 * k)
      invariant Between(b64, before, bin[..], 4 * k, w)
      decreases i
    {
      var written := DecodeAfter(bin, b64, bin_maxlen, k, before);
      if written.None? {
        FrameOnly(b64, before, bin[..], 4 * k, w, bin_maxlen);
        return None;
      }
      i, k, w := i - 1, k + 1, written.value;
    }
    FrameOnly(b64, before, bin[..], 4 * k, w, bin_maxlen);
    Finished(b64, before, bin[..], 4 * k, w);
    return Some(w);
  }

  // ---- encoding ---------------------------------------------------------------------------------

  // The four table indices of a group, computed byte by byte.
  function Index0(t0: Byte): Byte { (t0 >> 2) & 63 }
  function Index1(t0: Byte, t1: Byte): Byte { ((t0 << 4) & 48) | ((t1 >> 4) & 15) }
  function Index2(t1: Byte, t2: Byte): Byte { ((t1 << 2) & 60) | ((t2 >> 6) & 3) }
  function Index3(t2: Byte): Byte { t2 & 63 }

  lemma IndexMeaning(t0: Byte, t1: Byte, t2: Byte)
    ensures Index0(t0) == Sextet0(Group(t0, t1, t2)) && Index1(t0, t1) == Sextet1(Group(t0, t1, t2))
    ensures Index2(t1, t2) == Sextet2(Group(t0, t1, t2)) && Index3(t2) == Sextet3(Group(t0, t1, t2))
  {
  }

  /** The last group without the bytes that are not there. */
  lemma ShortIndexMeaning(t0: Byte, t1: Byte)
    ensures (t0 << 4) & 48 == Index1(t0, 0) && (t1 << 2) & 60 == Index2(t1, 0)
  {
  }

  /** The buffer size `bin_to_b64` asks for, in `size_t` arithmetic. */
  function EncoderNeeds(bin_len: nat): nat {
    ((bin_len + 2) % TWO_TO_64 / 3 * 4 % TWO_TO_64 + 1) % TWO_TO_64
  }

  lemma EncoderNeedsExactly(data: Bytes)
    requires |data| < OBJECT_LIMIT
    ensures EncoderNeeds(|data|) == |Encode(data)| + 1
  {
    EncodeLength(data);
    NoWrap(|data|);
  }

  lemma NoWrap(n: nat)
    requires n < OBJECT_LIMIT
    ensures EncoderNeeds(n) == (n + 2) / 3 * 4 + 1
  {
  }

  lemma EncodeNext(bin: Bytes, r: nat)
    requires r + 3 <= |bin|
    ensures Encode(bin[r..]) == EncodeGroup(bin[r..r + 3]) + Encode(bin[r + 3..])
  {
    assert bin[r..][..3] == bin[r..r + 3] && bin[r..][3..] == bin[r + 3..];
    assert |bin| == r + 3 ==> bin[r..] == bin[r..r + 3];
  }

  /** The encoded text splits after the groups done so far. */
  ghost predicate Encoded(bin: Bytes, r: nat, done: Bytes) {
    r <= |bin| && Encode(bin) == done + Encode(bin[r..])
  }

  lemma EncodedNext(bin: Bytes, r: nat, done: Bytes)
    requires Encoded(bin, r, done) && r + 3 <= |bin|
    ensures Encoded(bin, r + 3, done + EncodeGroup(bin[r..r + 3]))
    ensures |done| + 4 <= |Encode(bin)|
  {
    EncodeNext(bin, r);
  }

  lemma EncodedLast(bin: Bytes, r: nat, done: Bytes)
    requires Encoded(bin, r, done) && |bin| - 3 < r
    ensures Encode(bin) == if r == |bin| then done else done + EncodeGroup(bin[r..])
  {
  }

  /** One group of one to three bytes. */
  method EncodeGroupAt(b64: array<Byte>, t: Bytes, w: nat)
    requires 1 <= |t| <= 3 && w + 4 <= b64.Length
    modifies b64
    ensures b64[..] == Written(old(b64[..]), w, EncodeGroup(t))
  {
    var t1 := if |t| > 1 then t[1] else 0;
    var t2 := if |t| > 2 then t[2] else 0;
    IndexMeaning(t[0], t1, t2);
    ShortIndexMeaning(t[0], t1);
    WriteFour(b64[..], w, EncodeGroup(t)[0], EncodeGroup(t)[1], EncodeGroup(t)[2], EncodeGroup(t)[3]);
    b64[w] := Char64(Index0(t[0]));
    if |t| == 1 {
      b64[w + 1] := Char64((t[0] << 4) & 48);
      b64[w + 2] := PAD;
      b64[w + 3] := PAD;
    } else if |t| == 2 {
      b64[w + 1] := Char64(Index1(t[0], t[1]));
      b64[w + 2] := Char64((t[1] << 2) & 60);
      b64[w + 3] := PAD;
    } else {
      b64[w + 1] := Char64(Index1(t[0], t[1]));
      b64[w + 2] := Char64(Index2(t[1], t[2]));
      b64[w + 3] := Char64(Index3(t[2]));
    }
  }

  /** One group more, after the text `done`. */
  method EncodeAfter(b64: array<Byte>, t: Bytes, w: nat, ghost before: Bytes, ghost done: Bytes)
    requires 1 <= |t| <= 3 && w == |done| && w + 4 <= b64.Length == |before|
    requires b64[..] == Written(before, 0, done)
    modifies b64
    ensures b64[..] == Written(before, 0, done + EncodeGroup(t))
  {
    WrittenTwice(before, 0, done, EncodeGroup(t));
    EncodeGroupAt(b64, t, w);
  }

  method EncodeGroups(b64: array<Byte>, bin: Bytes) returns (w: nat)
    requires |Encode(bin)| <= b64.Length
    modifies b64
    ensures w == |Encode(bin)| && b64[..] == Written(old(b64[..]), 0, Encode(bin))
  {
    var r := 0;
    w := 0;
    ghost var before, done := b64[..], [];
    while |bin| - r > 2
      invariant 0 <= r <= |bin| && w == |done| <= |before| && Encoded(bin, r, done)
      invariant b64[..] == Written(before, 0, done)
    {
      EncodedNext(bin, r, done);
      var t := bin[r..r + 3];
      EncodeAfter(b64, t, w, before, done);
      done := done + EncodeGroup(t);
      r, w := r + 3, w + 4;
    }
    EncodedLast(bin, r, done);
    if |bin| - r > 0 {
      EncodeAfter(b64, bin[r..], w, before, done);
      w := w + 4;
    }
  }

  /** `bin_to_b64`: writes the encoding and its terminator, or nothing when they would not fit. */
  method BinToB64(b64: array<Byte>, bin: Bytes, b64_maxlen: nat) returns (ok: bool)
    requires b64_maxlen <= b64.Length && |bin| < OBJECT_LIMIT
    modifies b64
    ensures ok <==> |Encode(bin)| + 1 <= b64_maxlen
    ensures b64[..] == if ok then Written(old(b64[..]), 0, Encode(bin) + [0]) else old(b64[..])
  {
    EncoderNeedsExactly(bin);
    if b64_maxlen < EncoderNeeds(|bin|) { return false; }
    var w := EncodeGroups(b64, bin);
    WrittenTwice(old(b64[..]), 0, Encode(bin), [0]);
    WriteFew(b64[..], w, 0, 0);
    b64[w] := 0;
    return true;
  }

  /** The buffer size `xfput_b64` computes, in `size_t` arithmetic. */
  function XfputSize(bin_len: nat): nat {
    ((bin_len + 2) % TWO_TO_64 * 4 % TWO_TO_64 / 3 + 1) % TWO_TO_64
  }

  /** It meets the encoder's demand for every object short enough that the product by four does
      not wrap, and for no other. */
  lemma XfputSizeSuffices(bin_len: nat)
    requires bin_len < OBJECT_LIMIT
    ensures XfputSize(bin_len) >= EncoderNeeds(bin_len) <==> bin_len + 2 < 0x4000_0000_0000_0000
  {
    NoWrap(bin_len);
    Wrapped(bin_len + 2);
    ThirdsOfFour(bin_len + 2);
  }

  /** The product by four, by the number of times it wraps. */
  lemma Wrapped(n: nat)
    requires n < OBJECT_LIMIT + 2
    ensures n < 0x4000_0000_0000_0000 ==> n * 4 % TWO_TO_64 == n * 4
    ensures 0x4000_0000_0000_0000 <= n < OBJECT_LIMIT ==> n * 4 % TWO_TO_64 == n * 4 - TWO_TO_64
    ensures OBJECT_LIMIT <= n ==> n * 4 % TWO_TO_64 == n * 4 - 2 * TWO_TO_64
    ensures n % TWO_TO_64 == n
  {
  }

  lemma ThirdsOfFour(n: nat)
    ensures n / 3 * 4 <= n * 4 / 3 < n / 3 * 4 + 4
  {
  }

  /** What the encoder wrote, handed with its length to the decoder, comes back. */
  method ThereAndBack(data: Bytes, text: array<Byte>, bin: array<Byte>) returns (n: Option<nat>)
    requires data != [] && |data| < OBJECT_LIMIT && text != bin
    requires |Encode(data)| + 1 <= text.Length && |data| <= bin.Length
    modifies text, bin
    ensures n == Some(|data|) && bin[..|data|] == data
    ensures SameFrom(old(bin[..]), bin[..], |data|)
  {
    RoundTrip(data);
    DecodableIffWellFormed(Encode(data));
    DecodeLength(Encode(data));
    var ok := BinToB64(text, data, text.Length);
    assert text[..|Encode(data)|] == Encode(data);
    n := B64ToBin(bin, text[..|Encode(data)|], bin.Length);
  }
}
