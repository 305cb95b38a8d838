/** 64-bit words as eight bytes, least significant first: `le64_load` and `le64_store` of
    src/helpers.c, `read_u64_le` of rs/src/formats.rs; and `xor_buf`. A word is a natural below
    2^64: shifting right by 8k divides by 256^k, converting to a byte keeps the remainder by 256,
    and an `|` of bytes shifted apart is their sum. */
module LittleEndian {
  import opened Basics

  type Word = x: nat | x < TWO_TO_64

  function LowByte(x: nat): Byte {
    (x % 256) as bv8
  }

  lemma LowByteValue(x: nat)
    ensures LowByte(x) as nat == x % 256
  {
    ByteOf(x % 256);
  }

  lemma ByteOf(n: nat)
    requires n < 256
    ensures (n as bv8) as nat == n
  {
    if n > 0 {
      ByteOf(n - 1);
      var b := (n - 1) as bv8;
      NextByte(b);
      ByteAgain(b + 1);
    } else {
      ByteAgain(0);
    }
  }

  lemma NextByte(b: Byte)
    requires b as nat < 255
    ensures (b + 1) as nat == b as nat + 1
  {
  }

  lemma ByteValue(b: Byte)
    ensures b as nat < 256 && LowByte(b as nat) == b
  {
    ByteRange(b);
    ByteAgain(b);
    assert (b as nat) % 256 == b as nat;
  }

  lemma ByteRange(b: Byte)
    ensures b as nat < 256
  {
  }

  lemma ByteAgain(b: Byte)
    ensures b as nat < 256 && (b as nat) as bv8 == b
  {
  }

  /** The `n` low bytes of a number, least significant first. */
  function Bytewise(x: nat, n: nat): (b: Bytes)
    ensures |b| == n
  {
    if n == 0 then [] else [LowByte(x)] + Bytewise(x / 256, n - 1)
  }

  /** The number that bytes stand for, least significant first. */
  function Number(b: Bytes): nat {
    if b == [] then 0 else b[0] as nat + 256 * Number(b[1..])
  }

  function Pow256(n: nat): nat {
    if n == 0 then 1 else 256 * Pow256(n - 1)
  }

  lemma {:induction false} NumberOfBytes(x: nat, n: nat)
    requires x < Pow256(n)
    ensures Number(Bytewise(x, n)) == x
  {
    if n > 0 {
      LowByteValue(x);
      NumberOfBytes(x / 256, n - 1);
    }
  }

  lemma Digits(low: nat, high: nat)
    requires low < 256
    ensures (low + 256 * high) % 256 == low && (low + 256 * high) / 256 == high
  {
  }

  lemma {:induction false} BytesOfNumber(b: Bytes)
    ensures Number(b) < Pow256(|b|) && Bytewise(Number(b), |b|) == b
  {
    if b != [] {
      ByteValue(b[0]);
      BytesOfNumber(b[1..]);
      Digits(b[0] as nat, Number(b[1..]));
    }
  }

  /** The bytes of a word. */
  function Store(x: Word): (b: Bytes)
    ensures |b| == 8
  {
    Bytewise(x, 8)
  }

  /** The word of eight bytes. */
  function Load(b: Bytes): Word
    requires |b| == 8
  {
    BytesOfNumber(b);
    Pow256Of8();
    Number(b)
  }

  lemma Pow256Of8()
    ensures Pow256(8) == TWO_TO_64
  {
    assert Pow256(4) == 0x1_0000_0000;
  }

  lemma LoadStore(x: Word)
    ensures Load(Store(x)) == x
  {
    Pow256Of8();
    NumberOfBytes(x, 8);
  }

  lemma StoreLoad(b: Bytes)
    requires |b| == 8
    ensures Store(Load(b)) == b
  {
    BytesOfNumber(b);
  }

  /** Loading and storing are inverse. */
  lemma WordInverse(x: Word, b: Bytes)
    requires |b| == 8
    ensures Load(b) == x <==> b == Store(x)
  {
    LoadStore(x);
    StoreLoad(b);
  }

  lemma {:induction false} ByteOfShifted(x: nat, n: nat, k: nat)
    requires k < n
    ensures Pow256(k) > 0 && Bytewise(x, n)[k] == LowByte(x / Pow256(k))
  {
    if k > 0 {
      ByteOfShifted(x / 256, n - 1, k - 1);
      DivideTwice(x, 256, Pow256(k - 1));
    }
  }

  lemma DivideTwice(x: nat, a: nat, b: nat)
    requires a > 0 && b > 0
    ensures a * b > 0 && x / (a * b) == x / a / b
  {
    var q := x / a / b;
    var r, s := x % a, x / a % b;
    assert x == a * (x / a) + r && x / a == b * q + s;
    assert x == a * (b * q + s) + r;
    assert a * (b * q + s) == (a * b) * q + a * s by { Distribute(a, b, q, s); }
    assert a * s <= a * (b - 1) by { Monotone(a, s, b - 1); }
    assert a * (b - 1) == a * b - a;
    Quotient(x, a * b, q, a * s + r);
  }

  lemma Distribute(a: nat, b: nat, q: nat, s: nat)
    ensures a * (b * q + s) == (a * b) * q + a * s
  {
  }

  lemma Monotone(a: nat, s: nat, t: nat)
    requires s <= t
    ensures a * s <= a * t
  {
  }

  lemma Quotient(x: nat, n: nat, q: nat, r: nat)
    requires n > 0 && x == n * q + r && r < n
    ensures x / n == q
  {
    assert x == n * (x / n) + x % n;
    assert n * (q - x / n) == x % n - r;
    NoMultipleBetween(n, q - x / n);
  }

  lemma NoMultipleBetween(n: int, d: int)
    requires n > 0 && -n < n * d < n
    ensures d == 0
  {
  }

  /** `le64_store` at an offset: eight shifted bytes. */
  method StoreInto(p: array<Byte>, at: nat, x: Word)
    requires at + 8 <= p.Length
    modifies p
    ensures p[..] == Written(old(p[..]), at, Store(x))
  {
    ShiftedBytes(x);
    StoreEight(p, at, LowByte(x), LowByte(x / 0x100), LowByte(x / 0x1_0000), LowByte(x / 0x100_0000),
               LowByte(x / 0x1_0000_0000), LowByte(x / 0x100_0000_0000),
               LowByte(x / 0x1_0000_0000_0000), LowByte(x / 0x100_0000_0000_0000));
  }

  method StoreEight(p: array<Byte>, at: nat, b0: Byte, b1: Byte, b2: Byte, b3: Byte,
                    b4: Byte, b5: Byte, b6: Byte, b7: Byte)
    requires at + 8 <= p.Length
    modifies p
    ensures p[..] == Written(old(p[..]), at, [b0, b1, b2, b3, b4, b5, b6, b7])
  {
    ghost var before := p[..];
    WriteFour(before, at, b0, b1, b2, b3);
    p[at], p[at + 1], p[at + 2], p[at + 3] := b0, b1, b2, b3;
    assert p[..] == Written(before, at, [b0, b1, b2, b3]);
    WriteFour(p[..], at + 4, b4, b5, b6, b7);
    WrittenTwice(before, at, [b0, b1, b2, b3], [b4, b5, b6, b7]);
    assert [b0, b1, b2, b3] + [b4, b5, b6, b7] == [b0, b1, b2, b3, b4, b5, b6, b7];
    p[at + 4], p[at + 5], p[at + 6], p[at + 7] := b4, b5, b6, b7;
  }

  lemma ShiftedBytes(x: nat)
    ensures Bytewise(x, 8) ==
              [LowByte(x), LowByte(x / 0x100), LowByte(x / 0x1_0000), LowByte(x / 0x100_0000),
               LowByte(x / 0x1_0000_0000), LowByte(x / 0x100_0000_0000),
               LowByte(x / 0x1_0000_0000_0000), LowByte(x / 0x100_0000_0000_0000)]
  {
    Powers();
    forall k: nat | k < 8 ensures Bytewise(x, 8)[k] == LowByte(x / Pow256(k)) && Pow256(k) > 0 {
      ByteOfShifted(x, 8, k);
    }
  }

  lemma Powers()
    ensures Pow256(0) == 1 && Pow256(1) == 0x100 && Pow256(2) == 0x1_0000 && Pow256(3) == 0x100_0000
    ensures Pow256(4) == 0x1_0000_0000 && Pow256(5) == 0x100_0000_0000
    ensures Pow256(6) == 0x1_0000_0000_0000 && Pow256(7) == 0x100_0000_0000_0000
  {
    assert Pow256(4) == 0x1_0000_0000;
  }

  // ---- exclusive or ---------------------------------------------------------------------------------

  function Xor(a: Bytes, b: Bytes): (r: Bytes)
    requires |a| == |b|
    ensures |r| == |a|
  {
    if a == [] then [] else [a[0] ^ b[0]] + Xor(a[1..], b[1..])
  }

  lemma XorTwice(x: Byte, y: Byte)
    ensures (x ^ y) ^ y == x
  {
  }

  /** Applying the same key stream twice changes nothing. */
  lemma XorInverse(a: Bytes, b: Bytes)
    requires |a| == |b|
    ensures Xor(Xor(a, b), b) == a
  {
    forall k | 0 <= k < |a| ensures Xor(Xor(a, b), b)[k] == a[k] {
      XorAt(a, b, k);
      XorAt(Xor(a, b), b, k);
      XorTwice(a[k], b[k]);
    }
  }

  lemma {:induction false} XorAt(a: Bytes, b: Bytes, k: nat)
    requires k < |a| == |b|
    ensures Xor(a, b)[k] == a[k] ^ b[k]
  {
    if k > 0 { XorAt(a[1..], b[1..], k - 1); }
  }

  lemma XorIs(a: Bytes, b: Bytes, r: Bytes)
    requires |a| == |b| == |r|
    requires forall k :: 0 <= k < |a| ==> r[k] == a[k] ^ b[k]
    ensures r == Xor(a, b)
  {
    forall k | 0 <= k < |a| ensures r[k] == Xor(a, b)[k] { XorAt(a, b, k); }
  }

  /** `xor_buf` on the `len` bytes from `at`. */
  method XorInto(dst: array<Byte>, at: nat, src: Bytes)
    requires at + |src| <= dst.Length
    modifies dst
    ensures dst[..] == Written(old(dst[..]), at, Xor(old(dst[at..at + |src|]), src))
  {
    ghost var before := dst[..];
    var i := 0;
    while i < |src|
      invariant i <= |src|
      invariant forall k :: 0 <= k < i ==> dst[at + k] == before[at + k] ^ src[k]
      invariant dst[..at] == before[..at] && dst[at + i..] == before[at + i..]
    {
      assert dst[at + i] == dst[at + i..][0] == before[at + i];
      dst[at + i] := dst[at + i] ^ src[i];
      i := i + 1;
    }
    XorIs(before[at..at + |src|], src, dst[at..at + |src|]);
    assert dst[..] == dst[..at] + dst[at..at + |src|] + dst[at + |src|..];
  }
}
