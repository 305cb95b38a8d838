/** Bytes and optional values. */
module Basics {
  type Byte = bv8
  type Bytes = seq<bv8>

  /** One more than the largest 64-bit number. */
  const TWO_TO_64 := 0x1_0000_0000_0000_0000

  datatype Option<+T> = None | Some(value: T)

  lemma Regroup<T>(a: seq<T>, b: seq<T>, c: seq<T>)
    ensures a + (b + c) == (a + b) + c
  {
  }

  datatype Result<+T, +E> = Ok(value: T) | Err(error: E)

  /** The buffer after the bytes `d` have been written at `w`. */
  function Written(now: Bytes, w: nat, d: Bytes): (after: Bytes)
    requires w + |d| <= |now|
    ensures |after| == |now|
  {
    now[..w] + d + now[w + |d|..]
  }

  lemma WriteFour(now: Bytes, w: nat, a: Byte, b: Byte, c: Byte, d: Byte)
    requires w + 4 <= |now|
    ensures now[w := a][w + 1 := b][w + 2 := c][w + 3 := d] == Written(now, w, [a, b, c, d])
  {
  }

  lemma WrittenTwice(now: Bytes, w: nat, d: Bytes, e: Bytes)
    requires w + |d| + |e| <= |now|
    ensures Written(Written(now, w, d), w + |d|, e) == Written(now, w, d + e)
  {
  }

  /** Copies `d` into a buffer. */
  method CopyInto(buf: array<Byte>, w: nat, d: Bytes)
    requires w + |d| <= buf.Length
    modifies buf
    ensures buf[..] == Written(old(buf[..]), w, d)
  {
    var i := 0;
    while i < |d|
      invariant i <= |d|
      invariant buf[..] == Written(old(buf[..]), w, d[..i])
    {
      buf[w + i] := d[i];
      i := i + 1;
    }
  }
}
