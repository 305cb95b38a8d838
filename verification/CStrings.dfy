/** NUL-terminated strings in C buffers: `trim` of src/helpers.c, and `fgets` on a file that is
    read from front to back. */
module CStrings {
  import opened Basics

  const LF: Byte := 10
  const CR: Byte := 13

  /** The position of the first `c`, or the length. */
  function Find(s: Bytes, c: Byte): (n: nat)
    ensures n <= |s| && (n < |s| ==> s[n] == c) && c !in s[..n]
  {
    if s == [] || s[0] == c then 0
    else
      assert s[..1 + Find(s[1..], c)] == [s[0]] + s[1..][..Find(s[1..], c)];
      1 + Find(s[1..], c)
  }

  lemma FindUnique(s: Bytes, c: Byte, n: nat)
    requires n <= |s| && c !in s[..n] && (n < |s| ==> s[n] == c)
    ensures Find(s, c) == n
  {
    var m := Find(s, c);
    assert !(m < n) && !(n < m);
  }

  /** The string that a buffer holds. */
  function CString(s: Bytes): Bytes {
    s[..Find(s, 0)]
  }

  predicate Terminated(s: Bytes) {
    Find(s, 0) < |s|
  }

  /** A string cut short by a terminator. */
  lemma Cut(s: Bytes, k: nat)
    requires Terminated(s) && k <= Find(s, 0)
    ensures Terminated(s[k := 0]) && CString(s[k := 0]) == CString(s)[..k]
  {
    var s' := s[k := 0];
    assert s'[..k] == s[..k] == CString(s)[..k];
    FindUnique(s', 0, k);
  }

  // ---- trim --------------------------------------------------------------------------------------

  function DropLast(s: Bytes): Bytes
    requires s != []
  {
    s[..|s| - 1]
  }

  /** `s` without a final line feed. */
  function WithoutLf(s: Bytes): Bytes {
    if s != [] && s[|s| - 1] == LF then DropLast(s) else s
  }

  function WithoutCr(s: Bytes): Bytes {
    if s != [] && s[|s| - 1] == CR then DropLast(s) else s
  }

  /** Whether a line is complete and keeps no carriage return once its ending is gone. */
  predicate TrimAccepts(s: Bytes) {
    s != [] && s[|s| - 1] == LF && CR !in WithoutCr(WithoutLf(s))
  }

  /** `str[len] = 0` within the string. */
  method CutAt(str: array<Byte>, len: nat)
    requires Terminated(str[..]) && len <= |CString(str[..])|
    modifies str
    ensures Terminated(str[..]) && CString(str[..]) == old(CString(str[..])[..len])
  {
    Cut(str[..], len);
    str[len] := 0;
  }

  /** `trim`: cuts the line ending off in place. */
  method Trim(str: array<Byte>) returns (ok: bool)
    requires Terminated(str[..])
    modifies str
    ensures Terminated(str[..]) && CString(str[..]) == WithoutCr(WithoutLf(CString(old(str[..]))))
    ensures ok <==> TrimAccepts(CString(old(str[..])))
  {
    var len: nat := Find(str[..], 0);
    var t := false;
    if len == 0 { return false; }
    if str[len - 1] == LF {
      len := len - 1;
      CutAt(str, len);
      t := true;
    }
    if len > 0 && str[len - 1] == CR {
      len := len - 1;
      CutAt(str, len);
    }
    if CR in CString(str[..]) { return false; }
    return t;
  }

  // ---- fgets -------------------------------------------------------------------------------------

  /** How many bytes one `fgets` into a buffer of `size` bytes takes. */
  function LineSize(rest: Bytes, size: nat): (n: nat)
    requires size > 1
    ensures n <= |rest| && n < size
  {
    var upToLf := Find(rest, LF) + 1;
    if upToLf <= |rest| && upToLf <= size - 1 then upToLf
    else if |rest| <= size - 1 then |rest|
    else size - 1
  }

  /** A file that is open for reading. */
  class Stream {
    var rest: Bytes

    constructor (contents: Bytes)
      ensures rest == contents
    {
      rest := contents;
    }

    /** `fgets`: false at the end of the file. */
    method Gets(buf: array<Byte>, size: nat) returns (ok: bool)
      requires 1 < size <= buf.Length
      modifies this, buf
      ensures ok <==> old(rest) != []
      ensures !ok ==> rest == old(rest)
      ensures ok ==>
                var n := LineSize(old(rest), size);
                rest == old(rest)[n..] &&
                Terminated(buf[..]) && CString(buf[..]) == CString(old(rest)[..n])
    {
      if rest == [] { return false; }
      var n := LineSize(rest, size);
      ghost var line := rest[..n];
      var i := 0;
      while i < n
        invariant i <= n && buf[..i] == line[..i] && rest == old(rest)
      {
        buf[i] := rest[i];
        i := i + 1;
      }
      buf[n] := 0;
      rest := rest[n..];
      assert buf[..n] == line && buf[n] == 0;
      GetsString(buf[..], line);
      return true;
    }
  }

  lemma GetsString(buf: Bytes, line: Bytes)
    requires |line| < |buf| && buf[..|line|] == line && buf[|line|] == 0
    ensures Terminated(buf) && CString(buf) == CString(line)
  {
    var k := Find(line, 0);
    assert buf[..k] == line[..k];
    assert k < |line| ==> buf[k] == line[k];
    FindUnique(buf, 0, k);
  }
}
