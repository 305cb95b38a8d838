/** Reading from a file in pieces of any size: the bounded read of key files. */
module Reading {
  import opened Basics

  /** What one `read` meets: some bytes (as many as it is given, at least one while any are left),
      an interruption, or an error. */
  datatype Event = Chunk(size: nat) | Interrupted | Broken

  datatype Got = Took(count: nat) | Again | Error

  /** A file being read, and what its next reads will meet; after those, every read is filled. */
  class Reader {
    var rest: Bytes
    var events: seq<Event>

    constructor (rest: Bytes, events: seq<Event>)
      ensures this.rest == rest && this.events == events
    {
      this.rest, this.events := rest, events;
    }

    /** Reads into `buf` from `at` on. */
    method Read(buf: array<Byte>, at: nat) returns (got: Got)
      requires at <= buf.Length
      modifies this, buf
      ensures got.Took? ==>
                var n := got.count;
                n <= |old(rest)| && at + n <= buf.Length && rest == old(rest)[n..] &&
                buf[..] == Written(old(buf[..]), at, old(rest)[..n]) &&
                (n == 0 <==> old(rest) == [] || at == buf.Length)
      ensures !got.Took? ==> rest == old(rest) && buf[..] == old(buf[..])
      ensures got.Error? <==> old(events) != [] && old(events)[0].Broken?
      ensures got.Again? <==> old(events) != [] && old(events)[0].Interrupted?
      ensures events == if old(events) == [] then [] else old(events)[1..]
    {
      var event := if events == [] then Chunk(|rest|) else events[0];
      if events != [] { events := events[1..]; }
      match event
      case Interrupted => return Again;
      case Broken => return Error;
      case Chunk(size) =>
        var room := if |rest| < buf.Length - at then |rest| else buf.Length - at;
        var n := if size == 0 && room > 0 then 1 else if size < room then size else room;
        CopyInto(buf, at, rest[..n]);
        rest := rest[n..];
        return Took(n);
    }
  }

  datatype ReadError = TooLarge | ReadFailed

  /** `read_secret_file_bounded` on an open file: `size` is what its metadata said, which the file
      may have outgrown. The buffer holds one byte more than may be read. */
  method ReadBounded(file: Reader, size: nat, max: nat) returns (r: Result<Bytes, ReadError>)
    modifies file
    ensures r.Ok? ==> r.value == old(file.rest) && |r.value| <= max && size <= max
    ensures r == Err(TooLarge) ==> size > max || |old(file.rest)| > max
    ensures Broken !in old(file.events) ==>
              r == if size > max || |old(file.rest)| > max then Err(TooLarge) else Ok(old(file.rest))
  {
    if size > max { return Err(TooLarge); }
    ghost var content := file.rest;
    var buf := new Byte[max + 1](_ => 0);
    var len := 0;
    while len < buf.Length
      invariant 0 <= len <= buf.Length && len <= |content|
      invariant buf[..len] == content[..len] && file.rest == content[len..]
      invariant Broken !in old(file.events) ==> Broken !in file.events
      decreases |content| - len + |file.events|
    {
      ghost var before := buf[..];
      ghost var events := file.events;
      var got := file.Read(buf, len);
      assert Broken !in events ==> Broken !in file.events;
      match got
      case Again =>
      case Error =>
        return Err(ReadFailed);
      case Took(n) =>
        if n == 0 { break; }
        Extended(before, content, len, n);
        len := len + n;
    }
    if len > max { return Err(TooLarge); }
    assert file.rest == [] && content[..len] == content;
    return Ok(buf[..len]);
  }

  lemma Extended(buf: Bytes, content: Bytes, len: nat, n: nat)
    requires len + n <= |buf| && len + n <= |content| && buf[..len] == content[..len]
    ensures Written(buf, len, content[len..][..n])[..len + n] == content[..len + n]
    ensures content[len..][n..] == content[len + n..]
  {
  }
}
