/** Lines as `str::lines` of Rust splits them. */
module Lines {
  import opened Basics
  import opened CStrings

  /** The lines of a text: a line feed ends a line, one carriage return before it belongs to the
      ending, and what follows the last line feed is a line if it is not empty. */
  function Split(text: Bytes): seq<Bytes> {
    var k := Find(text, LF);
    if text == [] then []
    else if k == |text| then [text]
    else [WithoutCr(text[..k])] + Split(text[k + 1..])
  }

  /** The lines, each ended by a line feed. */
  function Join(lines: seq<Bytes>): Bytes {
    if lines == [] then [] else lines[0] + [LF] + Join(lines[1..])
  }

  /** A line that splitting leaves alone. */
  predicate Plain(line: Bytes) {
    LF !in line && WithoutCr(line) == line
  }

  lemma FindIn(a: Bytes, c: Byte, rest: Bytes)
    requires c !in a
    ensures Find(a + [c] + rest, c) == |a|
  {
    var s := a + [c] + rest;
    assert s[..|a|] == a;
    FindUnique(s, c, |a|);
  }

  lemma JoinFirst(line: Bytes, rest: seq<Bytes>)
    ensures Join([line] + rest) == line + [LF] + Join(rest)
  {
    assert ([line] + rest)[1..] == rest;
  }

  lemma SplitFirst(line: Bytes, rest: Bytes)
    requires LF !in line
    ensures Split(line + [LF] + rest) == [WithoutCr(line)] + Split(rest)
  {
    var text := line + [LF] + rest;
    FindIn(line, LF, rest);
    assert text[..|line|] == line && text[|line| + 1..] == rest;
  }

  lemma {:induction false} SplitJoin(lines: seq<Bytes>)
    requires forall k :: 0 <= k < |lines| ==> Plain(lines[k])
    ensures Split(Join(lines)) == lines
  {
    if lines != [] {
      SplitFirst(lines[0], Join(lines[1..]));
      SplitJoin(lines[1..]);
      assert lines == [lines[0]] + lines[1..];
    }
  }

  // ---- normal form -----------------------------------------------------------------------------

  /** Every CR LF made LF, and a final line feed added where the last line has none. */
  function Normalise(text: Bytes): Bytes {
    if text == [] then []
    else if text[0] == CR && |text| > 1 && text[1] == LF then [LF] + Normalise(text[2..])
    else if |text| == 1 && text[0] != LF then [text[0], LF]
    else [text[0]] + Normalise(text[1..])
  }

  lemma {:induction false} NormaliseLine(line: Bytes, rest: Bytes)
    requires LF !in line
    ensures Normalise(line + [LF] + rest) == WithoutCr(line) + [LF] + Normalise(rest)
  {
    var text := line + [LF] + rest;
    if line == [] {
      assert text[1..] == rest;
    } else if line == [CR] {
      assert text[2..] == rest;
    } else {
      NormaliseLine(line[1..], rest);
      assert text[1..] == line[1..] + [LF] + rest;
      assert |line| > 1 ==> text[1] == line[1];
      assert [line[0]] + WithoutCr(line[1..]) == WithoutCr(line);
    }
  }

  lemma {:induction false} NormaliseLast(line: Bytes)
    requires LF !in line && line != []
    ensures Normalise(line) == line + [LF]
  {
    if |line| > 1 {
      NormaliseLast(line[1..]);
      assert line == [line[0]] + line[1..];
    }
  }

  /** Splitting into lines and joining them again normalises the line endings and nothing else. */
  lemma {:induction false} JoinSplit(text: Bytes)
    ensures Join(Split(text)) == Normalise(text)
  {
    if text != [] {
      var k := Find(text, LF);
      if k == |text| {
        assert text[..k] == text;
        NormaliseLast(text);
      } else {
        var line, rest := text[..k], text[k + 1..];
        assert text == line + [LF] + rest;
        NormaliseLine(line, rest);
        SplitFirst(line, rest);
        JoinSplit(rest);
        assert Split(text)[1..] == Split(rest);
      }
    }
  }
}
