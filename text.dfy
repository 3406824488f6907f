/** Python string primitives that tvault relies on: `str.strip()`,
    `str.splitlines()`, `'\n'.join(...)` and `str.partition(sep)`.
    The character classes are Python's own, written out by code point. */
module Text {

  /** `c.isspace()` in Python: the characters `str.strip()` removes. */
  predicate IsWhitespace(c: char) {
    var x := c as int;
    (0x09 <= x <= 0x0D) || (0x1C <= x <= 0x20) || x == 0x85 || x == 0xA0 ||
    x == 0x1680 || (0x2000 <= x <= 0x200A) || x == 0x2028 || x == 0x2029 ||
    x == 0x202F || x == 0x205F || x == 0x3000
  }

  /** The line boundaries `str.splitlines()` splits at. */
  predicate IsLineBreak(c: char) {
    var x := c as int;
    (0x0A <= x <= 0x0D) || (0x1C <= x <= 0x1E) || x == 0x85 || x == 0x2028 || x == 0x2029
  }

  predicate NoBreaks(s: string) {
    forall k :: 0 <= k < |s| ==> !IsLineBreak(s[k])
  }

  /** `r` is `s` with the `i` characters before it and the ones after it
      cut off, all of them whitespace. */
  predicate CutAt(s: string, r: string, i: int) {
    && 0 <= i && i + |r| <= |s| && r == s[i..i + |r|]
    && (forall k :: 0 <= k < i ==> IsWhitespace(s[k]))
    && (forall k :: i + |r| <= k < |s| ==> IsWhitespace(s[k]))
  }

  /** Leading whitespace removed (`str.lstrip()`). */
  function TrimLeft(s: string): (r: string)
    ensures CutAt(s, r, |s| - |r|)
    ensures r == [] || !IsWhitespace(r[0])
    decreases |s|
  {
    if s != [] && IsWhitespace(s[0]) then
      var r := TrimLeft(s[1..]);
      CutFront(s, r, |s| - 1 - |r|);
      r
    else
      CutNothing(s);
      s
  }

  lemma CutNothing(s: string)
    ensures CutAt(s, s, 0)
  {
    assert s[0..|s|] == s;
  }

  lemma CutFront(s: string, r: string, i: int)
    requires s != [] && IsWhitespace(s[0]) && CutAt(s[1..], r, i)
    ensures CutAt(s, r, i + 1)
  {
    assert s[1..][i..i + |r|] == s[i + 1..i + 1 + |r|];
    forall k | 0 < k < |s| ensures s[k] == s[1..][k - 1] {}
  }

  /** Trailing whitespace removed (`str.rstrip()`). */
  function TrimRight(s: string): (r: string)
    ensures CutAt(s, r, 0)
    ensures r == [] || !IsWhitespace(r[|r| - 1])
    decreases |s|
  {
    if s != [] && IsWhitespace(s[|s| - 1]) then
      var r := TrimRight(s[..|s| - 1]);
      CutBack(s, r);
      r
    else
      CutNothing(s);
      s
  }

  lemma CutBack(s: string, r: string)
    requires s != [] && IsWhitespace(s[|s| - 1]) && CutAt(s[..|s| - 1], r, 0)
    ensures CutAt(s, r, 0)
  {
    assert s[..|s| - 1][0..|r|] == s[0..|r|];
    forall k | 0 <= k < |s| - 1 ensures s[k] == s[..|s| - 1][k] {}
  }

  /** Cutting twice is one cut. */
  lemma CutCompose(s: string, l: string, r: string, i: int)
    requires CutAt(s, l, i) && CutAt(l, r, 0)
    ensures CutAt(s, r, i)
  {
    assert r == l[..|r|];
    forall j | 0 <= j < |r| ensures r[j] == s[i + j] {
      assert r[j] == l[j] == s[i..i + |l|][j];
    }
    forall k | i + |r| <= k < i + |l| ensures IsWhitespace(s[k]) {
      assert s[k] == s[i..i + |l|][k - i] == l[k - i];
    }
  }

  /** `str.strip()`: the result has no surrounding whitespace and is
      the input with only whitespace cut from either end. */
  function Strip(s: string): (r: string)
    ensures exists i :: CutAt(s, r, i)
    ensures r == [] || (!IsWhitespace(r[0]) && !IsWhitespace(r[|r| - 1]))
    ensures (s == [] || (!IsWhitespace(s[0]) && !IsWhitespace(s[|s| - 1]))) ==> r == s
  {
    var l := TrimLeft(s);
    CutCompose(s, l, TrimRight(l), |s| - |l|);
    TrimRight(l)
  }

  lemma StripIdempotent(s: string)
    ensures Strip(Strip(s)) == Strip(s)
  {
  }

  lemma StripKeepsNoBreaks(s: string)
    requires NoBreaks(s)
    ensures NoBreaks(Strip(s))
  {
    var r := Strip(s);
    var i :| CutAt(s, r, i);
    forall k | 0 <= k < |r| ensures !IsLineBreak(r[k]) {
      assert r[k] == s[i..i + |r|][k] == s[i + k];
    }
  }

  /** Index of the first line boundary in `s`, or `|s|` if there is none. */
  function FirstBreak(s: string): (i: nat)
    ensures i <= |s|
    ensures forall k :: 0 <= k < i ==> !IsLineBreak(s[k])
    ensures i < |s| ==> IsLineBreak(s[i])
  {
    if s == [] || IsLineBreak(s[0]) then 0 else 1 + FirstBreak(s[1..])
  }

  /** `str.splitlines()`: cut at every line boundary, "\r\n" counting as
      one; the boundaries are dropped and a trailing one yields no empty
      last line. */
  function SplitLines(s: string): (lines: seq<string>)
    ensures forall k :: 0 <= k < |lines| ==> NoBreaks(lines[k])
    ensures lines == [] <==> s == []
    decreases |s|
  {
    if s == [] then []
    else
      var i := FirstBreak(s);
      if i == |s| then [s]
      else
        [s[..i]] + SplitLines(s[AfterBreak(s, i)..])
  }

  /** `s` with every line-boundary character left out. */
  function DropBreaks(s: string): string
  {
    if s == [] then [] else (if IsLineBreak(s[0]) then [] else [s[0]]) + DropBreaks(s[1..])
  }

  /** The number of line boundaries in `s`, "\r\n" counted as one. */
  function CountBreaks(s: string): nat
    decreases |s|
  {
    if s == [] then 0
    else if s[0] == '\r' && |s| > 1 && s[1] == '\n' then 1 + CountBreaks(s[2..])
    else if IsLineBreak(s[0]) then 1 + CountBreaks(s[1..])
    else CountBreaks(s[1..])
  }

  /** `''.join(lines)`. */
  function Concat(lines: seq<string>): string
  {
    if lines == [] then [] else lines[0] + Concat(lines[1..])
  }

  /** A prefix free of boundaries is kept whole and adds no boundary. */
  lemma SkipLine(s: string, i: nat)
    requires i <= |s| && forall k :: 0 <= k < i ==> !IsLineBreak(s[k])
    ensures DropBreaks(s) == s[..i] + DropBreaks(s[i..])
    ensures CountBreaks(s) == CountBreaks(s[i..])
  {
    SkipDrop(s, i);
    SkipCount(s, i);
  }

  lemma {:induction false} SkipDrop(s: string, i: nat)
    requires i <= |s| && forall k :: 0 <= k < i ==> !IsLineBreak(s[k])
    ensures DropBreaks(s) == s[..i] + DropBreaks(s[i..])
    decreases i
  {
    if i > 0 {
      assert !IsLineBreak(s[0]);
      assert DropBreaks(s) == [s[0]] + DropBreaks(s[1..]);
      SkipDrop(s[1..], i - 1);
      assert s[1..][i - 1..] == s[i..];
      assert s[..i] == [s[0]] + s[1..][..i - 1];
    }
  }

  lemma {:induction false} SkipCount(s: string, i: nat)
    requires i <= |s| && forall k :: 0 <= k < i ==> !IsLineBreak(s[k])
    ensures CountBreaks(s) == CountBreaks(s[i..])
    decreases i
  {
    if i > 0 {
      assert !IsLineBreak(s[0]) && s[0] != '\r';
      SkipCount(s[1..], i - 1);
      assert s[1..][i - 1..] == s[i..];
    }
  }

  /** `splitlines()` loses only the boundaries: the lines put together are
      the text without its boundary characters, and there is one line per
      boundary ("\r\n" counted once), plus one for a last line that does
      not end in a boundary. */
  lemma {:induction false} SplitLinesContent(s: string)
    ensures Concat(SplitLines(s)) == DropBreaks(s)
    ensures |SplitLines(s)| == CountBreaks(s) + (if s != [] && !IsLineBreak(s[|s| - 1]) then 1 else 0)
    decreases |s|
  {
    if s != [] {
      var i := FirstBreak(s);
      var lines := SplitLines(s);
      if i == |s| {
        SkipLine(s, i);
        assert s[..i] == s && s[i..] == [];
        assert lines == [s];
        assert Concat(lines) == s + Concat([]);
      } else {
        var next := AfterBreak(s, i);
        BreakStep(s, i);
        SplitLinesContent(s[next..]);
        assert lines == [s[..i]] + SplitLines(s[next..]);
        assert lines[0] == s[..i] && lines[1..] == SplitLines(s[next..]);
        LastAfterBreak(s, i);
      }
    }
  }

  /** One line and its boundary, taken off the front. */
  lemma BreakStep(s: string, i: nat)
    requires i < |s| && i == FirstBreak(s)
    ensures DropBreaks(s) == s[..i] + DropBreaks(s[AfterBreak(s, i)..])
    ensures CountBreaks(s) == 1 + CountBreaks(s[AfterBreak(s, i)..])
  {
    SkipLine(s, i);
    var next := AfterBreak(s, i);
    var t := s[i..];
    assert t[0] == s[i] && IsLineBreak(t[0]) && t[1..] == s[i + 1..];
    assert DropBreaks(t) == DropBreaks(t[1..]);
    if next == i + 2 {
      var u := t[1..];
      assert u[0] == '\n' && IsLineBreak(u[0]) && u[1..] == s[next..] && t[2..] == s[next..];
      assert DropBreaks(u) == DropBreaks(u[1..]);
      assert CountBreaks(t) == 1 + CountBreaks(t[2..]);
    } else {
      assert CountBreaks(t) == 1 + CountBreaks(t[1..]);
    }
  }

  /** After the first boundary, the rest of the text ends the way the text
      does, or is empty when the text ends in that boundary. */
  lemma LastAfterBreak(s: string, i: nat)
    requires i < |s| && i == FirstBreak(s)
    ensures var rest := s[AfterBreak(s, i)..];
            (rest != [] && !IsLineBreak(rest[|rest| - 1])) == !IsLineBreak(s[|s| - 1])
  {
    var next := AfterBreak(s, i);
    if next < |s| {
      assert s[next..][|s| - next - 1] == s[|s| - 1];
    } else if next == i + 2 {
      assert s[|s| - 1] == '\n';
    }
  }

  /** Where the line after a boundary at `i` starts: "\r\n" is one
      boundary. */
  function AfterBreak(s: string, i: nat): (next: nat)
    requires i < |s|
    ensures i < next <= |s|
  {
    if s[i] == '\r' && i + 1 < |s| && s[i + 1] == '\n' then i + 2 else i + 1
  }

  /** `'\n'.join(lines)`. */
  function JoinLines(lines: seq<string>): (s: string)
    ensures lines == [] ==> s == []
    ensures |lines| == 1 ==> s == lines[0]
    ensures lines != [] ==> lines[0] <= s
  {
    if |lines| == 0 then []
    else if |lines| == 1 then lines[0]
    else lines[0] + "\n" + JoinLines(lines[1..])
  }

  /** Joining lines that hold no boundary and whose last one is not empty,
      then splitting again, gives the lines back. */
  lemma {:induction false} SplitJoin(lines: seq<string>)
    requires forall k :: 0 <= k < |lines| ==> NoBreaks(lines[k])
    requires lines == [] || lines[|lines| - 1] != []
    ensures SplitLines(JoinLines(lines)) == lines
  {
    if |lines| == 1 {
      assert NoBreaks(lines[0]);
    } else if |lines| > 1 {
      assert NoBreaks(lines[0]);
      SplitAtBreak(lines[0], '\n', JoinLines(lines[1..]));
      SplitJoin(lines[1..]);
    }
  }

  /** A line without boundaries, then one boundary character, splits off
      as one line; a '\r' directly followed by '\n' is left to
      `SplitAtCrLf`. */
  lemma SplitAtBreak(l: string, b: char, rest: string)
    requires NoBreaks(l) && IsLineBreak(b)
    requires !(b == '\r' && rest != [] && rest[0] == '\n')
    ensures SplitLines(l + [b] + rest) == [l] + SplitLines(rest)
  {
    var s := l + [b] + rest;
    assert forall k :: 0 <= k < |l| ==> s[k] == l[k];
    assert s[|l|] == b;
    assert FirstBreak(s) == |l|;
    assert s[..|l|] == l;
    if |l| + 1 < |s| {
      assert s[|l| + 1] == rest[0];
    }
    assert AfterBreak(s, |l|) == |l| + 1;
    assert s[|l| + 1..] == rest;
  }

  /** A line without boundaries, then "\r\n", splits off as one line. */
  lemma SplitAtCrLf(l: string, rest: string)
    requires NoBreaks(l)
    ensures SplitLines(l + "\r\n" + rest) == [l] + SplitLines(rest)
  {
    var s := l + "\r\n" + rest;
    assert forall k :: 0 <= k < |l| ==> s[k] == l[k];
    assert s[|l|] == '\r' && s[|l| + 1] == '\n';
    assert FirstBreak(s) == |l|;
    assert s[..|l|] == l;
    assert AfterBreak(s, |l|) == |l| + 2;
    assert s[|l| + 2..] == rest;
  }

  /** A non-empty text without boundaries is one line. With `SplitAtBreak`,
      `SplitAtCrLf` and the empty text giving no lines, this fixes
      `SplitLines` on every input: cut at the first boundary. */
  lemma SplitWhole(l: string)
    requires l != [] && NoBreaks(l)
    ensures SplitLines(l) == [l]
  {
    assert FirstBreak(l) == |l|;
  }

  /** `'\n'.join` of one more line puts a "\n" before it. */
  lemma {:induction false} JoinAppend(lines: seq<string>, y: string)
    requires lines != []
    ensures JoinLines(lines + [y]) == JoinLines(lines) + "\n" + y
  {
    var all := lines + [y];
    assert all[0] == lines[0] && all[1..] == lines[1..] + [y];
    if |lines| == 1 {
      assert all[1..] == [y];
    } else {
      JoinAppend(lines[1..], y);
    }
  }

  /** Lines without boundaries, joined in front of a last text, split back
      into themselves followed by that text's own lines. */
  lemma {:induction false} SplitJoinFront(lines: seq<string>, y: string)
    requires forall k :: 0 <= k < |lines| ==> NoBreaks(lines[k])
    ensures SplitLines(JoinLines(lines + [y])) == lines + SplitLines(y)
  {
    if lines == [] {
      assert lines + [y] == [y];
    } else {
      var tail := lines[1..];
      JoinFront(lines, y);
      assert NoBreaks(lines[0]);
      SplitAtBreak(lines[0], '\n', JoinLines(tail + [y]));
      SplitJoinFront(tail, y);
      ConsConcat(lines, SplitLines(y));
    }
  }

  lemma JoinFront(lines: seq<string>, y: string)
    requires lines != []
    ensures JoinLines(lines + [y]) == lines[0] + "\n" + JoinLines(lines[1..] + [y])
  {
    var all := lines + [y];
    assert all[0] == lines[0] && all[1..] == lines[1..] + [y];
  }

  lemma ConsConcat(lines: seq<string>, more: seq<string>)
    requires lines != []
    ensures [lines[0]] + (lines[1..] + more) == lines + more
  {
    assert lines == [lines[0]] + lines[1..];
  }

  /** A text with a boundary in it, whatever follows, gives as first line
      what lies before its first boundary. */
  lemma FirstLineOf(s: string, t: string)
    requires FirstBreak(s) < |s|
    ensures SplitLines(s + t) != [] && SplitLines(s + t)[0] == s[..FirstBreak(s)]
  {
    var u, i := s + t, FirstBreak(s);
    assert forall k :: 0 <= k < |s| ==> u[k] == s[k];
    assert FirstBreak(u) == i;
    assert u[..i] == s[..i];
  }

  /** Stripping a text that starts with a non-whitespace character keeps
      its front: the result is a non-empty prefix. */
  lemma StripKeepsFront(s: string)
    requires s != [] && !IsWhitespace(s[0])
    ensures Strip(s) != [] && Strip(s) == s[..|Strip(s)|]
  {
    var r := Strip(s);
    var i :| CutAt(s, r, i);
  }

  /** `s.partition(sep)` for a one-character separator: `found` tells
      whether `sep` occurs; if it does, `head` and `tail` are what lies
      before and after its FIRST occurrence. */
  function Partition(s: string, sep: char): (r: (string, bool, string))
    ensures r.1 <==> sep in s
    ensures r.1 ==> s == r.0 + [sep] + r.2 && sep !in r.0
    ensures !r.1 ==> r.0 == s && r.2 == []
  {
    if s == [] then ([], false, [])
    else if s[0] == sep then ([], true, s[1..])
    else
      var (head, found, tail) := Partition(s[1..], sep);
      assert s == [s[0]] + s[1..];
      ([s[0]] + head, found, tail)
  }

  /** The split at the first occurrence is unique. */
  lemma PartitionAt(s: string, sep: char, head: string, tail: string)
    requires s == head + [sep] + tail && sep !in head
    ensures Partition(s, sep) == (head, true, tail)
  {
    var r := Partition(s, sep);
    assert forall k :: 0 <= k < |head| ==> s[k] == head[k];
    assert forall k :: 0 <= k < |r.0| ==> s[k] == r.0[k];
    assert s[|head|] == sep && s[|r.0|] == sep;
    assert |r.0| == |head|;
    assert r.0 == s[..|head|] == head;
    assert r.2 == s[|head| + 1..] == tail;
  }
}
