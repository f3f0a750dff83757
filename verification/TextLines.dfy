/** Text as Python reads it from a file, and cut into lines as `str.splitlines(keepends=True)`
    cuts it. */
module TextLines {
  predicate IsBreak(c: char) {
    '\n' <= c <= '\r' || '\U{001C}' <= c <= '\U{001E}' || c in {'\U{0085}', '\U{2028}', '\U{2029}'}
  }

  /** Length of the first line, its break included. */
  function LineEnd(s: string): (n: nat)
    requires s != ""
    ensures 1 <= n <= |s|
  {
    if IsBreak(s[0]) then (if s[0] == '\r' && 1 < |s| && s[1] == '\n' then 2 else 1)
    else if |s| == 1 then 1
    else 1 + LineEnd(s[1..])
  }

  function Lines(s: string): seq<string>
    decreases |s|
  {
    if s == "" then [] else [s[..LineEnd(s)]] + Lines(s[LineEnd(s)..])
  }

  function Join(lines: seq<string>): string {
    if lines == [] then "" else lines[0] + Join(lines[1..])
  }

  /** Each line is nonempty and is exactly what splitting cuts off there. */
  ghost predicate WellBroken(lines: seq<string>) {
    lines == [] ||
    (lines[0] != "" && LineEnd(lines[0] + Join(lines[1..])) == |lines[0]| && WellBroken(lines[1..]))
  }

  ghost predicate BreakFree(s: string) {
    forall i :: 0 <= i < |s| ==> !IsBreak(s[i])
  }

  /** Both empty, or beginning with one character. */
  ghost predicate SameStart(s: string, t: string) {
    if s == "" then t == "" else t != "" && t[0] == s[0]
  }

  lemma {:induction false} SplitThenJoin(s: string)
    ensures Join(Lines(s)) == s && WellBroken(Lines(s))
    decreases |s|
  {
    if s != "" {
      var n := LineEnd(s);
      SplitThenJoin(s[n..]);
      assert s[..n] + s[n..] == s;
      assert Lines(s)[1..] == Lines(s[n..]);
    }
  }

  lemma {:induction false} JoinThenSplit(lines: seq<string>)
    requires WellBroken(lines)
    ensures Lines(Join(lines)) == lines
    decreases |lines|
  {
    if lines != [] {
      JoinThenSplit(lines[1..]);
      var s := Join(lines);
      assert s[..|lines[0]|] == lines[0] && s[|lines[0]|..] == Join(lines[1..]);
    }
  }

  lemma {:induction false} LineEndAfter(x: string, t: string)
    requires BreakFree(x) && x + t != ""
    ensures LineEnd(x + t) == |x| + (if t == "" then 0 else LineEnd(t))
    decreases |x|
  {
    if x == "" {
      assert x + t == t;
    } else {
      assert (x + t)[0] == x[0] && (x + t)[1..] == x[1..] + t;
      if x[1..] + t != "" { LineEndAfter(x[1..], t); }
    }
  }

  /** A break inside a line is the first half of its closing "\r\n". */
  lemma {:induction false} BreaksAreLast(s: string, i: nat)
    requires s != "" && i + 1 < LineEnd(s) && IsBreak(s[i])
    ensures s[i + 1] == '\n'
    decreases |s|
  {
    if !IsBreak(s[0]) && |s| != 1 {
      assert i > 0;
      BreaksAreLast(s[1..], i - 1);
    }
  }

  lemma {:induction false} LookAhead(l: string, t: string, u: string)
    requires l != "" && LineEnd(l + t) == |l| && SameStart(t, u)
    ensures LineEnd(l + u) == |l|
    decreases |l|
  {
    assert (l + t)[0] == l[0] == (l + u)[0];
    if IsBreak(l[0]) {
      if |l| == 1 {
        assert t != "" ==> (l + t)[1] == t[0];
        assert u != "" ==> (l + u)[1] == u[0];
      } else {
        assert (l + t)[1] == l[1] == (l + u)[1];
      }
    } else if |l| > 1 {
      assert (l + t)[1..] == l[1..] + t && (l + u)[1..] == l[1..] + u;
      LookAhead(l[1..], t, u);
    } else {
      assert (l + t)[1..] == t;
      assert (l + u)[1..] == u;
    }
  }

  lemma {:induction false} HeadIsBreakFree(h: string, v: string, r: string)
    requires v != "" && BreakFree(v) && LineEnd(h + (v + r)) >= |h + v|
    ensures BreakFree(h + v)
  {
    var s := h + (v + r);
    forall i | 0 <= i < |h + v| ensures !IsBreak((h + v)[i]) {
      assert s[i] == (h + v)[i];
      if i < |h| {
        if IsBreak(s[i]) {
          BreaksAreLast(s, i);
          if i + 1 < |h| { NewlineEnds(s, i + 1); }
        }
      } else {
        assert (h + v)[i] == v[i - |h|];
      }
    }
  }

  lemma {:induction false} NewlineEnds(s: string, i: nat)
    requires s != "" && i < LineEnd(s) && s[i] == '\n'
    ensures LineEnd(s) == i + 1
    decreases |s|
  {
    if !IsBreak(s[0]) && |s| != 1 { NewlineEnds(s[1..], i - 1); }
  }

  lemma {:induction false} Regroup(h: string, v: string, t: string, r: string)
    ensures h + (v + t) + r == (h + v) + (t + r) == h + (v + (t + r))
  {
  }

  /** Putting one break-free word for another inside a line moves no line boundary. */
  lemma {:induction false} LineStaysWhole(h: string, v: string, w: string, t: string, r: string, q: string)
    requires v != "" && w != "" && BreakFree(v) && BreakFree(w) && SameStart(r, q)
    requires LineEnd(h + (v + t) + r) == |h + (v + t)|
    ensures LineEnd(h + (w + t) + q) == |h + (w + t)|
  {
    Regroup(h, v, t, r);
    Regroup(h, w, t, q);
    HeadIsBreakFree(h, v, t + r);
    LineEndAfter(h + v, t + r);
    assert BreakFree(h + w) by {
      forall i | 0 <= i < |h + w| ensures !IsBreak((h + w)[i]) {
        if i < |h| { assert (h + w)[i] == (h + v)[i]; }
      }
    }
    LineEndAfter(h + w, t + q);
    if t != "" {
      LookAhead(t, r, q);
    } else {
      assert t + r == r && t + q == q;
    }
  }

  // ---------------------------------------------------------------- reading a file

  /** Reading in text mode: "\r\n" and "\r" both arrive as "\n". */
  function ReadText(content: string): (r: string)
    ensures '\r' !in r
    decreases |content|
  {
    if content == "" then ""
    else if content[0] != '\r' then [content[0]] + ReadText(content[1..])
    else if 1 < |content| && content[1] == '\n' then "\n" + ReadText(content[2..])
    else "\n" + ReadText(content[1..])
  }

  lemma {:induction false} ReadTextKeeps(content: string)
    requires '\r' !in content
    ensures ReadText(content) == content
    decreases |content|
  {
    if content != "" { ReadTextKeeps(content[1..]); }
  }

  lemma {:induction false} ReadTextShrinks(content: string)
    ensures |ReadText(content)| <= |content|
    decreases |content|
  {
    if content != "" {
      ReadTextShrinks(content[1..]);
      if |content| > 1 { ReadTextShrinks(content[2..]); }
    }
  }

  /** The beginning of a file survives reading exactly when it holds no carriage return. */
  lemma {:induction false} BeginningIsKept(content: string, n: nat)
    requires n <= |ReadText(content)|
    ensures n <= |content|
    ensures ReadText(content)[..n] == content[..n] <==> '\r' !in content[..n]
    decreases n
  {
    ReadTextShrinks(content);
    if n > 0 {
      assert content[..n][0] == content[0] && ReadText(content)[..n][0] == ReadText(content)[0];
      if content[0] != '\r' {
        BeginningIsKept(content[1..], n - 1);
        assert content[..n] == [content[0]] + content[1..][..n - 1];
        assert ReadText(content)[..n] == [content[0]] + ReadText(content[1..])[..n - 1];
      }
    }
  }

  /** So does its end. */
  lemma {:induction false} EndIsKept(content: string, n: nat)
    requires n <= |ReadText(content)|
    ensures n <= |content|
    ensures var read := ReadText(content);
      read[|read| - n..] == content[|content| - n..] <==> '\r' !in content[|content| - n..]
  {
    ReadTextShrinks(content);
    var x, s := content[..|content| - n], content[|content| - n..];
    assert content == x + s;
    if '\r' !in s {
      var head := ReadTextEnds(x, s);
    } else {
      var read := ReadText(content);
      var i :| 0 <= i < |s| && s[i] == '\r';
      assert read[|read| - n..][i] in read;
    }
  }

  /** An end without carriage returns is read as it is. */
  lemma {:induction false} ReadTextEnds(x: string, s: string) returns (head: string)
    requires '\r' !in s
    ensures ReadText(x + s) == head + s
    decreases |x|
  {
    var content := x + s;
    if x == "" {
      assert content == s;
      ReadTextKeeps(s);
      head := "";
    } else if x[0] == '\r' && 1 < |content| && content[1] == '\n' {
      if |x| > 1 {
        assert content[2..] == x[2..] + s;
        head := ReadTextEnds(x[2..], s);
        head := "\n" + head;
      } else {
        assert content[2..] == s[1..];
        ReadTextKeeps(s[1..]);
        head := "";
      }
    } else {
      assert content[1..] == x[1..] + s;
      head := ReadTextEnds(x[1..], s);
      head := (if x[0] == '\r' then "\n" else [x[0]]) + head;
    }
  }

  /** What reading does, from left to right: other characters are kept, and "\r\n" and a lone "\r"
      each become one "\n". */
  lemma {:induction false} ReadTextIs(a: string, b: string)
    requires '\r' !in a
    ensures ReadText(a + b) == a + ReadText(b)
    ensures ReadText("\r\n" + b) == "\n" + ReadText(b)
    ensures b == "" || b[0] != '\n' ==> ReadText("\r" + b) == "\n" + ReadText(b)
    decreases |a|
  {
    assert ("\r\n" + b)[2..] == b && ("\r" + b)[1..] == b;
    if a == "" {
      assert a + b == b;
    } else {
      assert (a + b)[1..] == a[1..] + b;
      ReadTextIs(a[1..], b);
    }
  }

  // ---------------------------------------------------------------- what a line is

  lemma {:induction false} BreaksAre(c: char)
    ensures IsBreak(c) <==> c in {
      '\U{000A}', '\U{000B}', '\U{000C}', '\U{000D}', '\U{001C}', '\U{001D}', '\U{001E}', '\U{0085}', '\U{2028}',
      '\U{2029}'}
  {
  }

  /** `n` characters that are no breaks, and then one break, of which "\r\n" is one; at the end of
      the text there may be none. */
  ghost predicate IsWholeAt(line: string, n: nat, last: bool) {
    && n <= |line| && BreakFree(line[..n])
    && ((n + 1 == |line| && IsBreak(line[n])) || line[n..] == "\r\n" || (last && n == |line| && n > 0))
  }

  ghost predicate IsWhole(line: string, last: bool) {
    exists n: nat :: IsWholeAt(line, n, last)
  }

  /** Each line is whole, and no "\r\n" is cut in two. */
  ghost predicate AreWhole(lines: seq<string>) {
    lines != [] ==>
    && IsWhole(lines[0], |lines| == 1)
    && (|lines| > 1 && lines[0] != "" && lines[0][|lines[0]| - 1] == '\r' ==> !("\n" <= lines[1]))
    && AreWhole(lines[1..])
  }

  lemma {:induction false} LineEndIs(s: string)
    requires s != ""
    ensures IsWhole(s[..LineEnd(s)], LineEnd(s) == |s|)
    ensures LineEnd(s) < |s| && s[LineEnd(s)] == '\n' ==> s[LineEnd(s) - 1] != '\r'
    decreases |s|
  {
    var n := LineEnd(s);
    if IsBreak(s[0]) {
      BreakIsWhole(s);
    } else if |s| == 1 {
      assert s[..n] == s && IsWholeAt(s, 1, true);
    } else {
      LineEndIs(s[1..]);
      OneMoreCharacter(s[0], s[1..][..n - 1], n == |s|);
      assert s[..n] == [s[0]] + s[1..][..n - 1];
    }
  }

  lemma {:induction false} BreakIsWhole(s: string)
    requires s != "" && IsBreak(s[0])
    ensures IsWhole(s[..LineEnd(s)], LineEnd(s) == |s|)
    ensures LineEnd(s) < |s| && s[LineEnd(s)] == '\n' ==> s[LineEnd(s) - 1] != '\r'
  {
    var n := LineEnd(s);
    var line := s[..n];
    assert line[..0] == "" && line[0..] == line;
    if n == 2 { assert line == "\r\n"; }
    assert IsWholeAt(line, 0, n == |s|);
  }

  lemma {:induction false} OneMoreCharacter(c: char, line: string, last: bool)
    requires IsWhole(line, last) && !IsBreak(c)
    ensures IsWhole([c] + line, last)
  {
    var n: nat :| IsWholeAt(line, n, last);
    var more := [c] + line;
    assert more[..n + 1] == [c] + line[..n] && more[n + 1..] == line[n..];
    assert IsWholeAt(more, n + 1, last);
  }

  /** The lines are the text cut after every break and nowhere else. */
  lemma {:induction false} LinesAre(s: string)
    ensures Join(Lines(s)) == s && AreWhole(Lines(s))
    decreases |s|
  {
    SplitThenJoin(s);
    if s != "" {
      var n := LineEnd(s);
      LineEndIs(s);
      LinesAre(s[n..]);
      assert Lines(s)[1..] == Lines(s[n..]);
    }
  }
}
