/** Putting a block into any text, also one whose lines end in more than "\n": the insertion
    point is found among the lines of `str.splitlines`, and may lie inside a row. */
module SharedCoreInsertion {
  import opened Wrappers
  import R = Requirements
  import T = TextLines
  import opened TextRows
  import opened SharedCoreBlock
  import opened SharedCoreTheorems

  // ---------------------------------------------------------------- the row that is cut

  /** A text with its insertion point inside a row: whole rows, the beginning of a row up to its
      line break, the comment rows that follow, and the text from the USER row on. */
  datatype Parts = Parts(above: seq<string>, cut: string, comments: seq<string>, below: string)

  ghost predicate EndsInBreak(s: string) {
    s != "" && '\n' !in s && T.IsBreak(s[|s| - 1])
  }

  ghost predicate AreComments(rows: seq<string>) {
    forall row :: row in rows ==> IsCommentLine(row) && '\n' !in row
  }

  ghost predicate Cut(p: Parts) {
    && AreRows(p.above) && NoneOf(IsUser, p.above)
    && EndsInBreak(p.cut)
    && p.comments != [] && AreComments(p.comments)
    && IsUser(Split(p.below)[0])
  }

  function Above(p: Parts): string {
    Closed(p.above) + p.cut
  }

  function Rest(p: Parts): string {
    Closed(p.comments) + p.below
  }

  /** What is above the insertion point ends in a line break, though not always in "\n". */
  lemma {:induction false} InsertsAfterBreak(text: string, user: nat)
    requires user <= |text| && (user == 0 || text[user - 1] == '\n')
    ensures var at := InsertAt(text, user); at <= user && (at == 0 || T.IsBreak(text[at - 1]))
  {
    InsertIsWithin(text, user);
    KeptEndInBreak(text[..user]);
    var at := InsertAt(text, user);
    if at > 0 { assert text[..at][at - 1] == text[at - 1]; }
  }

  lemma {:induction false} KeptEndInBreak(s: string)
    requires s == "" || T.IsBreak(s[|s| - 1])
    ensures var a := T.Join(T.Lines(s)[..Kept(T.Lines(s))]); a == "" || T.IsBreak(a[|a| - 1])
  {
    LinesEndInBreaks(s);
    JoinEnds(T.Lines(s)[..Kept(T.Lines(s))]);
  }

  lemma {:induction false} LinesEndInBreaks(s: string)
    requires s == "" || T.IsBreak(s[|s| - 1])
    ensures forall line :: line in T.Lines(s) ==> line != "" && T.IsBreak(line[|line| - 1])
    decreases |s|
  {
    if s != "" {
      LineEndsInBreak(s);
      LinesEndInBreaks(s[T.LineEnd(s)..]);
    }
  }

  lemma {:induction false} LineEndsInBreak(s: string)
    requires s != "" && T.IsBreak(s[|s| - 1])
    ensures T.IsBreak(s[T.LineEnd(s) - 1])
    decreases |s|
  {
    if !T.IsBreak(s[0]) { LineEndsInBreak(s[1..]); }
  }

  lemma {:induction false} JoinEnds(lines: seq<string>)
    requires forall line :: line in lines ==> line != "" && T.IsBreak(line[|line| - 1])
    ensures var s := T.Join(lines); s == "" || T.IsBreak(s[|s| - 1])
    decreases |lines|
  {
    if lines != [] { JoinEnds(lines[1..]); }
  }

  ghost predicate CommentLines(lines: seq<string>) {
    T.WellBroken(lines) && forall line :: line in lines ==> IsCommentLine(line)
  }

  /** Every row is a comment, except perhaps the last. */
  ghost predicate ClosedAreComments(rows: seq<string>) {
    rows != [] && AreComments(rows[..|rows| - 1])
  }

  /** Lines that are comments make rows that are comments: "\n" ends a line wherever it stands. */
  lemma {:induction false} CommentsAreRows(lines: seq<string>)
    requires CommentLines(lines)
    ensures ClosedAreComments(Split(T.Join(lines)))
    decreases |lines|
  {
    if lines != [] {
      CommentsAreRows(lines[1..]);
      assert lines[0] in lines;
      CommentThenRows(lines[0], T.Join(lines[1..]));
    }
  }

  lemma {:induction false} CommentThenRows(line: string, more: string)
    requires IsCommentLine(line) && T.LineEnd(line + more) == |line| && ClosedAreComments(Split(more))
    ensures ClosedAreComments(Split(line + more))
  {
    var rows := Split(more);
    if '\n' in line {
      var x := ClosedLine(line, more);
      SplitRow(x, more);
      StillComment(x, "\n");
      CommentFirst(x, rows);
    } else {
      SplitInRow(line, more);
      StillComment(line, rows[0]);
      if |rows| > 1 {
        assert rows[..|rows| - 1] == [rows[0]] + rows[1..][..|rows| - 2];
        SplitGivesRows(line + more);
        CommentFirst(line + rows[0], rows[1..]);
      }
    }
  }

  lemma {:induction false} CommentFirst(row: string, rows: seq<string>)
    requires IsCommentLine(row) && '\n' !in row && ClosedAreComments(rows)
    ensures ClosedAreComments([row] + rows)
  {
    assert ([row] + rows)[..|rows|] == [row] + rows[..|rows| - 1];
  }

  lemma {:induction false} ClosedLine(line: string, more: string) returns (x: string)
    requires line != "" && T.LineEnd(line + more) == |line| && '\n' in line
    ensures line == x + "\n" && '\n' !in x
  {
    var i :| 0 <= i < |line| && line[i] == '\n';
    T.NewlineEnds(line + more, i);
    x := line[..i];
    forall k | 0 <= k < i ensures x[k] != '\n' {
      if x[k] == '\n' { T.NewlineEnds(line + more, k); }
    }
  }

  /** Where the white space ends is the same with more text behind. */
  lemma {:induction false} StillComment(x: string, y: string)
    ensures IsCommentLine(x) ==> IsCommentLine(x + y)
    ensures y == "\n" && IsCommentLine(x + y) ==> IsCommentLine(x)
    decreases |x|
  {
    if x == "" {
      assert x + y == y;
    } else {
      StillComment(x[1..], y);
      assert (x + y)[1..] == x[1..] + y;
    }
  }

  lemma {:induction false} CommentNamesNoUser(row: string)
    requires IsCommentLine(row)
    ensures !IsUser(row) && row != "ENV PYTHONPATH=/app"
  {
  }

  /** A row with a line break inside and more than white space after it names no user. */
  lemma {:induction false} CutNamesNoUser(cut: string, x: string, i: nat)
    requires EndsInBreak(cut) && i < |x| && !R.IsSpace(x[i])
    ensures !IsUser(cut + x)
  {
    var row, k := cut + x, |cut| - 1;
    assert T.IsBreak(row[k]) && R.IsSpace(row[k]) && !R.IsSpace(row[k + 1 + i]);
    if "USER " <= row {
      assert k >= 5;
      var w := R.Span(NotSpace, row[5..]);
      assert row[5..][k - 5] == row[k];
      assert w <= k - 5;
      assert row[5 + w..][k + 1 + i - 5 - w] == row[k + 1 + i];
    }
  }

  lemma {:induction false} ClosedEnds(rows: seq<string>)
    ensures Closed(rows) == "" || Closed(rows)[|Closed(rows)| - 1] == '\n'
    decreases |rows|
  {
    if rows != [] { ClosedEnds(rows[1..]); }
  }

  /** A text that does not end in "\n": whole rows, then the row that is not closed. */
  lemma {:induction false} OpenRow(s: string) returns (above: seq<string>, cut: string)
    requires s != "" && s[|s| - 1] != '\n'
    ensures AreRows(above) && s == Closed(above) + cut
    ensures cut != "" && '\n' !in cut && cut[|cut| - 1] == s[|s| - 1]
  {
    var last := |Split(s)| - 1;
    LastRow(s);
    above := Split(s)[..last];
    cut := RowsThenRest(s, last);
    assert Split(cut) == [Split(s)[last]];
    LastRow(cut);
    SplitGivesRows(s);
    SameEnd(Closed(above), cut);
  }

  lemma {:induction false} SameEnd(a: string, b: string)
    requires b != ""
    ensures (a + b)[|a + b| - 1] == b[|b| - 1]
  {
  }

  lemma {:induction false} BrokenSuffix(lines: seq<string>, k: nat)
    requires k <= |lines| && T.WellBroken(lines)
    ensures T.WellBroken(lines[k..])
    decreases k
  {
    if k > 0 {
      BrokenSuffix(lines[1..], k - 1);
      assert lines[1..][k - 1..] == lines[k..];
    }
  }

  /** What a block is put above: comment rows, down to the USER row. */
  lemma {:induction false} CommentsBelow(text: string, user: nat) returns (comments: seq<string>)
    requires user <= |text| && InsertAt(text, user) < user && text[user - 1] == '\n'
    ensures AreComments(comments) && comments != [] && text[InsertAt(text, user)..user] == Closed(comments)
  {
    var s, at := text[..user], InsertAt(text, user);
    InsertIsWithin(text, user);
    LastOfPart(text, at, user);
    KeptBack(s);
    comments := CommentsClosed(T.Lines(s)[Kept(T.Lines(s))..]);
  }

  lemma {:induction false} KeptBack(s: string)
    ensures CommentLines(T.Lines(s)[Kept(T.Lines(s))..])
  {
    var lines := T.Lines(s);
    T.SplitThenJoin(s);
    KeptIs(lines);
    BrokenSuffix(lines, Kept(lines));
    CommentsAre(lines, Kept(lines));
  }

  lemma {:induction false} LastOfPart(text: string, i: nat, j: nat)
    requires i < j <= |text|
    ensures text[i..j] != "" && text[i..j][|text[i..j]| - 1] == text[j - 1]
  {
  }

  lemma {:induction false} CommentsAre(lines: seq<string>, k: nat)
    requires k <= |lines| && forall i :: k <= i < |lines| ==> IsCommentLine(lines[i])
    ensures forall line :: line in lines[k..] ==> IsCommentLine(line)
  {
  }

  lemma {:induction false} CommentsClosed(lines: seq<string>) returns (rows: seq<string>)
    requires var s := T.Join(lines); s != "" && s[|s| - 1] == '\n'
    requires CommentLines(lines)
    ensures AreComments(rows) && rows != [] && T.Join(lines) == Closed(rows)
  {
    CommentsAreRows(lines);
    rows := WholeIsClosed(T.Join(lines));
    SplitAfter(rows, "");
    assert Closed(rows) + "" == Closed(rows) && (rows + [""])[..|rows|] == rows;
  }

  lemma {:induction false} AboveUser(text: string, u: nat, above: seq<string>, rest: string)
    requires First(IsUser, Split(text)) == Some(u) && AreRows(above) && text == Closed(above) + rest
    requires |Closed(above)| < Start(Split(text), u)
    ensures NoneOf(IsUser, above)
  {
    var rows := Split(text);
    SplitAfter(above, rest);
    FirstIsFirst(IsUser, rows);
    assert rows[..|above|] == above;
    if u <= |above| {
      StartsGrow(rows, u, |above|);
    } else {
      assert rows[..u][..|above|] == above;
    }
  }

  lemma {:induction false} Dissected(text: string) returns (p: Parts)
    requires First(IsUser, Split(text)).Some? && !BetweenRows(text)
    ensures Cut(p) && text == Above(p) + Rest(p) && |Above(p)| == Point(text)
  {
    var rows, at := Split(text), Point(text);
    var u := First(IsUser, rows).value;
    var start := RowStart(text, u);
    FirstIsFirst(IsUser, rows);
    CutAtRow(text, u);
    ClosedEnds(rows[..u]);
    assert start > 0 ==> text[start - 1] == text[..start][start - 1];
    InsertsAfterBreak(text, start);
    var above, cut := OpenRow(text[..at]);
    var comments := CommentsBelow(text, start);
    p := Parts(above, cut, comments, text[start..]);
    Rejoined(text, at, start);
    Regrouped(text, Closed(above), cut, Rest(p));
    AboveUser(text, u, above, cut + Rest(p));
  }

  lemma {:induction false} Rejoined(text: string, at: nat, start: nat)
    requires at <= start <= |text|
    ensures text == text[..at] + (text[at..start] + text[start..])
  {
  }

  lemma {:induction false} Regrouped(text: string, a: string, b: string, c: string)
    requires text == (a + b) + c
    ensures text == a + (b + c)
  {
  }

  // ---------------------------------------------------------------- finding a block

  lemma {:induction false} FoundIs(t: Template, rows: seq<string>)
    requires rows != [] && FindBlock(t, rows).Some?
    ensures var (i, j) := FindBlock(t, rows).value;
      Opens(t, rows[i]) && rows[j] == t.close && forall k :: i <= k < j ==> rows[k] != t.close
  {
    var (i, j) := FindBlock(t, rows).value;
    var tail := rows[i..|rows| - 1];
    FirstIsFirst(row => Opens(t, row), rows);
    FirstIsFirst(row => row == t.close, tail);
    forall k | i <= k < j ensures rows[k] != t.close {
      assert tail[..j - i][k - i] == rows[k];
    }
  }

  ghost predicate HasNoBlock(t: Template, rows: seq<string>) {
    forall i, j :: 0 <= i <= j < |rows| - 1 && Opens(t, rows[i]) ==> rows[j] != t.close
  }

  lemma {:induction false} NoneFound(t: Template, rows: seq<string>)
    requires rows != [] && FindBlock(t, rows).None?
    ensures HasNoBlock(t, rows)
  {
    var s := First(row => Opens(t, row), rows);
    FirstIsFirst(row => Opens(t, row), rows);
    if s.None? {
      forall k | 0 <= k < |rows| ensures !Opens(t, rows[k]) { assert rows[k] in rows; }
    } else {
      var tail := rows[s.value..|rows| - 1];
      FirstIsFirst(row => row == t.close, tail);
      forall k | 0 <= k < s.value ensures !Opens(t, rows[k]) {
        assert rows[..s.value][k] in rows[..s.value];
      }
      forall k | s.value <= k < |rows| - 1 ensures rows[k] != t.close {
        assert tail[k - s.value] in tail;
      }
    }
  }

  // ---------------------------------------------------------------- a block put into a row

  function RowsBefore(p: Parts): (rows: seq<string>)
    requires p.comments != []
    ensures rows != []
  {
    p.above + ([p.cut + p.comments[0]] + (p.comments[1..] + Split(p.below)))
  }

  /** The block's first row becomes the end of the row that was cut. */
  function RowsAfter(p: Parts, block: seq<string>): (rows: seq<string>)
    requires block != []
    ensures rows != []
  {
    p.above + ([p.cut + block[0]] + (block[1..] + ([""] + (p.comments + Split(p.below)))))
  }

  lemma {:induction false} CutRows(cut: string, block: seq<string>, rest: string)
    requires '\n' !in cut && block != [] && AreRows(block)
    ensures Split(cut + (Closed(block) + rest)) == [cut + block[0]] + (block[1..] + Split(rest))
  {
    SplitAfter(block, rest);
    SplitInRow(cut, Closed(block) + rest);
    assert (block + Split(rest))[0] == block[0] && (block + Split(rest))[1..] == block[1..] + Split(rest);
  }

  lemma {:induction false} BeforeIs(p: Parts)
    requires Cut(p)
    ensures Split(Above(p) + Rest(p)) == RowsBefore(p)
  {
    CutRows(p.cut, p.comments, p.below);
    SplitAfter(p.above, p.cut + Rest(p));
    Regrouped(Above(p) + Rest(p), Closed(p.above), p.cut, Rest(p));
  }

  lemma {:induction false} AfterIs(p: Parts, block: seq<string>)
    requires Cut(p) && block != [] && AreRows(block)
    ensures Split(Above(p) + Closed(block) + ("\n" + Rest(p))) == RowsAfter(p, block)
  {
    var rest := "\n" + Rest(p);
    AfterBlank([], Rest(p));
    SplitAfter(p.comments, p.below);
    CutRows(p.cut, block, rest);
    SplitAfter(p.above, p.cut + (Closed(block) + rest));
    FourParts(Closed(p.above), p.cut, Closed(block), rest);
  }

  lemma {:induction false} FourParts(a: string, b: string, c: string, d: string)
    ensures (a + b) + c + d == a + (b + (c + d))
  {
  }

  lemma {:induction false} UserAfter(a: seq<string>, row: string, b: seq<string>, below: seq<string>)
    requires NoneOf(IsUser, a) && !IsUser(row) && NoneOf(IsUser, b) && below != [] && IsUser(below[0])
    ensures UserIn(a + ([row] + (b + below))) == UserOf(below[0])
  {
    FirstSkips(IsUser, b, below);
    FirstSkips(IsUser, [row], b + below);
    FirstSkips(IsUser, a, [row] + (b + below));
  }

  lemma {:induction false} NoneInBoth(a: seq<string>, b: seq<string>)
    requires NoneOf(IsUser, a) && NoneOf(IsUser, b)
    ensures NoneOf(IsUser, a + b)
  {
  }

  lemma {:induction false} CommentsNameNoUser(rows: seq<string>)
    requires AreComments(rows)
    ensures NoneOf(IsUser, rows)
  {
    forall row | row in rows ensures !IsUser(row) { CommentNamesNoUser(row); }
  }

  lemma {:induction false} UserBefore(p: Parts)
    requires Cut(p)
    ensures UserIn(RowsBefore(p)) == UserOf(Split(p.below)[0])
  {
    var comment := p.comments[0];
    assert comment in p.comments;
    CutNamesNoUser(p.cut, comment, R.Span(R.IsSpace, comment));
    CommentsNameNoUser(p.comments);
    UserAfter(p.above, p.cut + comment, p.comments[1..], Split(p.below));
  }

  lemma {:induction false} UserStays(t: Template, p: Parts, block: seq<string>)
    requires Proper(t) && Cut(p) && IsBlock(t, block) && block[0] == t.open
    ensures UserIn(RowsAfter(p, block)) == UserOf(Split(p.below)[0])
  {
    var b := block[1..] + ([""] + p.comments);
    CutNamesNoUser(p.cut, t.open, 0);
    CommentsNameNoUser(p.comments);
    NotUser("");
    NoneInBoth(block[1..], [""] + p.comments);
    UserAfter(p.above, p.cut + block[0], b, Split(p.below));
    assert b + Split(p.below) == block[1..] + ([""] + (p.comments + Split(p.below)));
  }

  /** The block put in ends at row `e`; seen from the row after the cut one, it closes there. */
  lemma {:induction false} ClosesAt(t: Template, p: Parts, block: seq<string>, j: nat)
    requires Cut(p) && T.BreakFree(t.close) && IsBlock(t, block) && |p.above| <= j < |p.above| + |block|
    ensures RowsAfter(p, block)[j] == t.close <==> j == |p.above| + |block| - 1
  {
    var rows, n := RowsAfter(p, block), |p.above|;
    if j == n {
      assert rows[n] == p.cut + block[0] && T.IsBreak(rows[n][|p.cut| - 1]);
    } else {
      assert rows[j] == block[j - n];
      if j < n + |block| - 1 { assert block[j - n] in block[..|block| - 1]; }
    }
  }

  ghost predicate FindsOther(t: Template, rows: seq<string>, block: seq<string>)
    requires rows != []
  {
    match FindBlock(t, rows)
    case None => true
    case Some((i, j)) => rows[i..j + 1] != block
  }

  /** The block found afterwards, if any, is not the one put in. */
  lemma {:induction false} OtherBlock(t: Template, p: Parts, block: seq<string>)
    requires Cut(p) && T.BreakFree(t.close) && HasNoBlock(t, RowsBefore(p))
    requires IsBlock(t, block) && block[0] == t.open && block[|block| - 2] == "ENV PYTHONPATH=/app"
    requires t.open != ""
    ensures FindsOther(t, RowsAfter(p, block), block)
  {
    if FindBlock(t, RowsAfter(p, block)).Some? {
      var (i, j) := FindBlock(t, RowsAfter(p, block)).value;
      FoundIs(t, RowsAfter(p, block));
      OtherRows(t, p, block, i, j);
    }
  }

  lemma {:induction false} OtherRows(t: Template, p: Parts, block: seq<string>, i: nat, j: nat)
    requires Cut(p) && T.BreakFree(t.close) && HasNoBlock(t, RowsBefore(p))
    requires IsBlock(t, block) && block[0] == t.open && block[|block| - 2] == "ENV PYTHONPATH=/app"
    requires t.open != "" && i <= j < |RowsAfter(p, block)| - 1
    requires Opens(t, RowsAfter(p, block)[i]) && RowsAfter(p, block)[j] == t.close
    requires forall k :: i <= k < j ==> RowsAfter(p, block)[k] != t.close
    ensures RowsAfter(p, block)[i..j + 1] != block
  {
    var rows, n := RowsAfter(p, block), |p.above|;
    var e := n + |block| - 1;
    ClosesAt(t, p, block, e);
    if rows[i..j + 1] == block {
      assert j - i + 1 == |block|;
      if j < n {
        FoundAbove(t, p, block, i, j);
      } else if i <= e {
        assert j <= e;
        ClosesAt(t, p, block, j);
      } else {
        FoundBelow(t, p, block, i, j);
      }
    }
  }

  lemma {:induction false} FoundAbove(t: Template, p: Parts, block: seq<string>, i: nat, j: nat)
    requires Cut(p) && block != [] && HasNoBlock(t, RowsBefore(p)) && i <= j < |p.above|
    ensures !(Opens(t, RowsAfter(p, block)[i]) && RowsAfter(p, block)[j] == t.close)
  {
    assert RowsBefore(p)[i] == RowsAfter(p, block)[i] && RowsBefore(p)[j] == RowsAfter(p, block)[j];
  }

  /** What was below is no block: the rows of a block from ENV on are neither comments nor USER. */
  lemma {:induction false} BelowIsNoBlock(p: Parts, block: seq<string>, rest: seq<string>) returns (k: nat)
    requires Cut(p) && rest == p.comments + Split(p.below) && |block| >= 2 && NoneOf(IsUser, block)
    requires block[|block| - 2] == "ENV PYTHONPATH=/app"
    ensures k < |block| && k < |rest| && rest[k] != block[k]
  {
    if |block| - 2 < |p.comments| {
      k := |block| - 2;
      assert rest[k] in p.comments;
      CommentNamesNoUser(rest[k]);
    } else {
      k := |p.comments|;
      assert rest[k] == Split(p.below)[0] && block[k] in block;
    }
  }

  lemma {:induction false} FoundBelow(t: Template, p: Parts, block: seq<string>, i: nat, j: nat)
    requires Cut(p) && HasNoBlock(t, RowsBefore(p)) && t.open != "" && IsBlock(t, block)
    requires block[|block| - 2] == "ENV PYTHONPATH=/app"
    requires |p.above| + |block| <= i <= j < |RowsAfter(p, block)| - 1
    requires Opens(t, RowsAfter(p, block)[i]) && RowsAfter(p, block)[j] == t.close
    ensures RowsAfter(p, block)[i..j + 1] != block
  {
    var rows, n := RowsAfter(p, block), |p.above|;
    var e, rest := n + |block|, p.comments + Split(p.below);
    assert rows[e] == "";
    assert rows[i] == rest[i - e - 1] && rows[j] == rest[j - e - 1];
    if i == e + 1 {
      var k := BelowIsNoBlock(p, block, rest);
      assert rows[i + k] == rest[k];
      assert j - i + 1 == |block| ==> rows[i..j + 1][k] == rest[k];
    } else {
      BelowStays(p, i - e - 1);
      BelowStays(p, j - e - 1);
    }
  }

  lemma {:induction false} BelowStays(p: Parts, m: nat)
    requires p.comments != [] && 0 < m < |p.comments| + |Split(p.below)|
    ensures RowsBefore(p)[|p.above| + m] == (p.comments + Split(p.below))[m]
  {
  }

  // ---------------------------------------------------------------- the second run

  lemma {:induction false} CutOut(text: string, i: nat, j: nat, block: seq<string>)
    requires i <= j < |Split(text)| && AreRows(block)
    ensures var start, end := Start(Split(text), i), Start(Split(text), j);
      start <= end <= |text| && (text[start..end] == Closed(block) <==> Split(text)[i..j] == block)
  {
    var rows := Split(text);
    CutAtRow(text, i);
    CutAtRow(text, j);
    StartsGrow(rows, i, j);
    SplitGivesRows(text);
    assert rows[..j] == rows[..i] + rows[i..j];
    ClosedConcat(rows[..i], rows[i..j]);
    var start, end := Start(rows, i), Start(rows, j);
    assert text[start..end] == text[..end][start..];
    assert text[start..end] == Closed(rows[i..j]);
    ClosedIsOneToOne(rows[i..j], block);
  }

  lemma {:induction false} ClosedIsOneToOne(a: seq<string>, b: seq<string>)
    requires AreRows(a) && AreRows(b)
    ensures Closed(a) == Closed(b) <==> a == b
  {
    SplitAfter(a, "");
    SplitAfter(b, "");
    if Closed(a) == Closed(b) {
      assert a + [""] == b + [""];
      assert (a + [""])[..|a|] == a && (b + [""])[..|b|] == b;
    }
  }

  lemma {:induction false} BlockEnds(t: Template, names: seq<Context>, user: string)
    requires |t.notes| == 4
    ensures var block := Block(t, names, user);
      |block| >= 2 && block[0] == t.open && block[|block| - 2] == "ENV PYTHONPATH=/app"
  {
  }

  /** A text whose insertion point lay inside a row is written again by the second run. */
  lemma {:induction false} CutIsWrittenAgain(t: Template, names: seq<Context>, p: Parts, user: string)
    requires Proper(t) && T.BreakFree(t.close) && Cut(p) && HasNoBlock(t, RowsBefore(p))
    requires UserOf(Split(p.below)[0]) == Some(user) && '\n' !in user
    ensures Patched(t, names, Above(p) + Closed(Block(t, names, user)) + ("\n" + Rest(p))).Written?
  {
    var block := Block(t, names, user);
    BlockIsBlock(t, names, user);
    BlockEnds(t, names, user);
    AfterIs(p, block);
    UserStays(t, p, block);
    OtherBlock(t, p, block);
    AlwaysWritten(t, names, Above(p) + Closed(block) + ("\n" + Rest(p)), user);
  }

  lemma {:induction false} AlwaysWritten(t: Template, names: seq<Context>, text: string, user: string)
    requires Proper(t) && UserIn(Split(text)) == Some(user) && '\n' !in user
    requires FindsOther(t, Split(text), Block(t, names, user))
    ensures Patched(t, names, text).Written?
  {
    FirstIsFirst(IsUser, Split(text));
    if FindBlock(t, Split(text)).Some? {
      var (i, j) := FindBlock(t, Split(text)).value;
      BlockIsBlock(t, names, user);
      CutOut(text, i, j + 1, Block(t, names, user));
      PatchReplaces(t, names, text);
    }
  }

  /** Putting a block into any text that names a user and holds none. A second run leaves the
      file alone exactly when the insertion point is between two rows and no row above it opens
      a block; in every other case it writes the file again. */
  lemma {:induction false} InsertionSettles(t: Template, names: seq<Context>, text: string) returns (written: string)
    requires Proper(t) && T.BreakFree(t.close) && UserIn(Split(text)).Some? && FindBlock(t, Split(text)).None?
    ensures var block := Closed(Block(t, names, UserIn(Split(text)).value)); var at := Point(text);
      written == text[..at] + block + ("\n" + text[at..])
    ensures Patched(t, names, text) == Written(written)
    ensures var opens := First(row => Opens(t, row), Split(text[..Point(text)])).Some?;
      if BetweenRows(text) && !opens then Patched(t, names, written) == Current
      else Patched(t, names, written).Written?
  {
    var at, user := Point(text), UserIn(Split(text)).value;
    assert text == text[..at] + text[at..];
    InsertedThere(t, names, text, text[..at], text[at..]);
    written := text[..at] + Closed(Block(t, names, user)) + ("\n" + text[at..]);
    if BetweenRows(text) {
      var a, rest := InsertionBetweenRows(t, names, text);
      assert text[..at] == Closed(a) && text[at..] == rest;
      OpensAbove(t, a);
    } else {
      var p := Dissected(text);
      assert text[..at] == Above(p) && text[at..] == Rest(p);
      BeforeIs(p);
      NoneFound(t, Split(text));
      UserBefore(p);
      UserHasNoBreak(Split(text));
      CutIsWrittenAgain(t, names, p, user);
    }
  }

  lemma {:induction false} OpensAbove(t: Template, a: seq<string>)
    requires Proper(t) && AreRows(a)
    ensures First(row => Opens(t, row), Split(Closed(a))).Some? == First(row => Opens(t, row), a).Some?
  {
    SplitAfter(a, "");
    assert Closed(a) + "" == Closed(a);
    if First(row => Opens(t, row), a).Some? {
      FirstStays(row => Opens(t, row), a, [""]);
    } else {
      FirstIsFirst(row => Opens(t, row), a);
      FirstSkips(row => Opens(t, row), a, [""]);
    }
  }

  /** The insertion point can lie inside a row: here the row is a form feed and "#", a line ends
      after the form feed, and the second run writes the file again. */
  lemma {:induction false} CutHappens(names: seq<Context>) returns (text: string, written: string)
    ensures text == "\U{000C}#" + "\n" + "USER a" && T.ReadText(text) == text
    ensures First(IsUser, Split(text)) == Some(1) && !BetweenRows(text)
    ensures FindBlock(TEMPLATE, Split(text)).None? && Patched(TEMPLATE, names, text) == Written(written)
    ensures Patched(TEMPLATE, names, written).Written?
  {
    text := CutIsInside();
    NoneOpens("\U{000C}#", "USER a");
    T.ReadTextKeeps(text);
    TemplateIsProper();
    FirstIsFirst(IsUser, Split(text));
    written := InsertionSettles(TEMPLATE, names, text);
  }

  lemma {:induction false} CutIsInside() returns (text: string)
    ensures text == "\U{000C}#" + "\n" + "USER a" && '\r' !in text
    ensures First(IsUser, Split(text)) == Some(1) && !BetweenRows(text)
  {
    var cut, line := "\U{000C}#", "USER a";
    text := cut + "\n" + line;
    UserLine("a");
    NotUser(cut);
    UserBelow(cut, line);
    LinesOfCut();
    assert text[..3] == "\U{000C}#\n";
    InsertIsWithin(text, 3);
  }

  lemma {:induction false} NoneOpens(cut: string, line: string)
    requires cut != "" && cut[0] != '#' && line != "" && line[0] != '#' && '\n' !in cut && '\n' !in line
    ensures FindBlock(TEMPLATE, Split(cut + "\n" + line)).None?
  {
    SplitRow(cut, line);
    OneRow(line);
    OpenIsComment();
    FirstIsFirst(row => Opens(TEMPLATE, row), [cut, line]);
  }

  lemma {:induction false} UserBelow(cut: string, line: string)
    requires '\n' !in cut && '\n' !in line && !IsUser(cut) && IsUser(line)
    ensures var rows := Split(cut + "\n" + line);
      rows == [cut, line] && First(IsUser, rows) == Some(1) && Start(rows, 1) == |cut| + 1
  {
    SplitRow(cut, line);
    OneRow(line);
    var rows := [cut, line];
    assert rows[..1] == [cut] && rows[1..] == [line];
    assert Closed([cut]) == cut + "\n" + Closed([]);
  }

  lemma {:induction false} OneRow(row: string)
    requires '\n' !in row
    ensures Split(row) == [row]
  {
    SplitInRow(row, "");
    assert row + "" == row;
  }

  lemma {:induction false} UserLine(name: string)
    requires |name| == 1 && !R.IsSpace(name[0])
    ensures UserOf("USER " + name) == Some(name) && '\n' !in name
  {
    var row := "USER " + name;
    assert row[5..] == name && row[5..6] == name && row[6..] == "";
  }

  lemma {:induction false} LinesOfCut()
    ensures var lines := T.Lines("\U{000C}#\n"); Kept(lines) == 1 && T.Join(lines[..1]) == "\U{000C}"
  {
    assert "\U{000C}#\n"[1..] == "#\n";
  }
}
