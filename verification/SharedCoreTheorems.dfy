/** Patching a Dockerfile a second time. */
module SharedCoreTheorems {
  import opened Wrappers
  import R = Requirements
  import T = TextLines
  import opened TextRows
  import opened SharedCoreBlock

  /** What the proofs need of a rendered block. */
  ghost predicate IsBlock(t: Template, block: seq<string>) {
    AreRows(block) && NoneOf(IsUser, block) && Bounded(t, block)
  }

  ghost predicate Bounded(t: Template, block: seq<string>) {
    |block| >= 2 && Opens(t, block[0]) && block[|block| - 1] == t.close && t.close !in block[..|block| - 1]
  }

  /** A row of the block that is no marker. */
  ghost predicate Inner(t: Template, row: string) {
    row != "" && row[0] != 'U' && '\n' !in row && row != t.close
  }

  lemma {:induction false} FlagsStayInRow(names: seq<Context>)
    ensures '\n' !in Flags(names)
    decreases |names|
  {
    if |names| > 1 { FlagsStayInRow(names[1..]); }
    if names != [] { FlagStaysInRow(names[0]); }
  }

  lemma {:induction false} FlagStaysInRow(c: Context)
    ensures '\n' !in Flag(c)
  {
    NamesStayInRow(c);
    var start, mid := "--build-context ", "=../../";
    assert '\n' !in start && '\n' !in mid;
    FourStayInRow(start, Name(c), mid, Source(c));
  }

  lemma {:induction false} NamesStayInRow(c: Context)
    ensures '\n' !in Name(c) && '\n' !in Source(c) && '\n' !in Destination(c)
  {
  }

  lemma {:induction false} FourStayInRow(a: string, b: string, c: string, d: string)
    requires '\n' !in a && '\n' !in b && '\n' !in c && '\n' !in d
    ensures '\n' !in a + b + c + d && '\n' !in b + c + d && '\n' !in c + d
  {
  }

  lemma {:induction false} CopiesAreInner(t: Template, names: seq<Context>, user: string)
    requires Proper(t) && '\n' !in user
    ensures forall row :: row in Copies(names, user) ==> Inner(t, row)
    decreases |names|
  {
    if names != [] {
      CopiesAreInner(t, names[1..], user);
      CopyIsInner(t, names[0], user);
    }
  }

  lemma {:induction false} CopyIsInner(t: Template, c: Context, user: string)
    requires Proper(t) && '\n' !in user
    ensures Inner(t, Copy(c, user))
  {
    var start, end := "COPY --from=" + Name(c) + " --chown=", " . " + Destination(c);
    EndsStayInRow(c);
    CopyIsOneRow(start, user, end);
    assert Copy(c, user) == start + user + ":" + user + end;
    assert start[0] == 'C';
  }

  lemma {:induction false} EndsStayInRow(c: Context)
    ensures '\n' !in "COPY --from=" + Name(c) + " --chown=" && '\n' !in " . " + Destination(c)
  {
    NamesStayInRow(c);
    var start, mid, dot := "COPY --from=", " --chown=", " . ";
    assert '\n' !in start && '\n' !in mid && '\n' !in dot;
    FourStayInRow("", start, Name(c), mid);
    FourStayInRow("", "", dot, Destination(c));
  }

  lemma {:induction false} CopyIsOneRow(start: string, user: string, end: string)
    requires '\n' !in start && '\n' !in user && '\n' !in end
    ensures '\n' !in start + user + ":" + user + end
  {
  }

  lemma {:induction false} NotUser(row: string)
    requires row == "" || row[0] != 'U'
    ensures !IsUser(row)
  {
  }

  lemma {:induction false} UserIsWord(row: string)
    requires IsUser(row)
    ensures '\n' !in UserOf(row).value
  {
  }

  lemma {:induction false} NotesAreInner(t: Template, names: seq<Context>)
    requires Proper(t)
    ensures forall row :: row in [t.open, t.notes[0], t.notes[1], t.notes[2] + Flags(names) + " .", t.notes[3]] ==>
      Inner(t, row)
  {
    FlagsStayInRow(names);
    forall i | 0 <= i < 4 ensures IsComment(t.notes[i]) && t.notes[i] != t.close {
      assert t.notes[i] in t.notes;
    }
    assert (t.notes[2] + Flags(names) + " .")[0] == '#';
    assert t.notes[2] <= t.notes[2] + Flags(names) + " .";
  }

  lemma {:induction false} BlockIsBlock(t: Template, names: seq<Context>, user: string)
    requires Proper(t) && '\n' !in user
    ensures IsBlock(t, Block(t, names, user))
  {
    var path := "ENV PYTHONPATH=/app";
    var notes := [t.open, t.notes[0], t.notes[1], t.notes[2] + Flags(names) + " .", t.notes[3]];
    var body := notes + Copies(names, user) + [path];
    NotesAreInner(t, names);
    CopiesAreInner(t, names, user);
    assert path[0] == 'E' && '\n' !in path;
    forall row | row in body ensures Inner(t, row) {
    }
    BodyThenClose(t, Block(t, names, user), body);
  }

  lemma {:induction false} BodyThenClose(t: Template, block: seq<string>, body: seq<string>)
    requires Proper(t) && body != [] && block == body + [t.close] && body[0] == t.open
    requires forall row :: row in body ==> Inner(t, row)
    ensures IsBlock(t, block)
  {
    forall row | row in block ensures '\n' !in row && !IsUser(row) {
      if row != t.close { assert row in body; }
      NotUser(row);
    }
    assert block[..|block| - 1] == body;
  }

  // ---------------------------------------------------------------- finding the block again

  /** A block after rows that do not open one is the block found. */
  lemma {:induction false} BlockIsFound(t: Template, a: seq<string>, block: seq<string>, b: seq<string>)
    requires Bounded(t, block) && NoneOf(row => Opens(t, row), a) && b != []
    ensures FindBlock(t, a + block + b) == Some((|a|, |a| + |block| - 1))
  {
    var rows, body := a + block + b, block[..|block| - 1];
    assert rows == a + (block + b);
    FirstSkips(row => Opens(t, row), a, block + b);
    assert First(row => Opens(t, row), block + b) == Some(0);
    assert rows[|a|..|rows| - 1] == body + ([t.close] + b[..|b| - 1]);
    FirstSkips(row => row == t.close, body, [t.close] + b[..|b| - 1]);
  }

  lemma {:induction false} TextInPlace(a: seq<string>, block: seq<string>, rest: string)
    requires AreRows(a) && AreRows(block)
    ensures var text := Closed(a) + Closed(block) + rest;
      && Split(text) == a + block + Split(rest)
      && |Closed(a)| == Start(Split(text), |a|)
      && |Closed(a)| + |Closed(block)| == Start(Split(text), |a| + |block|)
      && text[|Closed(a)|..|Closed(a)| + |Closed(block)|] == Closed(block)
      && text[..|Closed(a)|] == Closed(a) && text[|Closed(a)| + |Closed(block)|..] == rest
  {
    var text := Closed(a) + Closed(block) + rest;
    ClosedConcat(a, block);
    SplitAfter(a + block, rest);
    var rows := Split(text);
    assert rows[..|a|] == a && rows[..|a| + |block|] == a + block;
  }

  function Again(t: Template, names: seq<Context>, a: string, block: seq<string>, rest: string,
                 user: Option<string>): Outcome
    requires |t.notes| == 4
  {
    if user.None? then NoUser
    else
      var next := Block(t, names, user.value);
      if Closed(next) == Closed(block) then Current else Written(a + Closed(next) + rest)
  }

  /** Rows `a`, then rows found as the block, then the rest: what replacing does. */
  lemma {:induction false} ReplacedThere(t: Template, a: seq<string>, prior: seq<string>, rest: string,
                                         block: seq<string>)
    requires AreRows(a) && AreRows(prior) && Bounded(t, prior) && NoneOf(row => Opens(t, row), a)
    ensures var text := Closed(a) + Closed(prior) + rest;
      && Split(text) == a + prior + Split(rest)
      && FindBlock(t, Split(text)) == Some((|a|, |a| + |prior| - 1))
      && Replaced(text, block, (|a|, |a| + |prior| - 1))
         == if Closed(prior) == Closed(block) then Current else Written(Closed(a) + Closed(block) + rest)
  {
    TextInPlace(a, prior, rest);
    BlockIsFound(t, a, prior, Split(rest));
  }

  lemma {:induction false} PatchFound(t: Template, names: seq<Context>, a: seq<string>, long: seq<string>,
                                      rest: string, user: string)
    requires Proper(t) && AreRows(a) && AreRows(long) && Bounded(t, long) && NoneOf(row => Opens(t, row), a)
    requires UserIn(a + long + Split(rest)) == Some(user)
    ensures var block := Block(t, names, user);
      Patched(t, names, Closed(a) + Closed(long) + rest)
      == if Closed(long) == Closed(block) then Current else Written(Closed(a) + Closed(block) + rest)
  {
    ReplacedThere(t, a, long, rest, Block(t, names, user));
    FirstIsFirst(IsUser, a + long + Split(rest));
  }

  /** Patching a text whose block stands after rows that open none: the block is found
      whole, and the user is read from the rest of the text. */
  lemma {:induction false} PatchAgain(t: Template, names: seq<Context>, a: seq<string>, block: seq<string>,
                                      rest: string)
    requires Proper(t) && AreRows(a) && IsBlock(t, block) && NoneOf(row => Opens(t, row), a)
    ensures Patched(t, names, Closed(a) + Closed(block) + rest)
         == Again(t, names, Closed(a), block, rest, UserIn(a + Split(rest)))
  {
    RowAcross(IsUser, a, block, Split(rest));
    if UserIn(a + Split(rest)).Some? {
      PatchFound(t, names, a, block, rest, UserIn(a + Split(rest)).value);
    } else {
      ReplacedThere(t, a, block, rest, block);
      FirstIsFirst(IsUser, a + block + Split(rest));
    }
  }

  lemma {:induction false} UserHasNoBreak(rows: seq<string>)
    requires UserIn(rows).Some?
    ensures '\n' !in UserIn(rows).value
  {
    FirstIsFirst(IsUser, rows);
    UserIsWord(rows[First(IsUser, rows).value]);
  }

  /** A file is written unless it holds the text already. */
  function Unless(text: string, after: string): Outcome {
    if text == after then Current else Written(after)
  }

  lemma {:induction false} SegmentIs(text: string, start: nat, end: nat, mid: string)
    requires start <= end <= |text|
    ensures text[start..end] == mid <==> text == text[..start] + mid + text[end..]
  {
    assert text == text[..start] + text[start..end] + text[end..];
    var other := text[..start] + mid + text[end..];
    if text == other { assert other[start..|other| - |text[end..]|] == mid; }
  }

  /** What lies around the block that a text already holds. */
  lemma {:induction false} AroundFound(t: Template, text: string) returns (a: seq<string>, rest: string)
    requires FindBlock(t, Split(text)).Some?
    ensures a == Split(text)[..FindBlock(t, Split(text)).value.0] && AreRows(a) && NoneOf(row => Opens(t, row), a)
    ensures Split(rest) == Split(text)[FindBlock(t, Split(text)).value.1 + 1..]
    ensures Surrounds(text, FindBlock(t, Split(text)).value, a, rest)
  {
    var rows := Split(text);
    var found := FindBlock(t, rows).value;
    FirstIsFirst(row => Opens(t, row), rows);
    SplitGivesRows(text);
    CutAtRow(text, found.0);
    CutAtRow(text, found.1 + 1);
    StartsGrow(rows, found.0, found.1 + 1);
    a, rest := rows[..found.0], text[Start(rows, found.1 + 1)..];
  }

  /** The text before the rows found and the text after them. */
  ghost predicate Surrounds(text: string, found: (nat, nat), a: seq<string>, rest: string) {
    && found.0 <= found.1 < |Split(text)| - 1
    && var start, end := Start(Split(text), found.0), Start(Split(text), found.1 + 1);
    && start <= end <= |text| && Closed(a) == text[..start] && rest == text[end..]
  }

  lemma {:induction false} ReplacedAround(text: string, found: (nat, nat), a: seq<string>, rest: string,
      block: seq<string>)
    requires Surrounds(text, found, a, rest)
    ensures Replaced(text, block, found) == Unless(text, Closed(a) + Closed(block) + rest)
  {
    SegmentIs(text, Start(Split(text), found.0), Start(Split(text), found.1 + 1), Closed(block));
  }

  lemma {:induction false} PatchReplaces(t: Template, names: seq<Context>, text: string)
    requires |t.notes| == 4 && UserIn(Split(text)).Some? && FindBlock(t, Split(text)).Some?
    ensures Patched(t, names, text)
      == Replaced(text, Block(t, names, UserIn(Split(text)).value), FindBlock(t, Split(text)).value)
  {
    FirstIsFirst(IsUser, Split(text));
  }

  lemma {:induction false} RefreshIs(t: Template, names: seq<Context>, text: string)
    returns (before: seq<string>, rest: string)
    requires |t.notes| == 4 && UserIn(Split(text)).Some? && FindBlock(t, Split(text)).Some?
    ensures AreRows(before) && NoneOf(row => Opens(t, row), before)
    ensures var rows := Split(text); var found := FindBlock(t, rows).value;
      && before == rows[..found.0] && Split(rest) == rows[found.1 + 1..]
      && Patched(t, names, text)
         == Unless(text, Closed(before) + Closed(Block(t, names, UserIn(rows).value)) + rest)
  {
    before, rest := AroundFound(t, text);
    PatchReplaces(t, names, text);
    ReplacedAround(text, FindBlock(t, Split(text)).value, before, rest, Block(t, names, UserIn(Split(text)).value));
  }

  /** Refreshing a block keeps the text around it. A second run then leaves the file alone exactly
      when that text names no user, or one that renders the same block. */
  lemma {:induction false} RefreshSettles(t: Template, names: seq<Context>, text: string)
    returns (a: string, rest: string)
    requires Proper(t) && UserIn(Split(text)).Some? && FindBlock(t, Split(text)).Some?
    ensures var rows := Split(text); var found := FindBlock(t, rows).value;
      var block := Block(t, names, UserIn(rows).value);
      && a == Closed(rows[..found.0]) && Split(rest) == rows[found.1 + 1..]
      && Patched(t, names, text) == Unless(text, a + Closed(block) + rest)
      && Patched(t, names, a + Closed(block) + rest)
         == Again(t, names, a, block, rest, UserIn(rows[..found.0] + rows[found.1 + 1..]))
  {
    var rows := Split(text);
    var before;
    before, rest := RefreshIs(t, names, text);
    a := Closed(before);
    UserHasNoBreak(rows);
    BlockIsBlock(t, names, UserIn(rows).value);
    PatchAgain(t, names, before, Block(t, names, UserIn(rows).value), rest);
  }

  /** With the USER line outside the block, the user read is the same without the block. */
  lemma {:induction false} UserOutsideStays(rows: seq<string>, i: nat, j: nat)
    requires i <= j < |rows| && First(IsUser, rows).Some?
    requires First(IsUser, rows).value < i || j < First(IsUser, rows).value
    ensures UserIn(rows[..i] + rows[j + 1..]) == UserIn(rows)
  {
    RowOutside(IsUser, rows, i, j);
  }

  lemma {:induction false} UserIsRead(rows: seq<string>)
    requires First(IsUser, rows).Some?
    ensures UserIn(rows).Some?
  {
    FirstIsFirst(IsUser, rows);
  }

  /** Once refreshed, a file whose USER line stands outside the block is left alone. */
  lemma {:induction false} RefreshIsIdempotent(t: Template, names: seq<Context>, text: string) returns (after: string)
    requires Proper(t) && First(IsUser, Split(text)).Some? && FindBlock(t, Split(text)).Some?
    requires First(IsUser, Split(text)).value < FindBlock(t, Split(text)).value.0
          || FindBlock(t, Split(text)).value.1 < First(IsUser, Split(text)).value
    ensures Patched(t, names, text) == Unless(text, after)
    ensures Patched(t, names, after) == Current
  {
    var rows, found := Split(text), FindBlock(t, Split(text)).value;
    UserIsRead(rows);
    var user := UserIn(rows).value;
    var before, rest := RefreshIs(t, names, text);
    UserOutsideStays(rows, found.0, found.1);
    UserHasNoBreak(rows);
    PatchSettled(t, names, before, user, rest);
    after := Closed(before) + Closed(Block(t, names, user)) + rest;
  }

  lemma {:induction false} PatchSettled(t: Template, names: seq<Context>, a: seq<string>, user: string, rest: string)
    requires Proper(t) && AreRows(a) && NoneOf(row => Opens(t, row), a)
    requires UserIn(a + Split(rest)) == Some(user) && '\n' !in user
    ensures Patched(t, names, Closed(a) + Closed(Block(t, names, user)) + rest) == Current
  {
    var block := Block(t, names, user);
    BlockIsBlock(t, names, user);
    RowAcross(IsUser, a, block, Split(rest));
    PatchFound(t, names, a, block, rest, user);
  }

  // ---------------------------------------------------------------- a block put in

  /** Where a block goes in: above the comment lines that stand right above USER, and no higher. */
  lemma {:induction false} GoesAboveComments(text: string, user: nat)
    requires user <= |text|
    ensures var lines := T.Lines(text[..user]); var k := Kept(lines); var at := InsertAt(text, user);
      && at <= user && text[..at] == T.Join(lines[..k]) && text[at..user] == T.Join(lines[k..])
      && (forall i :: k <= i < |lines| ==> IsCommentLine(lines[i]))
      && (k > 0 ==> !IsCommentLine(lines[k - 1]))
  {
    InsertIsWithin(text, user);
    KeptIs(T.Lines(text[..user]));
  }

  lemma {:induction false} KeptIs(lines: seq<string>)
    ensures forall i :: Kept(lines) <= i < |lines| ==> IsCommentLine(lines[i])
    ensures Kept(lines) > 0 ==> !IsCommentLine(lines[Kept(lines) - 1])
    decreases |lines|
  {
    if lines != [] && IsCommentLine(lines[|lines| - 1]) { KeptIs(lines[..|lines| - 1]); }
  }

  function RowStart(text: string, i: nat): (n: nat)
    requires i < |Split(text)|
    ensures n <= |text| && n == Start(Split(text), i)
  {
    CutAtRow(text, i);
    Start(Split(text), i)
  }

  /** Where a text that names a user takes in a block. */
  function Point(text: string): (at: nat)
    requires First(IsUser, Split(text)).Some?
    ensures at <= RowStart(text, First(IsUser, Split(text)).value)
  {
    var start := RowStart(text, First(IsUser, Split(text)).value);
    InsertIsWithin(text, start);
    InsertAt(text, start)
  }

  /** The insertion point is where a row begins. */
  predicate BetweenRows(text: string)
    requires First(IsUser, Split(text)).Some?
  {
    Point(text) == 0 || text[Point(text) - 1] == '\n'
  }

  lemma {:induction false} AfterBlank(a: seq<string>, rest: string)
    ensures Split("\n" + rest) == [""] + Split(rest)
    ensures UserIn(a + Split("\n" + rest)) == UserIn(a + Split(rest))
  {
    SplitRow("", rest);
    assert "" + "\n" + rest == "\n" + rest;
    NotUser("");
    RowAcross(IsUser, a, [""], Split(rest));
    assert a + [""] + Split(rest) == a + ([""] + Split(rest));
  }

  lemma {:induction false} PutInIsFound(t: Template, names: seq<Context>, a: seq<string>, user: string, rest: string)
    requires Proper(t) && AreRows(a) && NoneOf(row => Opens(t, row), a)
    requires UserIn(a + Split(rest)) == Some(user) && '\n' !in user
    ensures Patched(t, names, Closed(a) + Closed(Block(t, names, user)) + ("\n" + rest)) == Current
  {
    AfterBlank(a, rest);
    PatchSettled(t, names, a, user, "\n" + rest);
  }

  lemma {:induction false} TailIsBounded(t: Template, a: seq<string>, s: nat, rest: seq<string>, block: seq<string>)
    requires rest != [] && FindBlock(t, a + rest).None? && First(row => Opens(t, row), a) == Some(s)
      && Bounded(t, block)
    ensures Bounded(t, a[s..] + block) && NoneOf(row => Opens(t, row), a[..s])
  {
    var rows := a + rest;
    FirstIsFirst(row => Opens(t, row), a);
    FirstStays(row => Opens(t, row), a, rest);
    FirstIsFirst(row => row == t.close, rows[s..|rows| - 1]);
    TailOfConcat(a, rest, s);
    Lengthened(t, a[s..], rest[..|rest| - 1], block);
  }

  lemma {:induction false} TailOfConcat(a: seq<string>, rest: seq<string>, s: nat)
    requires s < |a| && rest != []
    ensures (a + rest)[s..|a + rest| - 1] == a[s..] + rest[..|rest| - 1]
  {
  }

  lemma {:induction false} Lengthened(t: Template, tail: seq<string>, more: seq<string>, block: seq<string>)
    requires tail != [] && Opens(t, tail[0]) && NoneOf(row => row == t.close, tail + more) && Bounded(t, block)
    ensures Bounded(t, tail + block)
  {
    assert forall row :: row in tail ==> row in tail + more;
    assert (tail + block)[..|tail + block| - 1] == tail + block[..|block| - 1];
  }

  lemma {:induction false} UnclosedIsCut(t: Template, names: seq<Context>, a: seq<string>, s: nat, user: string,
                                         rest: string)
    requires Proper(t) && AreRows(a) && First(row => Opens(t, row), a) == Some(s)
    requires UserIn(a + Split(rest)) == Some(user) && '\n' !in user && FindBlock(t, a + Split(rest)).None?
    ensures var block := Block(t, names, user);
      Patched(t, names, Closed(a) + Closed(block) + ("\n" + rest))
        == Written(Closed(a[..s]) + Closed(block) + ("\n" + rest))
  {
    var block := Block(t, names, user);
    AfterBlank(a, rest);
    BlockIsBlock(t, names, user);
    TailIsBounded(t, a, s, Split(rest), block);
    Recut(a, s, block, "\n" + rest);
    RowAcross(IsUser, a, block, Split("\n" + rest));
    PatchFound(t, names, a[..s], a[s..] + block, "\n" + rest, user);
  }

  lemma {:induction false} Recut(a: seq<string>, s: nat, block: seq<string>, rest: string)
    requires s < |a|
    ensures Closed(a) + Closed(block) + rest == Closed(a[..s]) + Closed(a[s..] + block) + rest
    ensures |Closed(a[s..] + block)| > |Closed(block)|
    ensures forall c: seq<string> :: a[..s] + (a[s..] + block) + c == a + block + c
  {
    assert a[..s] + a[s..] == a;
    ClosedConcat(a[..s], a[s..]);
    ClosedConcat(a[s..], block);
  }

  /** A block put in between rows. A second run leaves the file alone exactly when no row above
      opens a block; otherwise it deletes everything from that row down to the new block. */
  lemma {:induction false} InsertionBetweenRows(t: Template, names: seq<Context>, text: string)
    returns (a: seq<string>, rest: string)
    requires Proper(t) && UserIn(Split(text)).Some? && FindBlock(t, Split(text)).None? && BetweenRows(text)
    ensures AreRows(a) && text == Closed(a) + rest && |Closed(a)| == Point(text)
    ensures var block := Closed(Block(t, names, UserIn(Split(text)).value));
      var written := Closed(a) + block + ("\n" + rest);
      && Patched(t, names, text) == Written(written)
      && Patched(t, names, written) ==
         match First(row => Opens(t, row), a) {
           case None => Current
           case Some(s) => Written(Closed(a[..s]) + block + ("\n" + rest))
         }
  {
    var user := UserIn(Split(text)).value;
    a, rest := RowsAbove(text);
    InsertedThere(t, names, text, Closed(a), rest);
    SplitAfter(a, rest);
    UserHasNoBreak(Split(text));
    if First(row => Opens(t, row), a).None? {
      FirstIsFirst(row => Opens(t, row), a);
      PutInIsFound(t, names, a, user, rest);
    } else {
      UnclosedIsCut(t, names, a, First(row => Opens(t, row), a).value, user, rest);
    }
  }

  /** The text above the insertion point is whole rows. */
  lemma {:induction false} RowsAbove(text: string) returns (a: seq<string>, rest: string)
    requires First(IsUser, Split(text)).Some? && BetweenRows(text)
    ensures AreRows(a) && text == Closed(a) + rest && |Closed(a)| == Point(text)
  {
    var at := Point(text);
    assert at > 0 ==> text[..at][at - 1] == text[at - 1];
    a := WholeIsClosed(text[..at]);
    rest := text[at..];
  }

  lemma {:induction false} InsertedThere(t: Template, names: seq<Context>, text: string, above: string, rest: string)
    requires |t.notes| == 4 && UserIn(Split(text)).Some? && FindBlock(t, Split(text)).None?
    requires text == above + rest && |above| == Point(text)
    ensures Patched(t, names, text)
         == Written(above + Closed(Block(t, names, UserIn(Split(text)).value)) + ("\n" + rest))
  {
    var block := Block(t, names, UserIn(Split(text)).value);
    FirstIsFirst(IsUser, Split(text));
    assert text[..|above|] == above && text[|above|..] == rest;
    assert above + Closed(block) + "\n" + rest == above + Closed(block) + ("\n" + rest);
  }
}
