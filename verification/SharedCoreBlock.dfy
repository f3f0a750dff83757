/** The block of COPY lines that scripts/apply_shared_core_contexts.py keeps in each
    Dockerfile: `render_dockerfile_block` and `patch_dockerfile`. */
module SharedCoreBlock {
  import opened Wrappers
  import R = Requirements
  import T = TextLines
  import opened TextRows

  datatype Context = SharedCore | Observability

  function Name(c: Context): string {
    match c
    case SharedCore => "sharedcore"
    case Observability => "observability"
  }

  /** Repository path of the tree, after its leading "./". */
  function Source(c: Context): string {
    match c
    case SharedCore => "Dimensionals"
    case Observability => "src/observability"
  }

  function Destination(c: Context): string {
    match c
    case SharedCore => "/app/Dimensionals/"
    case Observability => "/app/src/observability/"
  }

  /** The fixed text of a block: its markers and its four comment lines. */
  datatype Template = Template(open: string, notes: seq<string>, close: string)

  ghost predicate IsComment(row: string) {
    row != "" && row[0] == '#' && '\n' !in row
  }

  ghost predicate Proper(t: Template) {
    && IsComment(t.open) && IsComment(t.close) && !(t.open <= t.close) && |t.notes| == 4
    && !(t.notes[2] <= t.close) && forall note :: note in t.notes ==> IsComment(note) && note != t.close
  }

  // The text of the blocks, spelled in pieces short enough to be looked through.
  const OPEN := ["# --- Shared Functional Service", "s Core (SFSC) \U{2014} named build co", "ntexts ---"]
  const NOTE0 := ["# Not copied into this director", "y \U{2014} there is one copy of the c", "ore, at the"]
  const NOTE1 := ["# repo root. Supplied by docker", "-compose.production.yml, or for", " a direct"]
  const NOTE3 := ["# See scripts/apply_shared_core", "_contexts.py for why this is no", "t a base image."]
  const CLOSE := "# --- end SFSC ---"
  const BUILD := "#   docker build "

  function Spelled(pieces: seq<string>): string
    requires |pieces| == 3
  {
    pieces[0] + pieces[1] + pieces[2]
  }

  const TEMPLATE := Template(Spelled(OPEN), [Spelled(NOTE0), Spelled(NOTE1), BUILD, Spelled(NOTE3)], CLOSE)

  lemma {:induction false} SpelledIsComment(pieces: seq<string>)
    requires |pieces| == 3 && IsComment(pieces[0]) && '\n' !in pieces[1] && '\n' !in pieces[2]
    ensures IsComment(Spelled(pieces))
  {
  }

  lemma {:induction false} OpenIsComment()
    ensures IsComment(Spelled(OPEN)) && |Spelled(OPEN)| > |CLOSE|
  {
    assert '\n' !in OPEN[1] && '\n' !in OPEN[2];
    SpelledIsComment(OPEN);
  }

  lemma {:induction false} Note0IsComment()
    ensures IsComment(Spelled(NOTE0)) && |Spelled(NOTE0)| > |CLOSE|
  {
    assert '\n' !in NOTE0[1] && '\n' !in NOTE0[2];
    SpelledIsComment(NOTE0);
  }

  lemma {:induction false} Note1IsComment()
    ensures IsComment(Spelled(NOTE1)) && |Spelled(NOTE1)| > |CLOSE|
  {
    assert '\n' !in NOTE1[1] && '\n' !in NOTE1[2];
    SpelledIsComment(NOTE1);
  }

  lemma {:induction false} Note3IsComment()
    ensures IsComment(Spelled(NOTE3)) && |Spelled(NOTE3)| > |CLOSE|
  {
    assert '\n' !in NOTE3[1] && '\n' !in NOTE3[2];
    SpelledIsComment(NOTE3);
  }

  lemma {:induction false} CloseIsOneLine()
    ensures T.BreakFree(CLOSE)
  {
  }

  lemma {:induction false} TemplateIsProper()
    ensures Proper(TEMPLATE) && T.BreakFree(TEMPLATE.close)
  {
    CloseIsOneLine();
    OpenIsComment();
    Note0IsComment();
    Note1IsComment();
    Note3IsComment();
    assert BUILD[2] != CLOSE[2] && BUILD != CLOSE;
  }

  function Flag(c: Context): string {
    "--build-context " + Name(c) + "=../../" + Source(c)
  }

  function Flags(names: seq<Context>): string {
    if names == [] then "" else if |names| == 1 then Flag(names[0]) else Flag(names[0]) + " " + Flags(names[1..])
  }

  function Copy(c: Context, user: string): string {
    "COPY --from=" + Name(c) + " --chown=" + user + ":" + user + " . " + Destination(c)
  }

  function Copies(names: seq<Context>, user: string): seq<string> {
    if names == [] then [] else [Copy(names[0], user)] + Copies(names[1..], user)
  }

  /** The rows of the rendered block, closing marker last. */
  function Block(t: Template, names: seq<Context>, user: string): seq<string>
    requires |t.notes| == 4
  {
    [t.open, t.notes[0], t.notes[1], t.notes[2] + Flags(names) + " .", t.notes[3]]
    + Copies(names, user) + ["ENV PYTHONPATH=/app", t.close]
  }

  predicate NotSpace(c: char) {
    !R.IsSpace(c)
  }

  /** The word after "USER ", when the row is nothing more than that and white space. */
  function UserOf(row: string): Option<string> {
    if "USER " <= row then
      var w := R.Span(NotSpace, row[5..]);
      if w > 0 && R.Span(R.IsSpace, row[5 + w..]) == |row| - 5 - w then Some(row[5..5 + w]) else None
    else None
  }

  predicate IsUser(row: string) {
    UserOf(row).Some?
  }

  /** The user of the first USER line. */
  function UserIn(rows: seq<string>): Option<string> {
    match FirstRow(IsUser, rows)
    case None => None
    case Some(row) => UserOf(row)
  }

  predicate Opens(t: Template, row: string) {
    t.open <= row
  }

  /** First and last row of the block already there. The first opening row is the one the
      expression matches from: a closing row after any later one is after this one too. */
  function FindBlock(t: Template, rows: seq<string>): (r: Option<(nat, nat)>)
    requires rows != []
    ensures r.Some? ==> r.value.0 <= r.value.1 < |rows| - 1
  {
    var i := First(row => Opens(t, row), rows);
    if i.None? then None
    else
      var j := First(row => row == t.close, rows[i.value..|rows| - 1]);
      if j.None? then None else Some((i.value, i.value + j.value))
  }

  predicate IsCommentLine(line: string) {
    var n := R.Span(R.IsSpace, line);
    n < |line| && line[n] == '#'
  }

  /** How many of the lines come before the comment lines they end in. */
  function Kept(lines: seq<string>): (n: nat)
    ensures n <= |lines|
  {
    if lines != [] && IsCommentLine(lines[|lines| - 1]) then Kept(lines[..|lines| - 1]) else |lines|
  }

  function InsertAt(text: string, user: nat): nat
    requires user <= |text|
  {
    var lines := T.Lines(text[..user]);
    |T.Join(lines[..Kept(lines)])|
  }

  datatype Outcome = NoUser | Current | Written(text: string)

  function Replaced(text: string, block: seq<string>, found: (nat, nat)): Outcome
    requires found.0 <= found.1 < |Split(text)| - 1
  {
    var rows := Split(text);
    CutAtRow(text, found.0);
    CutAtRow(text, found.1 + 1);
    StartsGrow(rows, found.0, found.1 + 1);
    var start, end := Start(rows, found.0), Start(rows, found.1 + 1);
    if text[start..end] == Closed(block) then Current else Written(text[..start] + Closed(block) + text[end..])
  }

  function Inserted(text: string, block: seq<string>, user: nat): Outcome
    requires user <= |text|
  {
    InsertIsWithin(text, user);
    var at := InsertAt(text, user);
    Written(text[..at] + Closed(block) + "\n" + text[at..])
  }

  function Patched(t: Template, names: seq<Context>, text: string): Outcome
    requires |t.notes| == 4
  {
    var rows := Split(text);
    var u := First(IsUser, rows);
    if u.None? then NoUser
    else
      FirstIsFirst(IsUser, rows);
      var block := Block(t, names, UserOf(rows[u.value]).value);
      var found := FindBlock(t, rows);
      CutAtRow(text, u.value);
      if found.Some? then Replaced(text, block, found.value) else Inserted(text, block, Start(rows, u.value))
  }

  lemma {:induction false} StartsGrow(rows: seq<string>, i: nat, j: nat)
    requires i <= j <= |rows|
    ensures Start(rows, i) <= Start(rows, j) && (i < j ==> Start(rows, i) < Start(rows, j))
  {
    assert rows[..j] == rows[..i] + rows[i..j];
    ClosedConcat(rows[..i], rows[i..j]);
    if i < j { assert rows[i..j] != []; }
  }

  lemma {:induction false} JoinConcat(a: seq<string>, b: seq<string>)
    ensures T.Join(a + b) == T.Join(a) + T.Join(b)
    decreases |a|
  {
    if a == [] {
      assert a + b == b;
    } else {
      JoinConcat(a[1..], b);
      assert (a + b)[1..] == a[1..] + b;
    }
  }

  lemma {:induction false} InsertIsWithin(text: string, user: nat)
    requires user <= |text|
    ensures InsertAt(text, user) <= user
    ensures var lines := T.Lines(text[..user]); var at := InsertAt(text, user);
      at <= user && text[..at] == T.Join(lines[..Kept(lines)]) && text[at..user] == T.Join(lines[Kept(lines)..])
  {
    var lines := T.Lines(text[..user]);
    var k := Kept(lines);
    T.SplitThenJoin(text[..user]);
    assert lines == lines[..k] + lines[k..];
    JoinConcat(lines[..k], lines[k..]);
    CutJoined(text, user, T.Join(lines[..k]), T.Join(lines[k..]));
  }

  lemma {:induction false} CutJoined(text: string, user: nat, a: string, b: string)
    requires user <= |text| && text[..user] == a + b
    ensures |a| <= user && text[..|a|] == a && text[|a|..user] == b
  {
    assert (a + b)[..|a|] == a && (a + b)[|a|..] == b;
  }

  /** A file: its content goes through text mode when it is read, and is written as it stands. */
  class Dockerfile {
    var content: string

    constructor (content: string)
      ensures this.content == content
    {
      this.content := content;
    }

    method Patch(t: Template, names: seq<Context>) returns (changed: bool)
      requires |t.notes| == 4
      modifies this
      ensures var o := Patched(t, names, T.ReadText(old(content)));
        changed == o.Written? && content == if o.Written? then o.text else old(content)
    {
      var text := T.ReadText(content);
      var rows := Split(text);
      var u := First(IsUser, rows);
      if u.None? { return false; }
      FirstIsFirst(IsUser, rows);
      var block := Block(t, names, UserOf(rows[u.value]).value);
      var found := FindBlock(t, rows);
      CutAtRow(text, u.value);
      if found.Some? {
        var o := Replaced(text, block, found.value);
        if o.Current? { return false; }
        content := o.text;
      } else {
        InsertIsWithin(text, Start(rows, u.value));
        var at := CommentsAbove(text, Start(rows, u.value));
        content := text[..at] + Closed(block) + "\n" + text[at..];
      }
      return true;
    }
  }

  lemma {:induction false} LastLine(lines: seq<string>)
    requires lines != []
    ensures |T.Join(lines)| == |T.Join(lines[..|lines| - 1])| + |lines[|lines| - 1]|
  {
    var rest, last := lines[..|lines| - 1], lines[|lines| - 1];
    JoinConcat(rest, [last]);
    assert lines == rest + [last] && T.Join([last]) == last + T.Join([]);
  }

  /** The loop that moves the insertion point up over the comment lines above USER. */
  method CommentsAbove(text: string, user: nat) returns (at: nat)
    requires user <= |text|
    ensures at == InsertAt(text, user)
  {
    InsertIsWithin(text, user);
    var preceding := T.Lines(text[..user]);
    ghost var lines := preceding;
    T.SplitThenJoin(text[..user]);
    at := user;
    while preceding != [] && IsCommentLine(preceding[|preceding| - 1])
      invariant |preceding| <= |lines| && preceding == lines[..|preceding|]
      invariant Kept(preceding) == Kept(lines)
      invariant at == |T.Join(preceding)|
      decreases |preceding|
    {
      LastLine(preceding);
      at := at - |preceding[|preceding| - 1]|;
      preceding := preceding[..|preceding| - 1];
    }
  }
}
