/** The rows of the block and the rows around it that the script looks for, in characters. */
module SharedCoreRows {
  import opened Wrappers
  import R = Requirements
  import opened TextRows
  import opened SharedCoreBlock

  /** The COPY row of one context, spelled out. */
  function CopyRow(c: Context, user: string): string {
    match c
    case SharedCore =>
      "COPY --from=" + "sharedcore" + " --chown=" + user + ":" + user + " . " + "/app/Dimensionals/"
    case Observability =>
      "COPY --from=" + "observability" + " --chown=" + user + ":" + user + " . " + "/app/src/observability/"
  }

  /** Main result on rendering: every context has its COPY row with its own destination, in the order
      given, between the notes and the ENV row, and no other row is there. */
  lemma {:induction false} BlockHasEveryRow(t: Template, names: seq<Context>, user: string)
    requires |t.notes| == 4
    ensures var rows := Block(t, names, user);
      && |rows| == |names| + 7
      && rows[0] == t.open && rows[1] == t.notes[0] && rows[2] == t.notes[1] && rows[4] == t.notes[3]
      && rows[3] == t.notes[2] + Flags(names) + " ."
      && (forall k :: 0 <= k < |names| ==> rows[5 + k] == CopyRow(names[k], user))
      && rows[|names| + 5] == "ENV PYTHONPATH=/app" && rows[|names| + 6] == t.close
  {
    CopiesAre(names, user);
  }

  lemma {:induction false} CopiesAre(names: seq<Context>, user: string)
    ensures |Copies(names, user)| == |names|
    ensures forall k :: 0 <= k < |names| ==> Copies(names, user)[k] == CopyRow(names[k], user)
    decreases |names|
  {
    if names != [] {
      CopiesAre(names[1..], user);
      CopyIs(names[0], user);
      var rest := Copies(names[1..], user);
      assert forall k :: 0 < k < |names| ==> ([Copy(names[0], user)] + rest)[k] == rest[k - 1];
    }
  }

  lemma {:induction false} CopyIs(c: Context, user: string)
    ensures Copy(c, user) == CopyRow(c, user)
  {
  }

  /** The flags of the note: one for each context, in order, with a space between two. */
  lemma {:induction false} FlagsAre(a: seq<Context>, b: seq<Context>)
    ensures Flags([SharedCore]) == "--build-context " + "sharedcore" + "=../../" + "Dimensionals"
    ensures Flags([Observability]) == "--build-context " + "observability" + "=../../" + "src/observability"
    ensures Flags(a + b) == if a == [] then Flags(b) else if b == [] then Flags(a) else Flags(a) + " " + Flags(b)
    decreases |a|
  {
    if a == [] {
      assert a + b == b;
    } else if b == [] {
      assert a + b == a;
    } else {
      assert (a + b)[0] == a[0] && (a + b)[1..] == a[1..] + b;
      if |a| > 1 {
        FlagsAre(a[1..], b);
        Between(Flag(a[0]), Flags(a[1..]), Flags(b));
      } else {
        assert a[1..] + b == b;
      }
    }
  }

  lemma {:induction false} Between(x: string, y: string, z: string)
    ensures x + " " + (y + " " + z) == x + " " + y + " " + z
  {
  }

  /** A USER row: "USER ", a word, and then nothing but white space. The word is the user. */
  lemma {:induction false} UserRowIs(row: string, user: string)
    ensures UserOf(row) == Some(user) <==>
      && user != "" && (forall i :: 0 <= i < |user| ==> !R.IsSpace(user[i]))
      && exists rest :: row == "USER " + user + rest && R.All(R.IsSpace, rest)
  {
    if UserOf(row) == Some(user) {
      var rest := row[5 + |user|..];
      assert row == "USER " + user + rest;
    }
    if user != "" && (forall i :: 0 <= i < |user| ==> !R.IsSpace(user[i])) {
      if rest :| row == "USER " + user + rest && R.All(R.IsSpace, rest) { WordIsUser(row, user, rest); }
    }
  }

  lemma {:induction false} WordIsUser(row: string, user: string, rest: string)
    requires user != "" && (forall i :: 0 <= i < |user| ==> !R.IsSpace(user[i]))
    requires row == "USER " + user + rest && R.All(R.IsSpace, rest)
    ensures UserOf(row) == Some(user)
  {
    assert row[5..] == user + rest && row[5..][|user|..] == rest && row[5 + |user|..] == rest;
    R.SpanIs(NotSpace, user, rest);
    R.SpanIs(R.IsSpace, rest, "");
    assert rest + "" == rest && row[5..5 + |user|] == user;
  }

  /** A comment line: white space, and then "#". */
  lemma {:induction false} CommentLineIs(line: string)
    ensures IsCommentLine(line) <==> exists n :: 0 <= n < |line| && R.All(R.IsSpace, line[..n]) && line[n] == '#'
  {
    if n :| 0 <= n < |line| && R.All(R.IsSpace, line[..n]) && line[n] == '#' {
      R.SpanIs(R.IsSpace, line[..n], line[n..]);
      assert line[..n] + line[n..] == line;
    }
    if IsCommentLine(line) {
      var n := R.Span(R.IsSpace, line);
      assert R.All(R.IsSpace, line[..n]);
    }
  }

  /** The block found: from the first row that begins with the opening marker to the first row from
      there on that is the closing marker, other than the last row of the text. */
  lemma {:induction false} BlockFoundIs(t: Template, rows: seq<string>, i: nat, j: nat)
    requires rows != []
    ensures FindBlock(t, rows) == Some((i, j)) <==>
      && i <= j < |rows| - 1 && t.open <= rows[i] && rows[j] == t.close
      && (forall k :: 0 <= k < i ==> !(t.open <= rows[k])) && forall k :: i <= k < j ==> rows[k] != t.close
  {
    if FindBlock(t, rows) == Some((i, j)) {
      BlockIsThere(t, rows, i, j);
    }
    if i <= j < |rows| - 1 && t.open <= rows[i] && rows[j] == t.close
      && (forall k :: 0 <= k < i ==> !(t.open <= rows[k])) && (forall k :: i <= k < j ==> rows[k] != t.close)
    {
      var tail := rows[i..|rows| - 1];
      FirstAt(row => Opens(t, row), rows, i);
      FirstAt(row => row == t.close, tail, j - i);
    }
  }

  lemma {:induction false} FirstAt(p: string -> bool, rows: seq<string>, i: nat)
    requires i < |rows| && p(rows[i]) && forall k :: 0 <= k < i ==> !p(rows[k])
    ensures First(p, rows) == Some(i)
    decreases i
  {
    if i > 0 { FirstAt(p, rows[1..], i - 1); }
  }

  lemma {:induction false} NoneBefore(p: string -> bool, rows: seq<string>, i: nat)
    requires First(p, rows) == Some(i)
    ensures p(rows[i]) && forall k :: 0 <= k < i ==> !p(rows[k])
  {
    FirstIsFirst(p, rows);
    forall k | 0 <= k < i ensures !p(rows[k]) { assert rows[..i][k] == rows[k]; }
  }

  lemma {:induction false} BlockIsThere(t: Template, rows: seq<string>, i: nat, j: nat)
    requires rows != [] && FindBlock(t, rows) == Some((i, j))
    ensures i <= j < |rows| - 1 && t.open <= rows[i] && rows[j] == t.close
    ensures (forall k :: 0 <= k < i ==> !(t.open <= rows[k])) && (forall k :: i <= k < j ==> rows[k] != t.close)
  {
    var tail := rows[i..|rows| - 1];
    NoneBefore(row => Opens(t, row), rows, i);
    NoneBefore(row => row == t.close, tail, j - i);
    forall k | i <= k < j ensures rows[k] != t.close { assert tail[k - i] == rows[k]; }
  }
}
