/** Patching a file: what its line endings become. */
module SharedCoreFiles {
  import opened Wrappers
  import T = TextLines
  import opened TextRows
  import opened SharedCoreBlock
  import opened SharedCoreTheorems
  import opened SharedCoreInsertion
  import R = Requirements

  predicate EndsWith(s: string, end: string) {
    |end| <= |s| && s[|s| - |end|..] == end
  }

  /** What is read is `above`, what is replaced and `below`; the file ends up with the block
      between the two. */
  ghost predicate KeepsAround(t: Template, names: seq<Context>, text: string, after: string, above: string,
                              below: string)
    requires |t.notes| == 4 && UserIn(Split(text)).Some?
  {
    var block := Closed(Block(t, names, UserIn(Split(text)).value));
    && |above| + |below| <= |text| && above <= text && EndsWith(text, below)
    && after == if FindBlock(t, Split(text)).Some? then above + block + below else above + block + ("\n" + below)
  }

  lemma {:induction false} Around(t: Template, names: seq<Context>, text: string) returns (above: string, below: string)
    requires |t.notes| == 4 && UserIn(Split(text)).Some? && Patched(t, names, text).Written?
    ensures KeepsAround(t, names, text, Patched(t, names, text).text, above, below)
  {
    if FindBlock(t, Split(text)).Some? {
      var found, user := FindBlock(t, Split(text)).value, UserIn(Split(text)).value;
      var a, rest := AroundFound(t, text);
      PatchReplaces(t, names, text);
      ReplacedAround(text, found, a, rest, Block(t, names, user));
      above, below := Closed(a), rest;
    } else {
      var at := Point(text);
      above, below := text[..at], text[at..];
      assert text == above + below;
      InsertedThere(t, names, text, above, below);
    }
  }

  /** A file that is written keeps what stands around the block byte for byte exactly when there
      is no carriage return there: reading in text mode has by then replaced "\r\n" and "\r". */
  lemma {:induction false} EndingsSurviveExactlyWithoutReturns(t: Template, names: seq<Context>, content: string)
    returns (above: string, below: string)
    requires |t.notes| == 4 && Patched(t, names, T.ReadText(content)).Written?
    ensures UserIn(Split(T.ReadText(content))).Some?
    ensures KeepsAround(t, names, T.ReadText(content), Patched(t, names, T.ReadText(content)).text, above, below)
    ensures |above| + |below| <= |content|
    ensures above <= content && EndsWith(content, below) <==>
      '\r' !in content[..|above|] && '\r' !in content[|content| - |below|..]
  {
    var text := T.ReadText(content);
    FirstIsFirst(IsUser, Split(text));
    above, below := Around(t, names, text);
    EndsSurvive(content, above, below);
  }

  lemma {:induction false} EndsSurvive(content: string, above: string, below: string)
    requires var text := T.ReadText(content); |above| + |below| <= |text| && above <= text && EndsWith(text, below)
    ensures |above| + |below| <= |content|
    ensures above <= content && EndsWith(content, below) <==>
      '\r' !in content[..|above|] && '\r' !in content[|content| - |below|..]
  {
    var text := T.ReadText(content);
    T.ReadTextShrinks(content);
    T.BeginningIsKept(content, |above|);
    T.EndIsKept(content, |below|);
    assert text[..|above|] == above && text[|text| - |below|..] == below;
  }

  /** A USER line inside the block, with another after it: the refresh takes the block's user, and
      with it the line that named it, so that the next run reads the other one. */
  lemma {:induction false} UserInsideHappens() returns (text: string, written: string)
    ensures text == Closed([TEMPLATE.open, "USER " + "a", TEMPLATE.close]) + ("USER " + "b")
    ensures Patched(TEMPLATE, [SharedCore], text) == Written(written)
    ensures Patched(TEMPLATE, [SharedCore], written).Written?
  {
    TemplateIsProper();
    UserLine("a");
    UserLine("b");
    text, written := UserInside(TEMPLATE, SharedCore, "a", "b");
  }

  lemma {:induction false} UserInside(t: Template, c: Context, x: string, y: string)
    returns (text: string, written: string)
    requires Proper(t) && |x| == |y| == 1 && x != y && '\n' !in x && '\n' !in y
    requires UserOf("USER " + x) == Some(x) && UserOf("USER " + y) == Some(y)
    ensures text == Closed([t.open, "USER " + x, t.close]) + ("USER " + y)
    ensures Patched(t, [c], text) == Written(written)
    ensures Patched(t, [c], written).Written?
  {
    text, written := Closed([t.open, "USER " + x, t.close]) + ("USER " + y), Closed(Block(t, [c], x)) + ("USER " + y);
    InsideIsTaken(t, c, x, "USER " + y);
    OutsideIsTaken(t, c, x, y);
  }

  /** The second run. */
  lemma {:induction false} OutsideIsTaken(t: Template, c: Context, x: string, y: string)
    requires Proper(t) && |x| == |y| == 1 && x != y && '\n' !in x && '\n' !in y
    requires UserOf("USER " + y) == Some(y)
    ensures Patched(t, [c], Closed(Block(t, [c], x)) + ("USER " + y)).Written?
  {
    var rest, block := "USER " + y, Block(t, [c], x);
    BlockIsBlock(t, [c], x);
    UserAlone(rest);
    BlocksDiffer(t, c, x, y);
    PatchAtStart(t, c, block, rest, y);
  }

  lemma {:induction false} PatchAtStart(t: Template, c: Context, block: seq<string>, rest: string, y: string)
    requires Proper(t) && IsBlock(t, block) && UserIn([] + Split(rest)) == Some(y)
    requires Closed(Block(t, [c], y)) != Closed(block)
    ensures Patched(t, [c], Closed(block) + rest).Written?
  {
    PatchAgain(t, [c], [], block, rest);
    assert Closed([]) + Closed(block) + rest == Closed(block) + rest;
  }

  lemma {:induction false} UserAlone(row: string)
    requires '\n' !in row && IsUser(row)
    ensures UserIn([] + Split(row)) == UserOf(row)
  {
    OneRow(row);
    assert [] + Split(row) == [row];
  }

  lemma {:induction false} BlocksDiffer(t: Template, c: Context, x: string, y: string)
    requires Proper(t) && |x| == |y| == 1 && x != y && '\n' !in x && '\n' !in y
    ensures Closed(Block(t, [c], y)) != Closed(Block(t, [c], x))
  {
    BlockIsBlock(t, [c], x);
    BlockIsBlock(t, [c], y);
    OtherUserOtherBlock(t, c, x, y);
    ClosedIsOneToOne(Block(t, [c], y), Block(t, [c], x));
  }

  /** The first run. */
  lemma {:induction false} InsideIsTaken(t: Template, c: Context, x: string, rest: string)
    requires Proper(t) && '\n' !in x && UserOf("USER " + x) == Some(x)
    ensures Patched(t, [c], Closed([t.open, "USER " + x, t.close]) + rest)
         == Written(Closed(Block(t, [c], x)) + rest)
  {
    var prior, block := [t.open, "USER " + x, t.close], Block(t, [c], x);
    BlockIsBlock(t, [c], x);
    InsideIsFound(t, x, rest);
    PatchFound(t, [c], [], prior, rest, x);
    assert prior[1] in prior;
    ClosedIsOneToOne(prior, block);
    assert Closed([]) + Closed(prior) + rest == Closed(prior) + rest;
    assert Closed([]) + Closed(block) + rest == Closed(block) + rest;
  }

  lemma {:induction false} InsideIsFound(t: Template, x: string, rest: string)
    requires Proper(t) && '\n' !in x && UserOf("USER " + x) == Some(x)
    ensures var prior := [t.open, "USER " + x, t.close];
      AreRows(prior) && Bounded(t, prior) && UserIn([] + prior + Split(rest)) == Some(x)
  {
    var start, prior := "USER ", [t.open, "USER " + x, t.close];
    assert '\n' !in start;
    NotUser(t.open);
    assert [] + prior + Split(rest) == [t.open] + (["USER " + x, t.close] + Split(rest));
    FirstSkips(IsUser, [t.open], ["USER " + x, t.close] + Split(rest));
    assert prior[..2] == [t.open, "USER " + x] && ("USER " + x)[0] == 'U';
  }

  lemma {:induction false} OtherUserOtherBlock(t: Template, c: Context, x: string, y: string)
    requires |t.notes| == 4 && |x| == |y| == 1 && x != y
    ensures Block(t, [c], x) != Block(t, [c], y)
  {
    var start := "COPY --from=" + Name(c) + " --chown=";
    assert Copy(c, x)[|start|] == x[0] && Copy(c, y)[|start|] == y[0];
    assert Block(t, [c], x)[5] == Copy(c, x) && Block(t, [c], y)[5] == Copy(c, y);
  }
}
