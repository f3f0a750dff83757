/** What the pin rewriter promises: only the version field of an exact pin of a
    canonical package changes, and a second pass finds nothing. */
module PinTheorems {
  import opened Sequences
  import opened Wrappers
  import R = Requirements
  import T = TextLines
  import opened Pins

  function Target(r: R.Req): string
    requires R.CanonicalKey(r.name).Some?
  {
    R.CANONICAL[R.CanonicalKey(r.name).value]
  }

  /** The line is an exact pin of a canonical package at another version; `r` are its groups. */
  ghost predicate Stale(line: string, r: R.Req) {
    && R.InGrammar(r) && R.Longest(r.pin) && R.Render(r) == Body(line)
    && r.pin.op == "==" && R.CanonicalKey(r.name).Some? && r.pin.version != Target(r)
  }

  /** Everything before the version, and everything after it. */
  function Front(r: R.Req): string {
    R.RenderHead(r, r.pin.op + r.pin.vspace)
  }

  function Back(r: R.Req, line: string): string {
    r.pin.rest + Ending(line)
  }

  function Realigned(line: string): string {
    Result(AlignLine(line), line)
  }

  lemma {:induction false} StaleIsChanged(line: string, r: R.Req)
    requires Stale(line, r)
    ensures R.Parse(Body(line)) == Some(r)
    ensures AlignLine(line).Changed? && Realigned(line) == R.Render(Retargeted(r, Target(r))) + Ending(line)
  {
    R.ParseIsComplete(r);
  }

  lemma {:induction false} ChangedIsStale(line: string)
    requires AlignLine(line).Changed?
    ensures Stale(line, R.Parse(Body(line)).value)
  {
    R.ParseIsMatch(Body(line));
  }

  lemma {:induction false} TargetsAreVersions(key: string)
    requires key in R.CANONICAL
    ensures R.CANONICAL[key] != "" && R.All(R.IsVersion, R.CANONICAL[key])
  {
  }

  lemma {:induction false} Spelled(r: R.Req, ending: string)
    ensures R.Render(r) + ending == Front(r) + (r.pin.version + (r.pin.rest + ending))
  {
    var p := r.pin;
    var x := p.version + p.rest;
    Associates(p.op, p.vspace, x);
    Associates(r.space, p.op + p.vspace, x);
    Associates(r.extras, r.space + (p.op + p.vspace), x);
    Associates(r.name, r.extras + (r.space + (p.op + p.vspace)), x);
    Associates(r.indent, r.name + (r.extras + (r.space + (p.op + p.vspace))), x);
    Associates(Front(r), x, ending);
    Associates(p.version, p.rest, ending);
  }

  lemma {:induction false} Split(line: string)
    ensures Body(line) + Ending(line) == line
  {
  }

  lemma {:induction false} VersionOnly(line: string, r: R.Req)
    requires Stale(line, r)
    ensures line == Front(r) + (r.pin.version + Back(r, line))
    ensures Realigned(line) == Front(r) + (Target(r) + Back(r, line))
  {
    StaleIsChanged(line, r);
    Split(line);
    Spelled(r, Ending(line));
    Spelled(Retargeted(r, Target(r)), Ending(line));
  }

  lemma {:induction false} BodyOf(b: string, e: string)
    requires b == "" || !IsLineEnding(b[|b| - 1])
    requires forall i :: 0 <= i < |e| ==> IsLineEnding(e[i])
    ensures Body(b + e) == b
    decreases |e|
  {
    if e == "" {
      assert b + e == b;
    } else {
      assert (b + e)[..|b + e| - 1] == b + e[..|e| - 1];
      BodyOf(b, e[..|e| - 1]);
    }
  }

  lemma {:induction false} EndingIsBreaks(line: string)
    ensures forall i :: 0 <= i < |Ending(line)| ==> IsLineEnding(Ending(line)[i])
    decreases |line|
  {
    if line != "" && IsLineEnding(line[|line| - 1]) {
      var l := line[..|line| - 1];
      EndingIsBreaks(l);
      assert Ending(line) == Ending(l) + [line[|line| - 1]];
    }
  }

  /** The last character of a rendered pin is that of `rest`, or of the version. */
  lemma {:induction false} LastCharacter(r: R.Req)
    requires r.pin.version != ""
    ensures R.Render(r) != ""
    ensures var s := R.Render(r);
      s[|s| - 1] == if r.pin.rest != "" then r.pin.rest[|r.pin.rest| - 1] else r.pin.version[|r.pin.version| - 1]
  {
    Spelled(r, "");
    Associates(R.Render(r), "", "");
    assert R.Render(r) + "" == R.Render(r) && r.pin.rest + "" == r.pin.rest;
  }

  lemma {:induction false} ReparsesAlike(line: string, r: R.Req)
    requires Stale(line, r)
    ensures R.Parse(Body(Realigned(line))) == Some(Retargeted(r, Target(r)))
    ensures Ending(Realigned(line)) == Ending(line)
  {
    var after := Retargeted(r, Target(r));
    TargetsAreVersions(R.CanonicalKey(r.name).value);
    StaleIsChanged(line, r);
    LastCharacter(r);
    LastCharacter(after);
    assert R.IsVersion(Target(r)[|Target(r)| - 1]);
    EndingIsBreaks(line);
    BodyOf(R.Render(after), Ending(line));
    R.ParseIsComplete(after);
  }

  /** A line is rewritten exactly when it is a stale exact pin of a canonical package;
      then its version alone is replaced, and the result parses to the same groups
      with the canonical version. */
  lemma {:induction false} OnlyTheVersionChanges(line: string)
    ensures AlignLine(line).Changed? <==> exists r :: Stale(line, r)
    ensures forall r :: Stale(line, r) ==>
      && line == Front(r) + (r.pin.version + Back(r, line))
      && Realigned(line) == Front(r) + (Target(r) + Back(r, line))
      && R.Parse(Body(Realigned(line))) == Some(Retargeted(r, Target(r)))
      && Realigned(line) != line
    ensures !AlignLine(line).Changed? ==> Realigned(line) == line
  {
    if AlignLine(line).Changed? { ChangedIsStale(line); }
    forall r | Stale(line, r)
      ensures AlignLine(line).Changed?
      ensures line == Front(r) + (r.pin.version + Back(r, line))
      ensures Realigned(line) == Front(r) + (Target(r) + Back(r, line))
      ensures R.Parse(Body(Realigned(line))) == Some(Retargeted(r, Target(r)))
      ensures Realigned(line) != line
    {
      StaleIsChanged(line, r);
      VersionOnly(line, r);
      ReparsesAlike(line, r);
    }
  }

  lemma {:induction false} OnTarget(line: string, r: R.Req)
    requires R.Parse(Body(line)) == Some(r) && R.CanonicalKey(r.name).Some? && r.pin.op == "=="
      && r.pin.version == Target(r)
    ensures AlignLine(line) == Untouched
  {
  }

  lemma {:induction false} ChangedSettles(line: string, r: R.Req)
    requires Stale(line, r)
    ensures AlignLine(Realigned(line)) == Untouched
  {
    ReparsesAlike(line, r);
    OnTarget(Realigned(line), Retargeted(r, Target(r)));
  }

  /** A treated line is settled: nothing more is rewritten, and a note stays as it was. */
  lemma {:induction false} LineSettles(line: string)
    ensures AlignLine(Realigned(line)) == if AlignLine(line).Changed? then Untouched else AlignLine(line)
  {
    if AlignLine(line).Changed? {
      ChangedIsStale(line);
      ChangedSettles(line, R.Parse(Body(line)).value);
    }
  }

  // ---------------------------------------------------------------- whole files

  /** `m` is `l`, or `l` with one break-free word inside it put for another. */
  ghost predicate Swapped(l: string, m: string) {
    l == m || exists h, v, w, t :: IsSwap(l, m, h, v, w, t)
  }

  ghost predicate IsSwap(l: string, m: string, h: string, v: string, w: string, t: string) {
    && l == h + (v + t) && m == h + (w + t)
    && h != "" && v != "" && w != "" && T.BreakFree(v) && T.BreakFree(w)
  }

  lemma {:induction false} RealignedIsSwapped(line: string)
    ensures Swapped(line, Realigned(line))
  {
    if AlignLine(line).Changed? {
      var r := R.Parse(Body(line)).value;
      ChangedIsStale(line);
      VersionOnly(line, r);
      TargetsAreVersions(R.CanonicalKey(r.name).value);
      VersionsHaveNoBreak(r.pin.version);
      VersionsHaveNoBreak(Target(r));
      FrontIsNonempty(r);
      assert IsSwap(line, Realigned(line), Front(r), r.pin.version, Target(r), Back(r, line));
    }
  }

  lemma {:induction false} VersionsHaveNoBreak(v: string)
    requires R.All(R.IsVersion, v)
    ensures T.BreakFree(v)
  {
    forall i | 0 <= i < |v| ensures !T.IsBreak(v[i]) {
      assert R.IsVersion(v[i]);
    }
  }

  lemma {:induction false} FrontIsNonempty(r: R.Req)
    requires r.name != ""
    ensures Front(r) != ""
  {
  }

  lemma {:induction false} SwapInPlace(l: string, m: string, r: string, q: string)
    requires Swapped(l, m) && T.SameStart(r, q) && l != "" && T.LineEnd(l + r) == |l|
    ensures m != "" && T.LineEnd(m + q) == |m| && m[0] == l[0]
  {
    if l == m {
      T.LookAhead(l, r, q);
    } else {
      var h, v, w, t :| IsSwap(l, m, h, v, w, t);
      T.LineStaysWhole(h, v, w, t, r, q);
      assert l[0] == h[0] == m[0];
    }
  }

  lemma {:induction false} SwapsKeepLines(ls: seq<string>, ms: seq<string>)
    requires |ls| == |ms| && T.WellBroken(ls) && forall i :: 0 <= i < |ls| ==> Swapped(ls[i], ms[i])
    ensures T.WellBroken(ms) && T.SameStart(T.Join(ls), T.Join(ms))
    decreases |ls|
  {
    if ls != [] {
      forall i | 0 <= i < |ls| - 1 ensures Swapped(ls[1..][i], ms[1..][i]) {
        assert Swapped(ls[i + 1], ms[i + 1]);
      }
      SwapsKeepLines(ls[1..], ms[1..]);
      SwapInPlace(ls[0], ms[0], T.Join(ls[1..]), T.Join(ms[1..]));
    }
  }

  /** Rewriting moves no line boundary: the new text splits into the rewritten lines. */
  lemma {:induction false} LinesSurvive(text: string)
    ensures T.Join(T.Lines(text)) == text
    ensures T.Lines(AlignedText(text)) == Aligned(AlignLine, T.Lines(text))
  {
    var ls := T.Lines(text);
    var ms := Aligned(AlignLine, ls);
    T.SplitThenJoin(text);
    forall i | 0 <= i < |ls| ensures Swapped(ls[i], ms[i]) {
      AlignedAt(AlignLine, ls, i);
      RealignedIsSwapped(ls[i]);
    }
    SwapsKeepLines(ls, ms);
    T.JoinThenSplit(ms);
  }

  lemma {:induction false} SettlesBy(align: Aligner, line: string)
    requires Follows(align)
    ensures align(Result(align(line), line)) == if align(line).Changed? then Untouched else align(line)
  {
    var after := Realigned(line);
    LineSettles(line);
    assert align(line) == AlignLine(line) && align(after) == AlignLine(after);
  }

  lemma {:induction false} PassSettles(align: Aligner, lines: seq<string>, number: nat)
    requires Follows(align)
    ensures var again := Aligned(align, lines);
      && ChangesFrom(align, again, number) == []
      && NotesFrom(align, again, number) == NotesFrom(align, lines, number)
      && Aligned(align, again) == again
    decreases |lines|
  {
    if lines != [] {
      var again := Aligned(align, lines);
      assert again[1..] == Aligned(align, lines[1..]);
      SettlesBy(align, lines[0]);
      PassSettles(align, lines[1..], number + 1);
    }
  }

  /** A second pass finds nothing to change, changes nothing, and repeats the notes. */
  lemma {:induction false} SecondPassFindsNothing(text: string)
    ensures Changes(AlignedText(text)) == []
    ensures AlignedText(AlignedText(text)) == AlignedText(text)
    ensures Notes(AlignedText(text)) == Notes(text)
  {
    LinesSurvive(text);
    PassSettles(AlignLine, T.Lines(text), 1);
  }

  lemma {:induction false} NoChangeNoEdit(align: Aligner, lines: seq<string>, number: nat)
    requires ChangesFrom(align, lines, number) == []
    ensures Aligned(align, lines) == lines
    decreases |lines|
  {
    if lines != [] { NoChangeNoEdit(align, lines[1..], number + 1); }
  }

  /** Changes are reported exactly when the text comes out different. */
  lemma {:induction false} ChangesAreEdits(text: string)
    ensures Changes(text) == [] <==> AlignedText(text) == text
  {
    if Changes(text) == [] {
      NoChangeNoEdit(AlignLine, T.Lines(text), 1);
      T.SplitThenJoin(text);
    } else if AlignedText(text) == text {
      SecondPassFindsNothing(text);
    }
  }

  /** The change report is exact: one change for each rewritten line, under the line's own number. */
  lemma {:induction false} ChangesAreExact(align: Aligner, lines: seq<string>, number: nat)
    ensures forall k: nat, b, a :: Change(k, b, a) in ChangesFrom(align, lines, number) <==>
      number <= k < number + |lines| && align(lines[k - number]).Changed?
      && align(lines[k - number]).before == b && align(lines[k - number]).after == a
    ensures |ChangesFrom(align, lines, number)| + |NotesFrom(align, lines, number)| <= |lines|
    decreases |lines|
  {
    if lines != [] { ChangesAreExact(align, lines[1..], number + 1); }
  }

  /** The notes are exact: one for each line refused for its operator. */
  lemma {:induction false} NotesAreExact(align: Aligner, lines: seq<string>, number: nat)
    ensures forall k: nat, op :: Note(k, op) in NotesFrom(align, lines, number) <==>
      number <= k < number + |lines| && align(lines[k - number]) == Noted(op)
    decreases |lines|
  {
    if lines != [] { NotesAreExact(align, lines[1..], number + 1); }
  }
}
