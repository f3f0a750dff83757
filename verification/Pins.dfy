/** Rewriting of framework pins in requirements files: scripts/align_framework_pins.py,
    `align_text` and the `--write` / `--check` logic of `main`. */
module Pins {
  import opened Sequences
  import opened Wrappers
  import R = Requirements
  import T = TextLines

  predicate IsLineEnding(c: char) {
    c == '\r' || c == '\n'
  }

  /** `line.rstrip("\r\n")` */
  function Body(line: string): (b: string)
    ensures b <= line && (b == "" || !IsLineEnding(b[|b| - 1]))
  {
    if line == "" || !IsLineEnding(line[|line| - 1]) then line else Body(line[..|line| - 1])
  }

  function Ending(line: string): string {
    line[|Body(line)|..]
  }

  datatype Outcome = Untouched | Noted(op: string) | Changed(before: string, after: string, line: string)

  function Retargeted(r: R.Req, version: string): R.Req {
    r.(pin := r.pin.(version := version))
  }

  function Decide(r: R.Req, line: string): Outcome {
    var key := R.CanonicalKey(r.name);
    if key.None? then Untouched
    else if r.pin.op != "==" then Noted(r.pin.op)
    else if r.pin.version == R.CANONICAL[key.value] then Untouched
    else
      var rebuilt := R.Render(Retargeted(r, R.CANONICAL[key.value])) + Ending(line);
      Changed(Body(line), Body(rebuilt), rebuilt)
  }

  function AlignLine(line: string): Outcome {
    var r := R.Parse(Body(line));
    if r.None? then Untouched else Decide(r.value, line)
  }

  /** Proofs about whole files keep the treatment of one line abstract, as `align`. */
  type Aligner = string -> Outcome

  ghost predicate Follows(align: Aligner) {
    forall line {:trigger AlignLine(line)} :: align(line) == AlignLine(line)
  }

  function Result(o: Outcome, line: string): string {
    if o.Changed? then o.line else line
  }

  function Aligned(align: Aligner, lines: seq<string>): (r: seq<string>)
    ensures |r| == |lines|
  {
    if lines == [] then [] else [Result(align(lines[0]), lines[0])] + Aligned(align, lines[1..])
  }

  datatype Change = Change(number: nat, before: string, after: string)
  datatype Note = Note(number: nat, op: string)

  function ChangeAt(o: Outcome, number: nat): seq<Change> {
    if o.Changed? then [Change(number, o.before, o.after)] else []
  }

  function NoteAt(o: Outcome, number: nat): seq<Note> {
    if o.Noted? then [Note(number, o.op)] else []
  }

  function ChangesFrom(align: Aligner, lines: seq<string>, number: nat): seq<Change> {
    if lines == [] then [] else ChangeAt(align(lines[0]), number) + ChangesFrom(align, lines[1..], number + 1)
  }

  function NotesFrom(align: Aligner, lines: seq<string>, number: nat): seq<Note> {
    if lines == [] then [] else NoteAt(align(lines[0]), number) + NotesFrom(align, lines[1..], number + 1)
  }

  function AlignedText(text: string): string {
    T.Join(Aligned(AlignLine, T.Lines(text)))
  }

  function Changes(text: string): seq<Change> {
    ChangesFrom(AlignLine, T.Lines(text), 1)
  }

  function Notes(text: string): seq<Note> {
    NotesFrom(AlignLine, T.Lines(text), 1)
  }

  /** `line.lstrip()` */
  function Stripped(line: string): string {
    line[R.Span(R.IsSpace, line)..]
  }

  /** Blank and comment lines hold no requirement, so skipping them loses none. */
  lemma {:induction false} SkippedLinesNeverMatch(line: string)
    requires Stripped(line) == "" || Stripped(line)[0] == '#'
    ensures AlignLine(line) == Untouched
  {
    var b := Body(line);
    if R.Parse(b).Some? {
      R.ParseIsMatch(b);
      var r := R.Parse(b).value;
      NameStarts(r, line);
    }
  }

  lemma {:induction false} NameStarts(r: R.Req, line: string)
    requires R.HeadInGrammar(r) && R.Render(r) <= line
    ensures Stripped(line) != "" && R.IsName(Stripped(line)[0])
  {
    var tail := line[|r.indent|..];
    assert R.IsName(r.name[0]);
    assert R.Render(r)[|r.indent|] == r.name[0];
    assert line == r.indent + tail && tail[0] == r.name[0];
    R.SpanIs(R.IsSpace, r.indent, tail);
  }

  lemma {:induction false} AlignedAt(align: Aligner, lines: seq<string>, i: nat)
    requires i < |lines|
    ensures Aligned(align, lines)[i] == Result(align(lines[i]), lines[i])
    decreases i
  {
    if i > 0 { AlignedAt(align, lines[1..], i - 1); }
  }

  lemma {:induction false} TakeOneMore<A>(a: seq<A>, b: seq<A>, i: nat)
    requires i < |a| == |b|
    ensures (a[..i] + b[i..])[i := a[i]] == a[..i + 1] + b[i + 1..]
  {
  }

  /** The lists after `index` turns of the loop over `before`. */
  ghost predicate Reached(align: Aligner, before: seq<string>, index: nat,
                          lines: seq<string>, changes: seq<Change>, notes: seq<Note>)
    requires index <= |before|
  {
    && lines == Aligned(align, before)[..index] + before[index..]
    && changes + ChangesFrom(align, before[index..], index + 1) == ChangesFrom(align, before, 1)
    && notes + NotesFrom(align, before[index..], index + 1) == NotesFrom(align, before, 1)
  }

  lemma {:induction false} OneMore(align: Aligner, before: seq<string>, index: nat,
                lines: seq<string>, changes: seq<Change>, notes: seq<Note>)
    requires index < |before| && Reached(align, before, index, lines, changes, notes)
    ensures |lines| == |before| && lines[index] == before[index]
    ensures var o := align(before[index]);
      Reached(align, before, index + 1, lines[index := Result(o, before[index])],
              changes + ChangeAt(o, index + 1), notes + NoteAt(o, index + 1))
  {
    var o, next, rest := align(before[index]), index + 1, before[index..];
    assert rest[0] == before[index] && rest[1..] == before[next..];
    Associates(changes, ChangeAt(o, next), ChangesFrom(align, before[next..], next + 1));
    Associates(notes, NoteAt(o, next), NotesFrom(align, before[next..], next + 1));
    AlignedAt(align, before, index);
    TakeOneMore(Aligned(align, before), before, index);
  }

  lemma {:induction false} NoneReached(align: Aligner, before: seq<string>)
    ensures Reached(align, before, 0, before, [], [])
  {
    assert before[0..] == before;
  }

  method AlignText(text: string) returns (updated: string, changes: seq<Change>, notes: seq<Note>)
    ensures updated == AlignedText(text)
    ensures changes == Changes(text)
    ensures notes == Notes(text)
  {
    var lines;
    lines, changes, notes := AlignLines(T.Lines(text), AlignLine);
    updated := T.Join(lines);
  }

  /** The loop over the lines. */
  method AlignLines(before: seq<string>, ghost align: Aligner)
    returns (lines: seq<string>, changes: seq<Change>, notes: seq<Note>)
    requires Follows(align)
    ensures lines == Aligned(align, before)
    ensures changes == ChangesFrom(align, before, 1)
    ensures notes == NotesFrom(align, before, 1)
  {
    lines, changes, notes := before, [], [];
    NoneReached(align, before);
    for index := 0 to |lines|
      invariant |lines| == |before|
      invariant Reached(align, before, index, lines, changes, notes)
    {
      OneMore(align, before, index, lines, changes, notes);
      var line, found, noted := AlignAt(lines[index], index + 1, align);
      changes, notes := changes + found, notes + noted;
      lines := lines[index := line];
    }
  }

  /** One turn of the loop. */
  method AlignAt(line: string, number: nat, ghost align: Aligner)
    returns (r: string, changes: seq<Change>, notes: seq<Note>)
    requires Follows(align)
    ensures r == Result(align(line), line)
    ensures changes == ChangeAt(align(line), number) && notes == NoteAt(align(line), number)
  {
    assert align(line) == AlignLine(line);
    r, changes, notes := line, [], [];
    var stripped := Stripped(line);
    if stripped == "" || stripped[0] == '#' {
      SkippedLinesNeverMatch(line);
      return;
    }
    var found := R.Parse(Body(line));
    if found.None? { return; }
    var req := found.value;
    var key := R.CanonicalKey(req.name);
    if key.None? { return; }
    if req.pin.op != "==" {
      notes := [Note(number, req.pin.op)];
      return;
    }
    var target := R.CANONICAL[key.value];
    if req.pin.version == target { return; }
    r := R.Render(Retargeted(req, target)) + Ending(line);
    changes := [Change(number, Body(line), Body(r))];
  }
}
