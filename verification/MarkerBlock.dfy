/** The generated block of scripts/build_matrix_index.py, `apply`: replaced between its
    markers when both are present, appended otherwise. */
module MarkerBlock {
  import opened Wrappers
  import R = Requirements

  /** Does `p` occur in `s` at `i`? */
  predicate At(s: string, i: nat, p: string) {
    i + |p| <= |s| && s[i..i + |p|] == p
  }

  /** `s.index(p)`, or None when `p` does not occur. */
  function Find(s: string, p: string): Option<nat>
    requires p != ""
    decreases |s|
  {
    if |s| < |p| then None
    else if s[..|p|] == p then Some(0)
    else
      var rest := Find(s[1..], p);
      if rest.None? then None else Some(rest.value + 1)
  }

  /** `p` occurs nowhere in `s` before `n`. */
  ghost predicate Absent(s: string, p: string, n: nat) {
    forall j: nat :: j < n ==> !At(s, j, p)
  }

  /** `Find` gives the first occurrence. */
  lemma {:induction false} FindIsFirst(s: string, p: string)
    requires p != ""
    ensures var r := Find(s, p);
      if r.Some? then At(s, r.value, p) && Absent(s, p, r.value) else Absent(s, p, |s| + 1)
    decreases |s|
  {
    if |p| <= |s| && s[..|p|] != p {
      FindIsFirst(s[1..], p);
      AtShifts(s, p);
    }
  }

  lemma {:induction false} AtShifts(s: string, p: string)
    requires s != ""
    ensures forall j: nat {:trigger At(s, j, p)} :: j > 0 ==> (At(s, j, p) <==> At(s[1..], j - 1, p))
  {
    forall j: nat | j > 0 ensures At(s, j, p) <==> At(s[1..], j - 1, p) {
      AtAfter(s[..1], s[1..], j - 1, p);
      assert s[..1] + s[1..] == s;
    }
  }

  lemma {:induction false} FirstIs(s: string, p: string, i: nat)
    requires p != "" && At(s, i, p) && Absent(s, p, i)
    ensures Find(s, p) == Some(i)
  {
    FindIsFirst(s, p);
  }

  datatype Markers = Markers(open: string, close: string)

  // The markers, spelled in pieces short enough to be looked through.
  const OPENING := ["!-- BEGIN GENERATED INVENTORY", " -- edit scripts/build_matrix_i", "ndex.py, not this block -->"]
  const INVENTORY := Markers("<" + OPENING[0] + OPENING[1] + OPENING[2], "<" + "!-- END GENERATED INVENTORY -->")

  /** `p` begins with `c`, holds it nowhere else, holds no newline and ends in no space. */
  ghost predicate Hooked(p: string, c: char) {
    p != "" && p[0] == c && (forall i :: 0 < i < |p| ==> p[i] != c) && '\n' !in p && !R.IsSpace(p[|p| - 1])
  }

  /** What the proofs need of a pair of markers; the source's pair has it. */
  ghost predicate Proper(m: Markers) {
    && m.open != "" && m.open[0] != '\n' && m.open[0] != '-'
    && Hooked(m.open, m.open[0]) && Hooked(m.close, m.open[0]) && !(m.open <= m.close) && !(m.close <= m.open)
  }

  ghost predicate Plain(p: string) {
    forall i :: 0 <= i < |p| ==> p[i] != '<' && p[i] != '\n'
  }

  lemma {:induction false} OpeningIsPlain()
    ensures Plain(OPENING[0]) && Plain(OPENING[1])
  {
  }

  lemma {:induction false} EndsArePlain()
    ensures Plain(OPENING[2]) && Plain("!-- END GENERATED INVENTORY -->")
  {
  }

  lemma {:induction false} IsHooked(rest: string)
    requires Plain(rest) && rest != "" && rest[|rest| - 1] == '>'
    ensures Hooked("<" + rest, '<')
  {
  }

  lemma {:induction false} JoinedPlain(a: string, b: string, c: string)
    requires Plain(a) && Plain(b) && Plain(c) && c != "" && c[|c| - 1] == '>'
    ensures Hooked("<" + a + b + c, '<')
  {
    IsHooked(a + b + c);
    assert "<" + a + b + c == "<" + (a + b + c);
  }

  lemma {:induction false} TheyDiffer(a: string, b: string, c: string, d: string)
    requires |a| > 4 && |d| > 4 && a[4] != d[4]
    ensures !("<" + a + b + c <= "<" + d) && !("<" + d <= "<" + a + b + c)
  {
    assert ("<" + a + b + c)[5] == a[4];
    assert ("<" + d)[5] == d[4];
  }

  lemma {:induction false} InventoryIsProper()
    ensures Proper(INVENTORY)
  {
    OpeningIsPlain();
    EndsArePlain();
    JoinedPlain(OPENING[0], OPENING[1], OPENING[2]);
    IsHooked("!-- END GENERATED INVENTORY -->");
    TheyDiffer(OPENING[0], OPENING[1], OPENING[2], "!-- END GENERATED INVENTORY -->");
  }

  /** `text.rstrip()` */
  function Rstrip(text: string): (r: string)
    ensures r <= text
    ensures r == "" || !R.IsSpace(r[|r| - 1])
    ensures forall i :: |r| <= i < |text| ==> R.IsSpace(text[i])
  {
    if text == "" || !R.IsSpace(text[|text| - 1]) then text else Rstrip(text[..|text| - 1])
  }

  const RULE := "\n\n---\n\n"

  function Apply(m: Markers, text: string, block: string): string
    requires m.open != "" && m.close != ""
  {
    var h, e := Find(text, m.open), Find(text, m.close);
    FindIsFirst(text, m.open);
    FindIsFirst(text, m.close);
    if h.Some? && e.Some? then text[..h.value] + block + text[e.value + |m.close|..]
    else Rstrip(text) + RULE + block + "\n"
  }

  /** A generated block: it begins with the opening marker, and its closing marker is at its end only. */
  ghost predicate IsBlock(m: Markers, block: string)
    requires m.open != "" && m.close != ""
  {
    |m.close| <= |block| && Find(block, m.open) == Some(0) && Find(block, m.close) == Some(|block| - |m.close|)
  }

  lemma {:induction false} BlockBegins(m: Markers, block: string, tail: string)
    requires m.open != "" && m.close != "" && IsBlock(m, block)
    ensures block != "" && (block + tail)[0] == m.open[0]
  {
    FindIsFirst(block, m.open);
    assert block[0..|m.open|][0] == block[0];
  }

  /** No marker at all, or both with the first opening one before the first closing one. */
  predicate Orderly(m: Markers, text: string)
    requires m.open != "" && m.close != ""
  {
    var h, e := Find(text, m.open), Find(text, m.close);
    if h.Some? then e.Some? && h.value < e.value else e.None?
  }

  lemma {:induction false} AtWithin(a: string, b: string, i: nat, p: string)
    requires i + |p| <= |a|
    ensures At(a + b, i, p) <==> At(a, i, p)
  {
    assert (a + b)[i..i + |p|] == a[i..i + |p|];
  }

  lemma {:induction false} AtAfter(a: string, b: string, i: nat, p: string)
    ensures At(a + b, |a| + i, p) <==> At(b, i, p)
  {
    if i + |p| <= |b| { assert (a + b)[|a| + i..|a| + i + |p|] == b[i..i + |p|]; }
  }

  /** No marker straddles a place where a marker begins. */
  lemma {:induction false} NoStraddle(a: string, b: string, i: nat, p: string, c: char)
    requires Hooked(p, c) && i < |a| && b != "" && b[0] == c && At(a + b, i, p)
    ensures At(a, i, p)
  {
    assert forall k :: 0 <= k < |p| ==> (a + b)[i + k] == p[k];
    assert (a + b)[|a|] == b[0];
    AtWithin(a, b, i, p);
  }

  /** A marker that occurs nowhere before `h` in `text` occurs nowhere in the part kept from it. */
  lemma {:induction false} HeadIsClear(text: string, h: nat, b: string, p: string, c: char)
    requires Hooked(p, c) && h <= |text| && b != "" && b[0] == c
    requires Absent(text, p, h)
    ensures Absent(text[..h] + b, p, h)
  {
    forall j: nat | j < h && At(text[..h] + b, j, p) ensures false {
      NoStraddle(text[..h], b, j, p, c);
      assert text[..h] + text[h..] == text;
      AtWithin(text[..h], text[h..], j, p);
    }
  }

  lemma {:induction false} FindAfter(head: string, rest: string, p: string, k: nat)
    requires p != "" && Find(rest, p) == Some(k) && Absent(head + rest, p, |head|)
    ensures Find(head + rest, p) == Some(|head| + k)
  {
    FindIsFirst(rest, p);
    forall j: nat | |head| <= j < |head| + k ensures !At(head + rest, j, p) {
      AtAfter(head, rest, j - |head|, p);
    }
    AtAfter(head, rest, k, p);
    FirstIs(head + rest, p, |head| + k);
  }

  lemma {:induction false} FindWithin(block: string, tail: string, p: string, k: nat)
    requires p != "" && Find(block, p) == Some(k)
    ensures Find(block + tail, p) == Some(k)
  {
    FindIsFirst(block, p);
    forall j: nat | j <= k ensures At(block + tail, j, p) <==> At(block, j, p) {
      AtWithin(block, tail, j, p);
    }
    FirstIs(block + tail, p, k);
  }

  /** With the markers found at `h` and `e`. */
  lemma {:induction false} ApplyFound(m: Markers, text: string, h: nat, e: nat, block: string)
    requires m.open != "" && m.close != "" && Find(text, m.open) == Some(h) && Find(text, m.close) == Some(e)
    ensures h <= |text| && e + |m.close| <= |text|
    ensures Apply(m, text, block) == text[..h] + block + text[e + |m.close|..]
    ensures |Apply(m, text, block)| == h + |block| + |text| - e - |m.close|
  {
    FindIsFirst(text, m.open);
    FindIsFirst(text, m.close);
  }

  lemma {:induction false} Pieces(head: string, block: string, tail: string)
    ensures (head + (block + tail))[..|head|] == head
    ensures (head + (block + tail))[|head| + |block|..] == tail
    ensures head + block + tail == head + (block + tail)
  {
  }

  lemma {:induction false} FoundInPlace(head: string, block: string, tail: string, p: string, k: nat)
    requires p != "" && Find(block, p) == Some(k)
    requires Absent(head + (block + tail), p, |head|)
    ensures Find(head + (block + tail), p) == Some(|head| + k)
  {
    FindWithin(block, tail, p, k);
    FindAfter(head, block + tail, p, k);
  }

  lemma {:induction false} ExchangeFound(m: Markers, head: string, block: string, tail: string, other: string)
    requires m.open != "" && m.close != "" && |m.close| <= |block|
    requires Find(head + (block + tail), m.open) == Some(|head|)
    requires Find(head + (block + tail), m.close) == Some(|head| + (|block| - |m.close|))
    ensures Apply(m, head + block + tail, other) == head + other + tail
  {
    ApplyFound(m, head + (block + tail), |head|, |head| + (|block| - |m.close|), other);
    Pieces(head, block, tail);
  }

  /** With the block found where it was put, it is exchanged and nothing else is. */
  lemma {:induction false} Exchange(m: Markers, head: string, block: string, tail: string, other: string)
    requires Proper(m) && IsBlock(m, block)
    requires Absent(head + (block + tail), m.close, |head|)
    requires Absent(head + (block + tail), m.open, |head|)
    ensures Apply(m, head + block + tail, other) == head + other + tail
  {
    FoundInPlace(head, block, tail, m.open, 0);
    FoundInPlace(head, block, tail, m.close, |block| - |m.close|);
    ExchangeFound(m, head, block, tail, other);
  }

  // ---------------------------------------------------------------- running it again

  lemma {:induction false} Between(m: Markers, text: string, one: string, two: string)
    requires Proper(m) && IsBlock(m, one)
    requires Find(text, m.open).Some? && Find(text, m.close).Some?
      && Find(text, m.open).value < Find(text, m.close).value
    ensures Apply(m, Apply(m, text, one), two) == Apply(m, text, two)
  {
    var h, e := Find(text, m.open).value, Find(text, m.close).value;
    FindIsFirst(text, m.open);
    FindIsFirst(text, m.close);
    ApplyFound(m, text, h, e, one);
    ApplyFound(m, text, h, e, two);
    Exchanged(m, text, h, one, text[e + |m.close|..], two);
  }

  lemma {:induction false} Exchanged(m: Markers, text: string, h: nat, one: string, tail: string, two: string)
    requires Proper(m) && IsBlock(m, one) && h <= |text|
    requires Absent(text, m.open, h) && Absent(text, m.close, h)
    ensures Apply(m, text[..h] + one + tail, two) == text[..h] + two + tail
  {
    BlockBegins(m, one, tail);
    HeadIsClear(text, h, one + tail, m.open, m.open[0]);
    HeadIsClear(text, h, one + tail, m.close, m.open[0]);
    Exchange(m, text[..h], one, tail, two);
  }

  /** The text an appended block follows holds the markers the text itself holds. */
  lemma {:induction false} BaseIsClear(m: Markers, text: string, rest: string, p: string)
    requires Proper(m) && p != "" && (p == m.open || p == m.close) && rest != "" && rest[0] == m.open[0]
    ensures forall j: nat :: j < |Rstrip(text) + RULE| ==> (At(Rstrip(text) + RULE + rest, j, p) <==> At(text, j, p))
  {
    var r, base := Rstrip(text), Rstrip(text) + RULE;
    forall j: nat | j < |base| ensures At(base + rest, j, p) <==> At(text, j, p) {
      if At(base + rest, j, p) {
        NoStraddle(base, rest, j, p, m.open[0]);
        RuleIsClear(r, j, p, m.open[0]);
        AtWithin(r, text[|r|..], j, p);
        assert r + text[|r|..] == text;
      } else if At(text, j, p) {
        StripKeepsMarkers(text, j, p, m.open[0]);
        AtWithin(r, RULE, j, p);
        AtWithin(base, rest, j, p);
      }
    }
  }

  lemma {:induction false} RuleIsClear(r: string, j: nat, p: string, c: char)
    requires Hooked(p, c) && c != '\n' && c != '-' && At(r + RULE, j, p)
    ensures At(r, j, p)
  {
    assert forall k :: 0 <= k < |p| ==> (r + RULE)[j + k] == p[k];
    assert (r + RULE)[|r|] == '\n';
    AtWithin(r, RULE, j, p);
  }

  lemma {:induction false} StripKeepsMarkers(text: string, j: nat, p: string, c: char)
    requires Hooked(p, c) && At(text, j, p)
    ensures At(Rstrip(text), j, p)
  {
    var r := Rstrip(text);
    assert text[j..j + |p|][|p| - 1] == text[j + |p| - 1];
    AtWithin(r, text[|r|..], j, p);
    assert r + text[|r|..] == text;
  }

  lemma {:induction false} Appended(m: Markers, text: string, one: string, two: string)
    requires Proper(m) && IsBlock(m, one)
    requires Find(text, m.open).None? && Find(text, m.close).None?
    ensures Apply(m, Apply(m, text, one), two) == Apply(m, text, two)
  {
    var base, rest := Rstrip(text) + RULE, one + "\n";
    BlockBegins(m, one, "\n");
    FindIsFirst(text, m.open);
    FindIsFirst(text, m.close);
    BaseIsClear(m, text, rest, m.open);
    BaseIsClear(m, text, rest, m.close);
    Exchange(m, base, one, "\n", two);
  }

  // ---------------------------------------------------------------- markers out of order

  lemma {:induction false} SamePlace(text: string, i: nat, a: string, b: string)
    requires At(text, i, a) && At(text, i, b)
    ensures a <= b || b <= a
  {
    assert text[i..][..|a|] == a && text[i..][..|b|] == b;
  }

  /** Two markers that occur in one text do not overlap. */
  lemma {:induction false} MarkersAreApart(text: string, i: nat, p: string, j: nat, q: string, c: char)
    requires Hooked(p, c) && Hooked(q, c) && At(text, i, p) && At(text, j, q) && i < j
    ensures i + |p| <= j
  {
    assert forall k :: 0 <= k < |p| ==> text[i + k] == p[k];
    assert text[j..j + |q|][0] == text[j];
  }

  lemma {:induction false} ClosingStaysFirst(text: string, h: nat, rest: string, p: string, e: nat)
    requires p != "" && Find(text, p) == Some(e) && e + |p| <= h <= |text|
    ensures Find(text[..h] + rest, p) == Some(e)
  {
    var head := text[..h];
    assert head + text[h..] == text;
    FindIsFirst(text, p);
    forall j: nat | j <= e ensures At(head + rest, j, p) <==> At(text, j, p) {
      AtWithin(head, rest, j, p);
      AtWithin(head, text[h..], j, p);
    }
    FirstIs(head + rest, p, e);
  }

  /** The closing marker first: what lies between the markers is doubled on every run. */
  lemma {:induction false} CrossedGrows(m: Markers, text: string, block: string)
    requires Proper(m) && IsBlock(m, block)
    requires Find(text, m.open).Some? && Find(text, m.close).Some?
      && Find(text, m.close).value <= Find(text, m.open).value
    ensures |Apply(m, Apply(m, text, block), block)| > |Apply(m, text, block)|
  {
    var h, e := Find(text, m.open).value, Find(text, m.close).value;
    FindIsFirst(text, m.open);
    FindIsFirst(text, m.close);
    if e == h { SamePlace(text, h, m.open, m.close); }
    MarkersAreApart(text, e, m.close, h, m.open, m.open[0]);
    ApplyFound(m, text, h, e, block);
    var head, tail := text[..h], text[e + |m.close|..];
    Pieces(head, block, tail);
    CrossedFound(m, text, h, e, block, tail);
    ApplyFound(m, head + (block + tail), h, e, block);
  }

  lemma {:induction false} CrossedFound(m: Markers, text: string, h: nat, e: nat, block: string, tail: string)
    requires Proper(m) && IsBlock(m, block) && h <= |text| && e + |m.close| <= h
    requires Absent(text, m.open, h) && Find(text, m.close) == Some(e)
    ensures Find(text[..h] + (block + tail), m.open) == Some(h) && Find(text[..h] + (block + tail), m.close) == Some(e)
  {
    BlockBegins(m, block, tail);
    HeadIsClear(text, h, block + tail, m.open, m.open[0]);
    FoundInPlace(text[..h], block, tail, m.open, 0);
    ClosingStaysFirst(text, h, block + tail, m.close, e);
  }

  /** One marker alone: the second run cuts from it, or doubles what follows it. */
  lemma {:induction false} HalfMarkedChanges(m: Markers, text: string, block: string)
    requires Proper(m) && IsBlock(m, block) && Find(text, m.open).Some? != Find(text, m.close).Some?
    ensures Apply(m, Apply(m, text, block), block) != Apply(m, text, block)
  {
    var base, rest := Rstrip(text) + RULE, block + "\n";
    BlockBegins(m, block, "\n");
    FindIsFirst(text, m.open);
    FindIsFirst(text, m.close);
    BaseIsClear(m, text, rest, m.open);
    BaseIsClear(m, text, rest, m.close);
    assert Apply(m, text, block) == base + rest;
    if Find(text, m.open).Some? {
      OpeningAlone(m, text, base, block);
    } else {
      ClosingAlone(m, text, base, block);
    }
  }

  lemma {:induction false} FirstSurvives(text: string, base: string, rest: string, p: string)
    requires p != "" && Hooked(p, p[0]) && Find(text, p).Some? && base == Rstrip(text) + RULE
    requires forall j: nat :: j < |base| ==> (At(base + rest, j, p) <==> At(text, j, p))
    ensures Find(base + rest, p) == Find(text, p) && Find(text, p).value + |p| < |base|
  {
    FindIsFirst(text, p);
    StripKeepsMarkers(text, Find(text, p).value, p, p[0]);
    FirstIs(base + rest, p, Find(text, p).value);
  }

  lemma {:induction false} OpeningAlone(m: Markers, text: string, base: string, block: string)
    requires Proper(m) && IsBlock(m, block) && Find(text, m.open).Some?
    requires base == Rstrip(text) + RULE
    requires Absent(base + (block + "\n"), m.close, |base|)
    requires forall j: nat :: j < |base| ==> (At(base + (block + "\n"), j, m.open) <==> At(text, j, m.open))
    ensures |Apply(m, base + (block + "\n"), block)| < |base + (block + "\n")|
  {
    var k := |block| - |m.close|;
    FirstSurvives(text, base, block + "\n", m.open);
    FoundInPlace(base, block, "\n", m.close, k);
    ApplyFound(m, base + (block + "\n"), Find(text, m.open).value, |base| + k, block);
  }

  lemma {:induction false} ClosingAlone(m: Markers, text: string, base: string, block: string)
    requires Proper(m) && IsBlock(m, block) && Find(text, m.close).Some?
    requires base == Rstrip(text) + RULE
    requires Absent(base + (block + "\n"), m.open, |base|)
    requires forall j: nat :: j < |base| ==> (At(base + (block + "\n"), j, m.close) <==> At(text, j, m.close))
    ensures |Apply(m, base + (block + "\n"), block)| > |base + (block + "\n")|
  {
    FirstSurvives(text, base, block + "\n", m.close);
    FoundInPlace(base, block, "\n", m.open, 0);
    ApplyFound(m, base + (block + "\n"), |base|, Find(text, m.close).value, block);
  }

  /** On orderly text the last block wins: a run replaces the block an earlier run left and
      changes nothing else, so a second run changes nothing. On any other text it changes something. */
  lemma {:induction false} SettledExactlyWhenOrderly(m: Markers, text: string, one: string, two: string)
    requires Proper(m) && IsBlock(m, one)
    ensures Orderly(m, text) ==> Apply(m, Apply(m, text, one), two) == Apply(m, text, two)
    ensures Apply(m, Apply(m, text, one), one) == Apply(m, text, one) <==> Orderly(m, text)
  {
    var h, e := Find(text, m.open), Find(text, m.close);
    if h.Some? != e.Some? {
      HalfMarkedChanges(m, text, one);
    } else if h.None? {
      Appended(m, text, one, one);
      Appended(m, text, one, two);
    } else if h.value < e.value {
      Between(m, text, one, one);
      Between(m, text, one, two);
    } else {
      CrossedGrows(m, text, one);
    }
  }

  lemma {:induction false} InFive(s: string, a: nat, b: nat, c: nat, d: nat)
    requires a <= b <= c <= d <= |s|
    ensures s[..a] + (s[a..b] + s[b..c] + s[c..d]) + s[d..] == s
  {
    assert s[a..b] + s[b..c] + s[c..d] == s[a..d];
  }

  lemma {:induction false} Marked(text: string, h: nat, p: string, e: nat, q: string)
    requires At(text, h, p) && At(text, e, q) && h + |p| <= e
    ensures text == text[..h] + (p + text[h + |p|..e] + q) + text[e + |q|..]
  {
    InFive(text, h, h + |p|, e, e + |q|);
  }

  lemma {:induction false} MarkersFound(m: Markers, text: string)
    requires Proper(m) && Orderly(m, text) && Find(text, m.open).Some?
    ensures At(text, Find(text, m.open).value, m.open) && At(text, Find(text, m.close).value, m.close)
    ensures Find(text, m.open).value + |m.open| <= Find(text, m.close).value
  {
    FindIsFirst(text, m.open);
    FindIsFirst(text, m.close);
    MarkersAreApart(text, Find(text, m.open).value, m.open, Find(text, m.close).value, m.close, m.open[0]);
  }

  /** What a run keeps of text that has both markers: all that lies outside them. */
  lemma {:induction false} OutsideIsKept(m: Markers, text: string, block: string)
    returns (head: string, inner: string, tail: string)
    requires Proper(m) && Orderly(m, text) && Find(text, m.open).Some?
    ensures text == head + (m.open + inner + m.close) + tail
    ensures Apply(m, text, block) == head + block + tail
  {
    MarkersFound(m, text);
    head, inner, tail := OutsideAt(m, text, block, Find(text, m.open).value, Find(text, m.close).value);
  }

  lemma {:induction false} OutsideAt(m: Markers, text: string, block: string, h: nat, e: nat)
    returns (head: string, inner: string, tail: string)
    requires m.open != "" && m.close != "" && Find(text, m.open) == Some(h) && Find(text, m.close) == Some(e)
    requires At(text, h, m.open) && At(text, e, m.close) && h + |m.open| <= e
    ensures text == head + (m.open + inner + m.close) + tail
    ensures Apply(m, text, block) == head + block + tail
  {
    ApplyFound(m, text, h, e, block);
    Marked(text, h, m.open, e, m.close);
    head, inner, tail := text[..h], text[h + |m.open|..e], text[e + |m.close|..];
  }

  /** A text with one marker alone. */
  lemma {:induction false} HalfMarkedHappens(block: string)
    requires IsBlock(INVENTORY, block)
    ensures Find(INVENTORY.open, INVENTORY.open).Some? && Find(INVENTORY.open, INVENTORY.close).None?
    ensures var once := Apply(INVENTORY, INVENTORY.open, block); Apply(INVENTORY, once, block) != once
  {
    InventoryIsProper();
    var m := INVENTORY;
    assert At(m.open, 0, m.open);
    FirstIs(m.open, m.open, 0);
    FindIsFirst(m.open, m.close);
    if Find(m.open, m.close).Some? { Inside(m, Find(m.open, m.close).value); }
    HalfMarkedChanges(m, m.open, block);
  }

  /** Neither marker holds the other. */
  lemma {:induction false} Inside(m: Markers, i: nat)
    requires Proper(m)
    ensures !At(m.open, i, m.close)
  {
    if At(m.open, i, m.close) { AtStarts(m.open, i, m.close); }
  }

  lemma {:induction false} AtStarts(s: string, i: nat, p: string)
    requires p != "" && At(s, i, p)
    ensures s[i] == p[0]
  {
    assert s[i..i + |p|][0] == s[i];
  }

  // ---------------------------------------------------------------- one run

  /** With a marker missing the text is kept up to its trailing white space, and what follows it is
      the rule, the block and a line end. */
  lemma {:induction false} AppendKeepsText(m: Markers, text: string, block: string) returns (kept: string)
    requires m.open != "" && m.close != ""
    requires (forall i: nat :: !At(text, i, m.open)) || (forall i: nat :: !At(text, i, m.close))
    ensures kept <= text && (kept == "" || !R.IsSpace(kept[|kept| - 1]))
    ensures forall i :: |kept| <= i < |text| ==> R.IsSpace(text[i])
    ensures Apply(m, text, block) == kept + "\n\n---\n\n" + block + "\n"
  {
    FindIsFirst(text, m.open);
    FindIsFirst(text, m.close);
    kept := Rstrip(text);
  }

  /** With both there, what stands before the first opening marker and after the first closing one
      is kept, and everything else gives way to the block. */
  lemma {:induction false} ReplaceKeepsOutside(m: Markers, text: string, block: string, before: string, inside: string,
                                               outside: string, after: string)
    requires m.open != "" && m.close != ""
    requires text == before + (m.open + inside) == outside + (m.close + after)
    requires forall i: nat :: i < |before| ==> !At(text, i, m.open)
    requires forall i: nat :: i < |outside| ==> !At(text, i, m.close)
    ensures Apply(m, text, block) == before + block + after
  {
    FoundAfter(text, before, m.open, inside);
    FoundAfter(text, outside, m.close, after);
    ApplyFound(m, text, |before|, |outside|, block);
  }

  lemma {:induction false} FoundAfter(text: string, before: string, p: string, rest: string)
    requires p != "" && text == before + (p + rest) && forall i: nat :: i < |before| ==> !At(text, i, p)
    ensures Find(text, p) == Some(|before|)
    ensures text[..|before|] == before && text[|before| + |p|..] == rest
  {
    AtAfter(before, p + rest, 0, p);
    AtStart(p, rest);
    FirstIs(text, p, |before|);
  }

  lemma {:induction false} AtStart(p: string, rest: string)
    ensures At(p + rest, 0, p)
  {
  }
}
