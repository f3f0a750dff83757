/** The requirements-line grammar of scripts/align_framework_pins.py: the regular
    expression `_REQ_LINE` as a parser that agrees with it, and name normalisation. */
module Requirements {
  import opened Wrappers

  /** The characters `\s` matches and `str.strip` removes. */
  predicate IsSpace(c: char) {
    c in {'\t', '\n', '\r', ' '} || '\U{000B}' <= c <= '\U{000C}' || '\U{001C}' <= c <= '\U{001F}' ||
    c in {'\U{0085}', '\U{00A0}', '\U{1680}', '\U{2028}', '\U{2029}', '\U{202F}', '\U{205F}', '\U{3000}'} ||
    '\U{2000}' <= c <= '\U{200A}'
  }

  predicate IsName(c: char) {
    'a' <= c <= 'z' || 'A' <= c <= 'Z' || '0' <= c <= '9' || c in {'.', '_', '-'}
  }

  predicate IsVersion(c: char) {
    !IsSpace(c) && c != ';' && c != '#'
  }

  predicate NotBracket(c: char) {
    c != ']'
  }

  /** Length of the longest prefix whose characters satisfy `p`. */
  function Span(p: char -> bool, s: string): (n: nat)
    ensures n <= |s| && (n < |s| ==> !p(s[n])) && forall i :: 0 <= i < n ==> p(s[i])
  {
    if s == "" || !p(s[0]) then 0 else 1 + Span(p, s[1..])
  }

  ghost predicate All(p: char -> bool, s: string) {
    forall i :: 0 <= i < |s| ==> p(s[i])
  }

  lemma {:induction false} SpanIs(p: char -> bool, a: string, b: string)
    requires All(p, a) && (b == "" || !p(b[0]))
    ensures Span(p, a + b) == |a|
    decreases |a|
  {
    if a == "" {
      assert a + b == b;
    } else {
      SpanIs(p, a[1..], b);
      assert (a + b)[1..] == a[1..] + b;
    }
  }

  lemma {:induction false} Rejoin(s: string, n: nat)
    requires n <= |s|
    ensures s[..n] + s[n..] == s
  {
  }

  /** The groups of a match; `extras` is "" when the group did not take part. */
  datatype Pin = Pin(op: string, vspace: string, version: string, rest: string)
  datatype Req = Req(indent: string, name: string, extras: string, space: string, pin: Pin)

  function RenderPin(p: Pin): string {
    p.op + (p.vspace + (p.version + p.rest))
  }

  function RenderHead(r: Req, tail: string): string {
    r.indent + (r.name + (r.extras + (r.space + tail)))
  }

  function Render(r: Req): string {
    RenderHead(r, RenderPin(r.pin))
  }

  /** Alternatives in the order the expression tries them. */
  const OPS: seq<string> := ["==", ">=", "<=", "~=", "!=", ">", "<"]

  function ExtrasLength(s: string): (n: nat)
    ensures n <= |s|
  {
    if s == "" || s[0] != '[' then 0
    else
      var n := Span(NotBracket, s);
      if n < |s| then n + 1 else 0
  }

  predicate HasVersion(s: string) {
    Span(IsVersion, s[Span(IsSpace, s)..]) > 0
  }

  /** The first alternative after which a version can follow. */
  function OpAt(ops: seq<string>, s: string): Option<string> {
    if ops == [] then None
    else if ops[0] <= s && HasVersion(s[|ops[0]|..]) then Some(ops[0])
    else OpAt(ops[1..], s)
  }

  function ParsePin(ops: seq<string>, s: string): Option<Pin> {
    var op := OpAt(ops, s);
    if op.None? then None
    else
      OpIsPrefix(ops, s);
      var f := s[|op.value|..];
      var g := f[Span(IsSpace, f)..];
      Some(Pin(op.value, f[..Span(IsSpace, f)], g[..Span(IsVersion, g)], g[Span(IsVersion, g)..]))
  }

  datatype Cut = Cut(indent: string, name: string, extras: string, space: string, tail: string)

  function CutHead(s: string): Cut {
    var a := s[Span(IsSpace, s)..];
    var b := a[Span(IsName, a)..];
    var c := b[ExtrasLength(b)..];
    Cut(s[..Span(IsSpace, s)], a[..Span(IsName, a)], b[..ExtrasLength(b)], c[..Span(IsSpace, c)], c[Span(IsSpace, c)..])
  }

  function ParseCut(ops: seq<string>, h: Cut): Option<Req> {
    var p := ParsePin(ops, h.tail);
    if h.name == "" || p.None? then None else Some(Req(h.indent, h.name, h.extras, h.space, p.value))
  }

  /** The match of a line body. A body holds no "\n", the one character `.` refuses. */
  function Parse(s: string): Option<Req> {
    ParseCut(OPS, CutHead(s))
  }

  // ---------------------------------------------------------------- agreement with the expression

  ghost predicate IsExtras(s: string) {
    s == "" || (2 <= |s| && s[0] == '[' && s[|s| - 1] == ']' && All(NotBracket, s[..|s| - 1]))
  }

  /** Each group lies in the language the expression gives it. */
  ghost predicate HeadInGrammar(r: Req) {
    All(IsSpace, r.indent) && r.name != "" && All(IsName, r.name) && IsExtras(r.extras) && All(IsSpace, r.space)
  }

  ghost predicate PinInGrammar(ops: seq<string>, p: Pin) {
    p.op in ops && All(IsSpace, p.vspace) && p.version != "" && All(IsVersion, p.version)
  }

  ghost predicate InGrammar(r: Req) {
    HeadInGrammar(r) && PinInGrammar(OPS, r.pin)
  }

  ghost predicate Longest(p: Pin) {
    p.rest == "" || !IsVersion(p.rest[0])
  }

  lemma {:induction false} OpIsPrefix(ops: seq<string>, s: string)
    ensures OpAt(ops, s).Some? ==>
      OpAt(ops, s).value in ops && OpAt(ops, s).value <= s && HasVersion(s[|OpAt(ops, s).value|..])
    ensures forall op :: op in ops && op <= s && HasVersion(s[|op|..]) ==> OpAt(ops, s).Some?
    ensures ops != [] && ops[0] <= s && HasVersion(s[|ops[0]|..]) ==> OpAt(ops, s) == Some(ops[0])
  {
    if ops != [] { OpIsPrefix(ops[1..], s); }
  }

  lemma {:induction false} ExtrasSplit(s: string)
    ensures IsExtras(s[..ExtrasLength(s)])
  {
    if s != "" && s[0] == '[' {
      var n := Span(NotBracket, s);
      assert n > 0;
      if n < |s| { assert s[..n + 1][..n] == s[..n]; }
    }
  }

  lemma {:induction false} ExtrasOf(e: string, rest: string)
    requires IsExtras(e) && (e == "" ==> rest == "" || rest[0] != '[')
    ensures ExtrasLength(e + rest) == |e|
  {
    if e != "" {
      var n := |e| - 1;
      assert e + rest == e[..n] + (e[n..] + rest);
      SpanIs(NotBracket, e[..n], e[n..] + rest);
    }
  }

  lemma {:induction false} PinIsMatch(ops: seq<string>, s: string)
    requires ParsePin(ops, s).Some?
    ensures var p := ParsePin(ops, s).value; RenderPin(p) == s && PinInGrammar(ops, p) && Longest(p)
  {
    OpIsPrefix(ops, s);
    var op := OpAt(ops, s).value;
    var f := s[|op|..];
    var v := Span(IsSpace, f);
    var g := f[v..];
    var w := Span(IsVersion, g);
    Rejoin(g, w);
    Rejoin(f, v);
    Rejoin(s, |op|);
    assert ParsePin(ops, s) == Some(Pin(op, f[..v], g[..w], g[w..]));
  }

  lemma {:induction false} SpanIsAll(p: char -> bool, s: string)
    ensures All(p, s[..Span(p, s)])
  {
  }

  lemma {:induction false} HeadPieces(s: string)
    ensures var h := CutHead(s);
      All(IsSpace, h.indent) && All(IsName, h.name) && IsExtras(h.extras) && All(IsSpace, h.space)
  {
    var a := s[Span(IsSpace, s)..];
    var b := a[Span(IsName, a)..];
    var c := b[ExtrasLength(b)..];
    SpanIsAll(IsSpace, s);
    SpanIsAll(IsName, a);
    ExtrasSplit(b);
    SpanIsAll(IsSpace, c);
  }

  lemma {:induction false} HeadRejoins(s: string)
    ensures var h := CutHead(s); s == h.indent + (h.name + (h.extras + (h.space + h.tail)))
  {
    var i := Span(IsSpace, s);
    var a := s[i..];
    var n := Span(IsName, a);
    var b := a[n..];
    var e := ExtrasLength(b);
    var c := b[e..];
    var k := Span(IsSpace, c);
    Rejoin(c, k);
    Rejoin(b, e);
    Rejoin(a, n);
    Rejoin(s, i);
  }

  /** What the parser returns is a match: its groups spell the line, and the
      version is as long as it can be. */
  lemma {:induction false} ParseIsMatch(s: string)
    ensures Parse(s).Some? ==>
      Render(Parse(s).value) == s && InGrammar(Parse(s).value) && Longest(Parse(s).value.pin)
  {
    if Parse(s).Some? {
      HeadPieces(s);
      HeadRejoins(s);
      PinIsMatch(OPS, CutHead(s).tail);
    }
  }

  lemma {:induction false} OpStart(op: string, tail: string)
    requires op in OPS
    ensures var t := op + tail; t != "" && !IsSpace(t[0]) && !IsName(t[0]) && t[0] != '['
  {
  }

  lemma {:induction false} CutsAt(a: string, b: string)
    ensures (a + b)[..|a|] == a && (a + b)[|a|..] == b
    ensures a + b != "" ==> (a + b)[0] == if a == "" then b[0] else a[0]
  {
  }

  /** What follows the extras begins with none of the characters before it could take in. */
  lemma {:induction false} SpaceIsForced(space: string, d: string)
    requires All(IsSpace, space) && d != "" && !IsSpace(d[0]) && !IsName(d[0]) && d[0] != '['
    ensures var c := space + d; c != "" && !IsName(c[0]) && c[0] != '[' && Span(IsSpace, c) == |space|
  {
    CutsAt(space, d);
    SpanIs(IsSpace, space, d);
    if space != "" { assert IsSpace(space[0]); }
  }

  lemma {:induction false} ExtrasAreForced(extras: string, c: string)
    requires IsExtras(extras) && c != "" && !IsName(c[0]) && c[0] != '['
    ensures var b := extras + c; b != "" && !IsName(b[0]) && ExtrasLength(b) == |extras|
  {
    CutsAt(extras, c);
    ExtrasOf(extras, c);
  }

  lemma {:induction false} NameIsForced(name: string, b: string)
    requires All(IsName, name) && name != "" && b != "" && !IsName(b[0])
    ensures var a := name + b; a != "" && !IsSpace(a[0]) && Span(IsName, a) == |name|
  {
    CutsAt(name, b);
    SpanIs(IsName, name, b);
    assert IsName(name[0]);
  }

  /** The groups before the operator are forced. */
  lemma {:induction false} HeadIsForced(r: Req, d: string)
    requires HeadInGrammar(r) && d != "" && !IsSpace(d[0]) && !IsName(d[0]) && d[0] != '['
    ensures CutHead(RenderHead(r, d)) == Cut(r.indent, r.name, r.extras, r.space, d)
  {
    var c := r.space + d;
    var b := r.extras + c;
    var a := r.name + b;
    SpaceIsForced(r.space, d);
    ExtrasAreForced(r.extras, c);
    NameIsForced(r.name, b);
    SpanIs(IsSpace, r.indent, a);
    CutsAt(r.indent, a);
    CutsAt(r.name, b);
    CutsAt(r.extras, c);
    CutsAt(r.space, d);
  }

  lemma {:induction false} VersionFollows(vspace: string, version: string, rest: string)
    requires All(IsSpace, vspace) && version != "" && All(IsVersion, version)
    ensures var t := vspace + (version + rest);
      Span(IsSpace, t) == |vspace| && t[|vspace|..] == version + rest && HasVersion(t)
    ensures rest == "" || !IsVersion(rest[0]) ==> Span(IsVersion, version + rest) == |version|
  {
    assert IsVersion(version[0]) && (version + rest)[0] == version[0];
    SpanIs(IsSpace, vspace, version + rest);
    if rest == "" || !IsVersion(rest[0]) { SpanIs(IsVersion, version, rest); }
  }

  lemma {:induction false} PinParses(ops: seq<string>, p: Pin)
    requires ops != [] && PinInGrammar(ops, p)
    ensures ParsePin(ops, RenderPin(p)).Some?
    ensures p.op == ops[0] && Longest(p) ==> ParsePin(ops, RenderPin(p)) == Some(p)
  {
    var tail := p.vspace + (p.version + p.rest);
    VersionFollows(p.vspace, p.version, p.rest);
    var d := RenderPin(p);
    assert d == p.op + tail && d[|p.op|..] == tail && p.op <= d;
    OpIsPrefix(ops, d);
  }

  lemma {:induction false} CutParses(ops: seq<string>, r: Req, d: string)
    requires HeadInGrammar(r) && ops != [] && PinInGrammar(ops, r.pin) && d == RenderPin(r.pin)
    ensures var h := Cut(r.indent, r.name, r.extras, r.space, d);
      ParseCut(ops, h).Some? && (r.pin.op == ops[0] && Longest(r.pin) ==> ParseCut(ops, h) == Some(r))
  {
    PinParses(ops, r.pin);
  }

  /** The parser finds a match whenever there is one, and a rendered exact pin
      parses back to its own groups. */
  lemma {:induction false} ParseIsComplete(r: Req)
    requires InGrammar(r)
    ensures Parse(Render(r)).Some?
    ensures r.pin.op == "==" && Longest(r.pin) ==> Parse(Render(r)) == Some(r)
  {
    OpStart(r.pin.op, r.pin.vspace + (r.pin.version + r.pin.rest));
    HeadIsForced(r, RenderPin(r.pin));
    CutParses(OPS, r, RenderPin(r.pin));
  }

  lemma {:induction false} SpanAtLeast(p: char -> bool, a: string, b: string)
    requires All(p, a)
    ensures Span(p, a + b) >= |a|
    decreases |a|
  {
    if a != "" {
      assert (a + b)[1..] == a[1..] + b;
      SpanAtLeast(p, a[1..], b);
    }
  }

  /** No alternative before the one chosen could have been followed by a version. */
  lemma {:induction false} OpIsEarliest(ops: seq<string>, s: string, k: nat)
    requires k < |ops| && ops[k] <= s && HasVersion(s[|ops[k]|..])
    ensures OpAt(ops, s).Some? && exists i :: 0 <= i <= k && ops[i] == OpAt(ops, s).value
    decreases k
  {
    if !(ops[0] <= s && HasVersion(s[|ops[0]|..])) {
      OpIsEarliest(ops[1..], s, k - 1);
      var i :| 0 <= i <= k - 1 && ops[1..][i] == OpAt(ops[1..], s).value;
      assert ops[i + 1] == OpAt(ops, s).value;
    }
  }

  ghost predicate LongestFirst(ops: seq<string>) {
    forall i, k :: 0 <= i <= k < |ops| ==> |ops[i]| >= |ops[k]|
  }

  lemma {:induction false} OpIsLongest(ops: seq<string>, op: string, tail: string)
    requires LongestFirst(ops) && op in ops && HasVersion(tail)
    ensures OpAt(ops, op + tail).Some? && |OpAt(ops, op + tail).value| >= |op|
  {
    var k :| 0 <= k < |ops| && ops[k] == op;
    assert (op + tail)[|op|..] == tail && op <= op + tail;
    OpIsEarliest(ops, op + tail, k);
  }

  /** After the same operator: the same white space, and a version at least as long. */
  lemma {:induction false} SameOpPrefers(ops: seq<string>, q: Pin)
    requires PinInGrammar(ops, q) && OpAt(ops, RenderPin(q)) == Some(q.op)
    ensures ParsePin(ops, RenderPin(q)).Some?
    ensures var p := ParsePin(ops, RenderPin(q)).value;
      p.op == q.op && p.vspace == q.vspace && |q.version| <= |p.version|
  {
    var tail := q.vspace + (q.version + q.rest);
    VersionFollows(q.vspace, q.version, q.rest);
    SpanAtLeast(IsVersion, q.version, q.rest);
    assert (q.op + tail)[|q.op|..] == tail && tail[..|q.vspace|] == q.vspace;
  }

  lemma {:induction false} PinIsPreferred(ops: seq<string>, q: Pin)
    requires LongestFirst(ops) && PinInGrammar(ops, q)
    ensures ParsePin(ops, RenderPin(q)).Some?
    ensures var p := ParsePin(ops, RenderPin(q)).value;
      |q.op| <= |p.op| && (q.op == p.op ==> q.vspace == p.vspace && |q.version| <= |p.version|)
  {
    VersionFollows(q.vspace, q.version, q.rest);
    OpIsLongest(ops, q.op, q.vspace + (q.version + q.rest));
    if OpAt(ops, RenderPin(q)).value == q.op { SameOpPrefers(ops, q); }
  }

  lemma {:induction false} CutPrefers(ops: seq<string>, q: Req, d: string)
    requires LongestFirst(ops) && HeadInGrammar(q) && PinInGrammar(ops, q.pin) && d == RenderPin(q.pin)
    ensures var found := ParseCut(ops, Cut(q.indent, q.name, q.extras, q.space, d));
      found.Some? && Prefers(found.value, q)
  {
    PinIsPreferred(ops, q.pin);
  }

  /** The same groups before the operator, an operator no shorter, and then a version no shorter. */
  ghost predicate Prefers(r: Req, q: Req) {
    && r.indent == q.indent && r.name == q.name && r.extras == q.extras && r.space == q.space
    && |q.pin.op| <= |r.pin.op|
    && (q.pin.op == r.pin.op ==> q.pin.vspace == r.pin.vspace && |q.pin.version| <= |r.pin.version|)
  }

  lemma {:induction false} OpsAreLongestFirst()
    ensures LongestFirst(OPS)
  {
  }

  /** Of all the ways a line matches, the parser takes the one the expression takes: the
      groups before the operator are forced, and operator and version are the longest. */
  lemma {:induction false} ParseIsPreferred(q: Req)
    requires InGrammar(q)
    ensures Parse(Render(q)).Some? && Prefers(Parse(Render(q)).value, q)
  {
    OpStart(q.pin.op, q.pin.vspace + (q.pin.version + q.pin.rest));
    HeadIsForced(q, RenderPin(q.pin));
    OpsAreLongestFirst();
    CutPrefers(OPS, q, RenderPin(q.pin));
  }

  // ---------------------------------------------------------------- names

  predicate IsSeparator(c: char) {
    c in {'-', '_', '.'}
  }

  function Lower(c: char): char {
    if 'A' <= c <= 'Z' then c - 'A' + 'a' else c
  }

  /** Section "Normalized Names" of PEP 503: runs of separators become "-", and case is dropped. */
  function Normalised(name: string): string {
    if name == "" then ""
    else if IsSeparator(name[0]) then
      (if 1 < |name| && IsSeparator(name[1]) then "" else "-") + Normalised(name[1..])
    else [Lower(name[0])] + Normalised(name[1..])
  }

  const CANONICAL: map<string, string> := map[
    "fastapi" := "0.141.1", "starlette" := "1.6.0", "pydantic" := "2.13.5", "uvicorn" := "0.52.4", "redis" := "8.1.0"]

  function CanonicalKey(name: string): Option<string> {
    if Normalised(name) in CANONICAL then Some(Normalised(name)) else None
  }

  function Lowered(name: string): (r: string)
    ensures |r| == |name| && forall i :: 0 <= i < |r| ==> r[i] == Lower(name[i])
  {
    if name == "" then "" else [Lower(name[0])] + Lowered(name[1..])
  }

  lemma {:induction false} SeparatorLeavesDash(name: string, i: nat)
    requires i < |name| && IsSeparator(name[i])
    ensures '-' in Normalised(name)
    decreases |name|
  {
    if i > 0 {
      SeparatorLeavesDash(name[1..], i - 1);
    } else if 1 < |name| && IsSeparator(name[1]) {
      SeparatorLeavesDash(name[1..], 0);
    }
  }

  lemma {:induction false} NormalisedPlain(name: string)
    requires forall c :: c in name ==> !IsSeparator(c)
    ensures Normalised(name) == Lowered(name)
    decreases |name|
  {
    if name != "" { NormalisedPlain(name[1..]); }
  }

  lemma {:induction false} KeysArePlain(key: string)
    requires key in CANONICAL
    ensures forall c :: c in key ==> !IsSeparator(c)
  {
  }

  /** No separator survives into a canonical key, so a name refers to one exactly
      when dropping its case gives the key: "Fast-API" is not "fastapi". */
  lemma {:induction false} KeyOnlyDropsCase(name: string)
    ensures CanonicalKey(name) == if Lowered(name) in CANONICAL then Some(Lowered(name)) else None
  {
    if i :| 0 <= i < |name| && IsSeparator(name[i]) {
      SeparatorLeavesDash(name, i);
      assert Lowered(name)[i] == name[i];
      if Normalised(name) in CANONICAL { KeysArePlain(Normalised(name)); }
      if Lowered(name) in CANONICAL { KeysArePlain(Lowered(name)); }
    } else {
      NormalisedPlain(name);
    }
  }
}
