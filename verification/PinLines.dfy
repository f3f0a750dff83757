/** What becomes of one requirements line, in its own characters: the character classes, the
    operators and the version table are written out here, apart from the parser. */
module PinLines {
  import opened Sequences
  import opened Wrappers
  import R = Requirements
  import opened Pins
  import opened PinTheorems

  /** The characters `str.isspace` holds of. */
  ghost predicate White(c: char) {
    c in {
      '\U{0009}', '\U{000A}', '\U{000B}', '\U{000C}', '\U{000D}', '\U{001C}', '\U{001D}', '\U{001E}', '\U{001F}',
      '\U{0020}', '\U{0085}', '\U{00A0}', '\U{1680}', '\U{2000}', '\U{2001}', '\U{2002}', '\U{2003}', '\U{2004}',
      '\U{2005}', '\U{2006}', '\U{2007}', '\U{2008}', '\U{2009}', '\U{200A}', '\U{2028}', '\U{2029}', '\U{202F}',
      '\U{205F}', '\U{3000}'
    }
  }

  /** The characters of a distribution name. */
  ghost predicate Nominal(c: char) {
    || c in {'A', 'B', 'C', 'D', 'E', 'F', 'G', 'H', 'I', 'J', 'K', 'L', 'M'}
    || c in {'N', 'O', 'P', 'Q', 'R', 'S', 'T', 'U', 'V', 'W', 'X', 'Y', 'Z'}
    || c in {'a', 'b', 'c', 'd', 'e', 'f', 'g', 'h', 'i', 'j', 'k', 'l', 'm'}
    || c in {'n', 'o', 'p', 'q', 'r', 's', 't', 'u', 'v', 'w', 'x', 'y', 'z'}
    || c in {'0', '1', '2', '3', '4', '5', '6', '7', '8', '9', '.', '_', '-'}
  }

  lemma {:induction false} SpacesAre(c: char)
    ensures R.IsSpace(c) <==> White(c)
  {
  }

  lemma {:induction false} NamesAre(c: char)
    ensures R.IsName(c) <==> Nominal(c)
  {
  }

  lemma {:induction false} VersionsAre(c: char)
    ensures R.IsVersion(c) <==> !White(c) && c != ';' && c != '#'
  {
    SpacesAre(c);
  }

  /** The pieces of a line. */
  datatype Line = Line(indent: string, name: string, extras: string, space: string, op: string, vspace: string,
                       version: string, rest: string, ending: string)
  {
    /** The line with this version in the place of its own. */
    function With(v: string): string {
      indent + (name + (extras + (space + (op + (vspace + (v + (rest + ending)))))))
    }

    function WithoutEnding(v: string): string {
      this.(ending := "").With(v)
    }
  }

  ghost predicate AllWhite(s: string) {
    forall i :: 0 <= i < |s| ==> White(s[i])
  }

  ghost predicate Bracketed(s: string) {
    2 <= |s| && s[0] == '[' && s[|s| - 1] == ']' && forall i :: 0 <= i < |s| - 1 ==> s[i] != ']'
  }

  ghost predicate IsLine(l: Line) {
    && AllWhite(l.indent) && AllWhite(l.space) && AllWhite(l.vspace)
    && l.name != "" && (forall i :: 0 <= i < |l.name| ==> Nominal(l.name[i]))
    && (l.extras == "" || Bracketed(l.extras))
    && l.op in {"==", ">=", "<=", "~=", "!=", ">", "<"}
    && l.version != "" && (forall i :: 0 <= i < |l.version| ==>
         !White(l.version[i]) && l.version[i] != ';' && l.version[i] != '#')
    && (l.rest == "" || White(l.rest[0]) || l.rest[0] == ';' || l.rest[0] == '#')
    && (l.rest == "" || (l.rest[|l.rest| - 1] != '\r' && l.rest[|l.rest| - 1] != '\n'))
    && (forall i :: 0 <= i < |l.ending| ==> l.ending[i] == '\r' || l.ending[i] == '\n')
  }

  /** The name is the key, in any mixture of cases. */
  ghost predicate Refers(name: string, key: string) {
    && |name| == |key|
    && forall i :: 0 <= i < |key| ==>
         name[i] == key[i] || ('A' <= name[i] <= 'Z' && name[i] as int + 32 == key[i] as int)
  }

  ghost predicate IsCanonical(key: string, target: string) {
    || (key == "fastapi" && target == "0.141.1")
    || (key == "starlette" && target == "1.6.0")
    || (key == "pydantic" && target == "2.13.5")
    || (key == "uvicorn" && target == "0.52.4")
    || (key == "redis" && target == "8.1.0")
  }

  // ---------------------------------------------------------------- the parser's terms

  function ReqOf(l: Line): R.Req {
    R.Req(l.indent, l.name, l.extras, l.space, R.Pin(l.op, l.vspace, l.version, l.rest))
  }

  lemma {:induction false} AllSpaces(s: string)
    ensures R.All(R.IsSpace, s) <==> AllWhite(s)
  {
    forall i | 0 <= i < |s| ensures R.IsSpace(s[i]) <==> White(s[i]) { SpacesAre(s[i]); }
  }

  lemma {:induction false} AllNames(s: string)
    ensures R.All(R.IsName, s) <==> forall i :: 0 <= i < |s| ==> Nominal(s[i])
  {
    forall i | 0 <= i < |s| ensures R.IsName(s[i]) <==> Nominal(s[i]) { NamesAre(s[i]); }
  }

  lemma {:induction false} AllVersions(s: string)
    ensures R.All(R.IsVersion, s) <==> forall i :: 0 <= i < |s| ==> !White(s[i]) && s[i] != ';' && s[i] != '#'
  {
    forall i | 0 <= i < |s| ensures R.IsVersion(s[i]) <==> !White(s[i]) && s[i] != ';' && s[i] != '#' {
      VersionsAre(s[i]);
    }
  }

  lemma {:induction false} OpsAre(op: string)
    ensures op in R.OPS <==> op in {"==", ">=", "<=", "~=", "!=", ">", "<"}
  {
  }

  lemma {:induction false} ExtrasAre(s: string)
    ensures R.IsExtras(s) <==> s == "" || Bracketed(s)
  {
  }

  /** The pieces written out are the groups of the expression. */
  lemma {:induction false} LineIsReq(l: Line)
    ensures IsLine(l) ==> R.InGrammar(ReqOf(l)) && R.Longest(ReqOf(l).pin)
    ensures R.InGrammar(ReqOf(l)) && R.Longest(ReqOf(l).pin) && IsBody(l.rest) && IsEnding(l.ending) ==> IsLine(l)
  {
    AllSpaces(l.indent);
    AllSpaces(l.space);
    AllSpaces(l.vspace);
    AllNames(l.name);
    AllVersions(l.version);
    OpsAre(l.op);
    ExtrasAre(l.extras);
    if l.rest != "" { VersionsAre(l.rest[0]); }
  }

  ghost predicate IsBody(s: string) {
    s == "" || (s[|s| - 1] != '\r' && s[|s| - 1] != '\n')
  }

  ghost predicate IsEnding(s: string) {
    forall i :: 0 <= i < |s| ==> s[i] == '\r' || s[i] == '\n'
  }

  lemma {:induction false} WithIs(l: Line, v: string)
    ensures l.With(v) == R.Render(Retargeted(ReqOf(l), v)) + l.ending
    ensures l.WithoutEnding(v) == R.Render(Retargeted(ReqOf(l), v))
  {
    Spelled(Retargeted(ReqOf(l), v), l.ending);
    Spelled(Retargeted(ReqOf(l), v), "");
    Apart(l.indent, l.name, l.extras, l.space, l.op, l.vspace, v + (l.rest + l.ending));
    Apart(l.indent, l.name, l.extras, l.space, l.op, l.vspace, v + (l.rest + ""));
    var r := R.Render(Retargeted(ReqOf(l), v));
    assert r + "" == r;
  }

  lemma {:induction false} Apart(a: string, b: string, c: string, d: string, e: string, f: string, g: string)
    ensures a + (b + (c + (d + (e + (f + g))))) == (a + (b + (c + (d + (e + f))))) + g
  {
    Associates(e, f, g);
    Associates(d, e + f, g);
    Associates(c, d + (e + f), g);
    Associates(b, c + (d + (e + f)), g);
    Associates(a, b + (c + (d + (e + f))), g);
  }

  lemma {:induction false} BodyIs(l: Line, v: string)
    requires IsBody(l.rest) && IsEnding(l.ending) && v != "" && !IsLineEnding(v[|v| - 1])
    ensures Body(l.With(v)) == l.WithoutEnding(v) && Ending(l.With(v)) == l.ending
  {
    WithIs(l, v);
    LastCharacter(Retargeted(ReqOf(l), v));
    BodyOf(l.WithoutEnding(v), l.ending);
  }

  lemma {:induction false} KeyIs(name: string, key: string)
    ensures R.Lowered(name) == key <==> Refers(name, key) && forall i :: 0 <= i < |key| ==> !('A' <= key[i] <= 'Z')
  {
    if Refers(name, key) && forall i :: 0 <= i < |key| ==> !('A' <= key[i] <= 'Z') {
      forall i | 0 <= i < |key| ensures R.Lowered(name)[i] == key[i] {
      }
    }
  }

  lemma {:induction false} TableIs(key: string, target: string)
    ensures key in R.CANONICAL && R.CANONICAL[key] == target <==> IsCanonical(key, target)
    ensures key in R.CANONICAL ==> forall i :: 0 <= i < |key| ==> !('A' <= key[i] <= 'Z')
  {
  }

  lemma {:induction false} ReferenceIs(name: string, key: string, target: string)
    ensures Refers(name, key) && IsCanonical(key, target) <==>
      R.CanonicalKey(name) == Some(key) && R.CANONICAL[key] == target
  {
    R.KeyOnlyDropsCase(name);
    KeyIs(name, key);
    TableIs(key, target);
  }

  // ---------------------------------------------------------------- the verdict

  /** The line is an exact pin of a canonical package at another version. */
  ghost predicate IsStale(line: string, l: Line, key: string, target: string) {
    && IsLine(l) && line == l.With(l.version) && l.op == "=="
    && Refers(l.name, key) && IsCanonical(key, target) && l.version != target
  }

  /** Such a line gets the canonical version in the place of its own and is otherwise kept, white
      space, extras, marker, comment and line ending; the report quotes it without its ending. */
  lemma {:induction false} StaleIsRewritten(line: string, l: Line, key: string, target: string)
    requires IsStale(line, l, key, target)
    ensures AlignLine(line) == Changed(l.WithoutEnding(l.version), l.WithoutEnding(target), l.With(target))
  {
    var r := ReqOf(l);
    LineIsReq(l);
    ReferenceIs(l.name, key, target);
    WithIs(l, l.version);
    WithIs(l, target);
    VersionEnds(l.version);
    BodyIs(l, l.version);
    TargetsAreVersions(key);
    VersionEnds(target);
    BodyIs(l, target);
    assert Retargeted(r, l.version) == r;
    R.ParseIsComplete(r);
  }

  lemma {:induction false} VersionEnds(v: string)
    requires v != "" && R.All(R.IsVersion, v)
    ensures !IsLineEnding(v[|v| - 1])
  {
    assert R.IsVersion(v[|v| - 1]);
  }

  /** Main result on one line: these lines and no others are rewritten. */
  lemma {:induction false} RewrittenExactlyWhenStale(line: string)
    ensures AlignLine(line).Changed? <==> exists l, key, target :: IsStale(line, l, key, target)
  {
    if AlignLine(line).Changed? {
      var l, key, target := PiecesOf(line);
    }
    if l, key, target :| IsStale(line, l, key, target) { StaleIsRewritten(line, l, key, target); }
  }

  lemma {:induction false} PiecesOf(line: string) returns (l: Line, key: string, target: string)
    requires AlignLine(line).Changed?
    ensures IsStale(line, l, key, target)
  {
    ChangedIsStale(line);
    var r := R.Parse(Body(line)).value;
    l := LineOf(line, r);
    key := R.CanonicalKey(r.name).value;
    target := R.CANONICAL[key];
    ReferenceIs(r.name, key, target);
  }

  lemma {:induction false} LineOf(line: string, r: R.Req) returns (l: Line)
    requires R.InGrammar(r) && R.Longest(r.pin) && R.Render(r) == Body(line)
    ensures IsLine(l) && line == l.With(l.version) && ReqOf(l) == r
  {
    l := Line(r.indent, r.name, r.extras, r.space, r.pin.op, r.pin.vspace, r.pin.version, r.pin.rest, Ending(line));
    LastCharacter(r);
    EndingIsBreaks(line);
    LineIsReq(l);
    WithIs(l, l.version);
    assert Retargeted(r, l.version) == r;
    Split(line);
  }

  lemma {:induction false} Parses(line: string, l: Line)
    requires IsLine(l) && line == l.With(l.version)
    ensures Body(line) == R.Render(ReqOf(l)) && R.InGrammar(ReqOf(l))
    ensures l.op == "==" ==> R.Parse(Body(line)) == Some(ReqOf(l))
  {
    LineIsReq(l);
    WithIs(l, l.version);
    VersionEnds(l.version);
    BodyIs(l, l.version);
    assert Retargeted(ReqOf(l), l.version) == ReqOf(l);
    R.ParseIsComplete(ReqOf(l));
  }

  /** The line names no canonical package, or the version it should have. */
  ghost predicate IsCurrent(l: Line) {
    forall key, target :: Refers(l.name, key) && IsCanonical(key, target) ==> l.version == target
  }

  /** An exact pin already at its target, and a line that names no canonical package, are left alone. */
  lemma {:induction false} OthersAreLeft(line: string, l: Line)
    requires IsLine(l) && line == l.With(l.version) && l.op == "=="
    requires IsCurrent(l)
    ensures AlignLine(line) == Untouched
  {
    Parses(line, l);
    if R.CanonicalKey(l.name).Some? {
      CurrentIsTarget(l, R.CanonicalKey(l.name).value);
      OnTarget(line, ReqOf(l));
    } else {
      NoKey(line, ReqOf(l));
    }
  }

  lemma {:induction false} CurrentIsTarget(l: Line, key: string)
    requires IsCurrent(l) && R.CanonicalKey(l.name) == Some(key)
    ensures l.version == R.CANONICAL[key]
  {
    ReferenceIs(l.name, key, R.CANONICAL[key]);
  }

  lemma {:induction false} NoKey(line: string, r: R.Req)
    requires R.Parse(Body(line)) == Some(r) && R.CanonicalKey(r.name).None?
    ensures AlignLine(line) == Untouched
  {
  }

  /** A canonical package under another operator is noted with that operator, which is the longest
      the line allows: "> =1" is ">", and ">=1" is ">=". */
  lemma {:induction false} OthersAreNoted(line: string, l: Line, key: string, target: string)
    requires IsLine(l) && line == l.With(l.version) && Refers(l.name, key) && IsCanonical(key, target)
    requires l.op in {">=", "<=", "~=", "!="} || (l.op in {">", "<"} && (l.vspace != "" || l.version[0] != '='))
    ensures AlignLine(line) == Noted(l.op)
  {
    var r := ReqOf(l);
    Parses(line, l);
    ReferenceIs(l.name, key, target);
    R.ParseIsPreferred(r);
    R.ParseIsMatch(R.Render(r));
    SameOp(r, R.Parse(R.Render(r)).value);
  }

  /** Two matches of one line with the same groups before the operator have the same operator,
      if the shorter one could not be longer. */
  lemma {:induction false} SameOp(r: R.Req, p: R.Req)
    requires R.InGrammar(r) && R.InGrammar(p) && R.Render(r) == R.Render(p) && R.Prefers(p, r)
    requires |r.pin.op| == 2 || (r.pin.op in {">", "<"} && (r.pin.vspace != "" || r.pin.version[0] != '='))
    ensures p.pin.op == r.pin.op
  {
    var s, t := R.RenderPin(r.pin), R.RenderPin(p.pin);
    SameTail(r, s, t);
    assert s[..|r.pin.op|] == r.pin.op && t[..|p.pin.op|] == p.pin.op;
    if |r.pin.op| == 1 {
      var tail := r.pin.vspace + (r.pin.version + r.pin.rest);
      assert s == r.pin.op + tail && s[1] == tail[0];
      if r.pin.vspace != "" {
        assert R.IsSpace(r.pin.vspace[0]) && tail[0] == r.pin.vspace[0];
      } else {
        assert tail[0] == r.pin.version[0];
      }
    }
  }

  lemma {:induction false} SameTail(r: R.Req, s: string, t: string)
    requires R.RenderHead(r, s) == R.RenderHead(r, t)
    ensures s == t
  {
    var front := r.indent + (r.name + (r.extras + r.space));
    HeadApart(r, s);
    HeadApart(r, t);
    assert (front + s)[|front|..] == s && (front + t)[|front|..] == t;
  }

  lemma {:induction false} HeadApart(r: R.Req, s: string)
    ensures R.RenderHead(r, s) == (r.indent + (r.name + (r.extras + r.space))) + s
  {
    Associates(r.extras, r.space, s);
    Associates(r.name, r.extras + r.space, s);
    Associates(r.indent, r.name + (r.extras + r.space), s);
  }
}
