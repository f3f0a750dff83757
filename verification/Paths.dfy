/** The lexical layer of Dimensionals/path_validation.py on POSIX paths. A path is
    the sequence of its components below the root; `resolve` is what realpath does
    on the file system at hand. */
module Paths {
  type Path = seq<string>
  type Resolver = Path -> Path

  datatype Probe = Present | Absent | ProbeError
  datatype PathResult = Resolved(path: Path) | PathTraversal | FileMissing | EmptyComponent

  const SLASH: set<char> := {'/'}
  const SLASHES: set<char> := {'/', '\\'}

  function Segments(s: string, seps: set<char>): (r: seq<string>)
    ensures r != []
  {
    if s == "" then [""]
    else
      var rest := Segments(s[1..], seps);
      if s[0] in seps then [""] + rest else [[s[0]] + rest[0]] + rest[1..]
  }

  /** pathlib drops empty and "." segments. */
  function Named(segments: seq<string>): Path {
    if segments == [] then []
    else (if segments[0] == "" || segments[0] == "." then [] else [segments[0]]) + Named(segments[1..])
  }

  function Parts(raw: string): Path {
    Named(Segments(raw, SLASH))
  }

  predicate IsAbsolute(raw: string) {
    raw != "" && raw[0] == '/'
  }

  /** `base / raw`: an absolute right side replaces the left one. */
  function Under(base: Path, raw: string): Path {
    if IsAbsolute(raw) then Parts(raw) else base + Parts(raw)
  }

  predicate HasDots(s: string) {
    exists i | 0 <= i < |s| - 1 :: s[i] == '.' && s[i + 1] == '.'
  }

  /** `_TRAVERSAL_PATTERN.search`. */
  predicate Suspicious(raw: string) {
    HasDots(raw) || '\0' in raw
  }

  predicate HasParentTraversal(raw: string) {
    '\0' in raw || ".." in Segments(raw, SLASHES)
  }

  function Contained(resolved: Path, base: Path): PathResult {
    if base <= resolved then Resolved(resolved) else PathTraversal
  }

  function Checked(r: PathResult, probe: Path -> Probe, mustExist: bool, allowCreate: bool): PathResult {
    if !r.Resolved? || (!mustExist && allowCreate) then r
    else
      match probe(r.path)
      case Present => r
      case Absent => FileMissing
      case ProbeError => PathTraversal
  }

  function ValidatePath(resolve: Resolver, probe: Path -> Probe, raw: string, baseDir: Path,
                        mustExist: bool, allowCreate: bool): (r: PathResult)
    ensures r.Resolved? ==> resolve(baseDir) <= r.path && r.path == resolve(Under(resolve(baseDir), raw))
    ensures r.Resolved? && (mustExist || !allowCreate) ==> probe(r.path) == Present
  {
    var base := resolve(baseDir);
    if raw == "" || Suspicious(raw) then PathTraversal
    else Checked(Contained(resolve(Under(base, raw)), base), probe, mustExist, allowCreate)
  }

  /** First complaint about a component, in the order the loop finds it. */
  function Complaint(components: seq<string>): PathResult {
    if components == [] then Resolved([])
    else if components[0] == "" then EmptyComponent
    else if Suspicious(components[0]) || IsAbsolute(components[0]) then PathTraversal
    else Complaint(components[1..])
  }

  function UnderAll(base: Path, components: seq<string>): Path
    decreases |components|
  {
    if components == [] then base
    else Under(UnderAll(base, components[..|components| - 1]), components[|components| - 1])
  }

  function SafeJoin(resolve: Resolver, baseDir: Path, components: seq<string>): (r: PathResult)
    ensures r.Resolved? ==> resolve(baseDir) <= r.path
  {
    var base := resolve(baseDir);
    if components == [] then Resolved(base)
    else if !Complaint(components).Resolved? then Complaint(components)
    else Contained(resolve(UnderAll(base, components)), base)
  }

  // ---------------------------------------------------------------- strings

  lemma {:induction false} TailOfJoin(a: string, b: string)
    ensures a == "" ==> (a + "/" + b)[1..] == b && (a + "/" + b)[0] == '/'
    ensures a != "" ==> (a + "/" + b)[1..] == a[1..] + "/" + b && (a + "/" + b)[0] == a[0]
  {
  }

  lemma {:induction false} Prepends(head: string, x: seq<string>, y: seq<string>)
    requires x != []
    ensures [head] + (x + y) == ([head] + x) + y
    ensures [head + (x + y)[0]] + (x + y)[1..] == ([head + x[0]] + x[1..]) + y
  {
  }

  lemma {:induction false} SegmentsOfJoin(a: string, b: string)
    ensures Segments(a + "/" + b, SLASH) == Segments(a, SLASH) + Segments(b, SLASH)
    decreases |a|
  {
    TailOfJoin(a, b);
    if a != "" {
      SegmentsOfJoin(a[1..], b);
      Prepends(if a[0] in SLASH then "" else [a[0]], Segments(a[1..], SLASH), Segments(b, SLASH));
    }
  }

  lemma {:induction false} NamedAppends(x: seq<string>, y: seq<string>)
    ensures Named(x + y) == Named(x) + Named(y)
    decreases |x|
  {
    if x == [] {
      assert x + y == y;
    } else {
      NamedAppends(x[1..], y);
      var head := if x[0] == "" || x[0] == "." then [] else [x[0]];
      assert (x + y)[1..] == x[1..] + y && (x + y)[0] == x[0];
      assert head + (Named(x[1..]) + Named(y)) == head + Named(x[1..]) + Named(y);
    }
  }

  lemma {:induction false} PartsOfJoin(a: string, b: string)
    ensures Parts(a + "/" + b) == Parts(a) + Parts(b)
  {
    SegmentsOfJoin(a, b);
    NamedAppends(Segments(a, SLASH), Segments(b, SLASH));
  }

  lemma {:induction false} FirstSegmentIsPrefix(s: string, seps: set<char>)
    ensures Segments(s, seps)[0] <= s
  {
    if s != "" {
      FirstSegmentIsPrefix(s[1..], seps);
    }
  }

  lemma {:induction false} DotDotSegmentHasDots(s: string, seps: set<char>)
    requires ".." in Segments(s, seps)
    ensures HasDots(s)
  {
    if s != "" {
      var rest := Segments(s[1..], seps);
      if ".." in rest {
        DotDotSegmentHasDots(s[1..], seps);
        var i :| 0 <= i < |s[1..]| - 1 && s[1..][i] == '.' && s[1..][i + 1] == '.';
        assert s[i + 1] == '.' && s[i + 2] == '.';
      } else {
        FirstSegmentIsPrefix(s[1..], seps);
        var seg := [s[0]] + rest[0];
        assert seg == ".." && seg[0] == s[0] && seg[1] == rest[0][0];
        assert s[0] == '.' && s[0 + 1] == '.';
      }
    }
  }

  lemma {:induction false} DotsOfJoin(a: string, b: string)
    ensures HasDots(a + "/" + b) <==> HasDots(a) || HasDots(b)
    ensures '\0' in a + "/" + b <==> '\0' in a || '\0' in b
  {
    var s := a + "/" + b;
    if HasDots(a) {
      var i :| 0 <= i < |a| - 1 && a[i] == '.' && a[i + 1] == '.';
      assert s[i] == '.' && s[i + 1] == '.';
    }
    if HasDots(b) {
      var i :| 0 <= i < |b| - 1 && b[i] == '.' && b[i + 1] == '.';
      assert s[|a| + 1 + i] == '.' && s[|a| + 1 + (i + 1)] == '.';
    }
    if HasDots(s) {
      var i :| 0 <= i < |s| - 1 && s[i] == '.' && s[i + 1] == '.';
      if i < |a| {
        assert i + 1 != |a|;
        assert a[i] == '.' && a[i + 1] == '.';
      } else {
        assert b[i - |a| - 1] == '.' && b[i - |a| - 1 + 1] == '.';
      }
    }
  }

  // ---------------------------------------------------------------- guards

  /** The segment test rejects less than the substring test, and strictly less. */
  lemma {:induction false} GuardsCompared(raw: string)
    ensures HasParentTraversal(raw) ==> Suspicious(raw)
    ensures Suspicious("a..b") && !HasParentTraversal("a..b")
  {
    if ".." in Segments(raw, SLASHES) { DotDotSegmentHasDots(raw, SLASHES); }
    assert "a..b"[1] == '.' && "a..b"[1 + 1] == '.';
    OneSegment("a..b", SLASHES);
  }

  lemma {:induction false} OneSegment(s: string, seps: set<char>)
    requires forall i :: 0 <= i < |s| ==> s[i] !in seps
    ensures Segments(s, seps) == [s]
  {
    if s != "" {
      OneSegment(s[1..], seps);
      assert [s[0]] + s[1..] == s;
    }
  }

  // ---------------------------------------------------------------- symlink-free trees

  /** realpath where no component is a symlink. */
  function Normalise(p: Path): Path
    decreases |p|
  {
    if p == [] then []
    else
      var init, last := Normalise(p[..|p| - 1]), p[|p| - 1];
      if last != ".." then init + [last] else if init == [] then [] else init[..|init| - 1]
  }

  /** A name is a step down, and ".." takes the step before it back, as far as the root. */
  lemma {:induction false} NormaliseSteps(p: Path, name: string)
    ensures name != ".." ==> Normalise(p + [name]) == Normalise(p) + [name]
    ensures name != ".." ==> Normalise(p + [name] + [".."]) == Normalise(p)
    ensures Normalise(p) == [] ==> Normalise(p + [".."]) == []
  {
    assert (p + [name])[..|p|] == p && (p + [".."])[..|p|] == p;
    assert (p + [name] + [".."])[..|p| + 1] == p + [name];
  }

  lemma {:induction false} NormaliseIdle(p: Path)
    requires ".." !in p
    ensures Normalise(p) == p
    decreases |p|
  {
    if p != [] {
      NormaliseIdle(p[..|p| - 1]);
      assert p[..|p| - 1] + [p[|p| - 1]] == p;
    }
  }

  lemma {:induction false} NormalIsClean(p: Path)
    ensures ".." !in Normalise(p)
    decreases |p|
  {
    if p != [] { NormalIsClean(p[..|p| - 1]); }
  }

  /** The components a validated path has below base hold no "..", for any resolver that
      leaves none; resolution on a symlink-free tree is one. */
  lemma {:induction false} ValidatedPartsAreClean(resolve: Resolver, probe: Path -> Probe, raw: string, baseDir: Path,
                                                  mustExist: bool, allowCreate: bool)
    requires forall p :: ".." !in resolve(p)
    ensures var r := ValidatePath(resolve, probe, raw, baseDir, mustExist, allowCreate);
      r.Resolved? ==> resolve(baseDir) <= r.path && ".." !in r.path[|resolve(baseDir)|..]
    ensures forall p :: ".." !in Normalise(p)
  {
    forall p ensures ".." !in Normalise(p) { NormalIsClean(p); }
  }

  lemma {:induction false} NamedKeeps(x: seq<string>, s: string)
    requires s in Named(x)
    ensures s in x
    decreases |x|
  {
    if x != [] && s in Named(x[1..]) { NamedKeeps(x[1..], s); }
  }

  /** On a symlink-free tree every relative input without a ".." segment passes
      containment; an absolute one passes exactly when base is a prefix of it. */
  lemma {:induction false} ContainmentOnPlainTree(baseDir: Path, raw: string)
    requires ".." !in Segments(raw, SLASH)
    ensures var base := Normalise(baseDir);
            Contained(Normalise(Under(base, raw)), base) ==
            if !IsAbsolute(raw) then Resolved(base + Parts(raw))
            else if base <= Parts(raw) then Resolved(Parts(raw)) else PathTraversal
  {
    var base := Normalise(baseDir);
    NormalIsClean(baseDir);
    if ".." in Parts(raw) { NamedKeeps(Segments(raw, SLASH), ".."); }
    NormaliseIdle(base + Parts(raw));
    NormaliseIdle(Parts(raw));
  }

  lemma {:induction false} ValidInputsAreAccepted(probe: Path -> Probe, raw: string, baseDir: Path)
    requires raw != "" && !Suspicious(raw) && !IsAbsolute(raw)
    ensures ValidatePath(Normalise, probe, raw, baseDir, false, true) == Resolved(Normalise(baseDir) + Parts(raw))
  {
    if ".." in Segments(raw, SLASH) { DotDotSegmentHasDots(raw, SLASH); }
    ContainmentOnPlainTree(baseDir, raw);
  }

  // ---------------------------------------------------------------- joining

  /** The components joined with "/". */
  function Joined(components: seq<string>): string
    requires components != []
    decreases |components|
  {
    if |components| == 1 then components[0]
    else Joined(components[..|components| - 1]) + "/" + components[|components| - 1]
  }

  ghost predicate Plain(components: seq<string>) {
    forall i :: 0 <= i < |components| ==> components[i] != "" && !IsAbsolute(components[i])
  }

  lemma {:induction false} JoinedParts(base: Path, components: seq<string>)
    requires components != [] && Plain(components)
    ensures Joined(components) != "" && !IsAbsolute(Joined(components))
    ensures UnderAll(base, components) == base + Parts(Joined(components))
    decreases |components|
  {
    var init, last := components[..|components| - 1], components[|components| - 1];
    if |components| == 1 {
      assert UnderAll(base, init) == base;
    } else {
      JoinedParts(base, init);
      PartsOfJoin(Joined(init), last);
      assert base + Parts(Joined(init)) + Parts(last) == base + (Parts(Joined(init)) + Parts(last));
    }
  }

  lemma {:induction false} JoinedSuspicious(components: seq<string>)
    requires components != []
    ensures Suspicious(Joined(components)) <==> exists i | 0 <= i < |components| :: Suspicious(components[i])
    decreases |components|
  {
    if |components| > 1 {
      var init := components[..|components| - 1];
      JoinedSuspicious(init);
      DotsOfJoin(Joined(init), components[|components| - 1]);
      assert forall i :: 0 <= i < |init| ==> init[i] == components[i];
    }
  }

  lemma {:induction false} ComplaintIsExact(components: seq<string>)
    ensures Complaint(components).Resolved? <==>
      Plain(components) && forall i :: 0 <= i < |components| ==> !Suspicious(components[i])
    ensures Plain(components) && !Complaint(components).Resolved? ==> Complaint(components) == PathTraversal
    decreases |components|
  {
    if components != [] {
      ComplaintIsExact(components[1..]);
      assert forall i :: 0 < i < |components| ==> components[i] == components[1..][i - 1];
    }
  }

  /** Joining the components and validating the joined string agree on every file
      system, once no component is empty or absolute; safe_join refuses the others. */
  lemma {:induction false} JoinAgreesWithValidate(resolve: Resolver, probe: Path -> Probe, baseDir: Path,
                                                  components: seq<string>)
    requires components != []
    ensures Plain(components) ==>
      SafeJoin(resolve, baseDir, components) == ValidatePath(resolve, probe, Joined(components), baseDir, false, true)
    ensures !Plain(components) ==> !SafeJoin(resolve, baseDir, components).Resolved?
  {
    ComplaintIsExact(components);
    JoinedSuspicious(components);
    if Plain(components) { JoinedParts(resolve(baseDir), components); }
  }

  // ---------------------------------------------------------------- in characters

  /** Two dots with nothing but a separator, or an end of the text, on either side. */
  ghost predicate DotsAlone(s: string, seps: set<char>, i: int) {
    && 0 <= i && i + 1 < |s| && s[i] == '.' && s[i + 1] == '.'
    && (i == 0 || s[i - 1] in seps) && (i + 2 == |s| || s[i + 2] in seps)
  }

  lemma {:induction false} FirstSegmentIs(s: string, seps: set<char>)
    ensures var first := Segments(s, seps)[0];
      && first <= s && (forall i :: 0 <= i < |first| ==> first[i] !in seps)
      && (|first| == |s| || s[|first|] in seps)
    decreases |s|
  {
    if s != "" { FirstSegmentIs(s[1..], seps); }
  }

  lemma {:induction false} FirstIsDots(s: string, seps: set<char>)
    requires '.' !in seps
    ensures Segments(s, seps)[0] == ".." <==> DotsAlone(s, seps, 0)
  {
    FirstSegmentIs(s, seps);
    var first := Segments(s, seps)[0];
    if DotsAlone(s, seps, 0) {
      assert |first| == 2;
      assert first == [first[0], first[1]];
    }
  }

  lemma {:induction false} LaterIsDots(s: string, seps: set<char>)
    requires '.' !in seps
    ensures ".." in Segments(s, seps)[1..] <==> exists i :: i > 0 && DotsAlone(s, seps, i)
    decreases |s|
  {
    if s != "" {
      var tail := s[1..];
      var rest := Segments(tail, seps);
      FirstIsDots(tail, seps);
      LaterIsDots(tail, seps);
      assert forall i :: i > 1 ==> (DotsAlone(s, seps, i) <==> DotsAlone(tail, seps, i - 1));
      assert DotsAlone(s, seps, 1) <==> s[0] in seps && DotsAlone(tail, seps, 0);
      assert rest == [rest[0]] + rest[1..];
      if i :| i > 0 && DotsAlone(tail, seps, i) { assert DotsAlone(s, seps, i + 1); }
    }
  }

  /** A path has a parent traversal exactly when it holds a null byte, or two dots between
      separators of either kind or the ends of the path. */
  lemma {:induction false} ParentTraversalIs(raw: string)
    ensures HasParentTraversal(raw) <==> '\0' in raw || exists i :: DotsAlone(raw, {'/', '\\'}, i)
  {
    var segments := Segments(raw, SLASHES);
    FirstIsDots(raw, SLASHES);
    LaterIsDots(raw, SLASHES);
    assert segments == [segments[0]] + segments[1..];
  }

  /** Path components: a text without "/" is one component, unless it is "" or ".", and "/" puts
      the components of two texts together. */
  lemma {:induction false} PartsAre(a: string, b: string)
    ensures '/' !in a ==> Parts(a) == if a == "" || a == "." then [] else [a]
    ensures Parts(a + "/" + b) == Parts(a) + Parts(b)
    ensures Under(["base"], "/" + a) == Parts(a)
    ensures a == "" || a[0] != '/' ==> Under(["base"], a) == ["base"] + Parts(a)
  {
    PartsOfJoin(a, b);
    PartsOfJoin("", a);
    assert "" + "/" + a == "/" + a && Parts("") == [];
    if '/' !in a {
      OneSegment(a, SLASH);
      assert [a][1..] == [] && Named([a][1..]) == [];
    }
  }

  // ---------------------------------------------------------------- the two verdicts

  /** Nothing in the text that the guard refuses: no null byte, and nowhere two dots together. */
  ghost predicate Unsuspicious(s: string) {
    && (forall i :: 0 <= i < |s| ==> s[i] != '\0')
    && (forall i :: 0 <= i < |s| - 1 ==> !(s[i] == '.' && s[i + 1] == '.'))
  }

  /** When a path is validated, and which error it gets otherwise. */
  lemma {:induction false} ValidatedExactlyWhen(resolve: Resolver, probe: Path -> Probe, raw: string, baseDir: Path,
                                                mustExist: bool, allowCreate: bool)
    ensures var base := resolve(baseDir);
      var path, asked := resolve(Under(base, raw)), mustExist || !allowCreate;
      var passes := raw != "" && Unsuspicious(raw) && base <= path;
      ValidatePath(resolve, probe, raw, baseDir, mustExist, allowCreate) ==
        if passes && (asked ==> probe(path) == Present) then Resolved(path)
        else if passes && probe(path) == Absent then FileMissing
        else PathTraversal
  {
  }

  /** When components are joined, and which error they get otherwise: that of the first one refused. */
  lemma {:induction false} JoinedExactlyWhen(resolve: Resolver, baseDir: Path, components: seq<string>)
    ensures var base := resolve(baseDir); var r := SafeJoin(resolve, baseDir, components);
      var path := if components == [] then base else resolve(UnderAll(base, components));
      && (r == Resolved(path) <==>
            (components != [] ==> base <= path) &&
            forall i :: 0 <= i < |components| ==> IsAccepted(components[i]))
      && (r == EmptyComponent <==>
            exists k :: 0 <= k < |components| && components[k] == "" && AllAccepted(components[..k]))
      && (r == Resolved(path) || r == EmptyComponent || r == PathTraversal)
  {
    ComplaintIsFirst(components);
  }

  ghost predicate IsAccepted(component: string) {
    component != "" && component[0] != '/' && Unsuspicious(component)
  }

  ghost predicate AllAccepted(components: seq<string>) {
    forall i :: 0 <= i < |components| ==> IsAccepted(components[i])
  }

  lemma {:induction false} ComplaintIsFirst(components: seq<string>)
    ensures Complaint(components) == Resolved([]) <==> AllAccepted(components)
    ensures Complaint(components) == EmptyComponent <==>
      exists k :: 0 <= k < |components| && components[k] == "" && AllAccepted(components[..k])
    ensures Complaint(components) in {Resolved([]), EmptyComponent, PathTraversal}
    decreases |components|
  {
    if components != [] {
      var rest := components[1..];
      ComplaintIsFirst(rest);
      assert components == [components[0]] + rest;
      if IsAccepted(components[0]) {
        if k :| 0 <= k < |rest| && rest[k] == "" && AllAccepted(rest[..k]) {
          assert components[..k + 1] == [components[0]] + rest[..k];
        }
        if k :| 0 <= k < |components| && components[k] == "" && AllAccepted(components[..k]) {
          assert rest[..k - 1] == components[..k][1..] && rest[k - 1] == "";
        }
      } else if components[0] != "" {
        assert forall k :: 0 < k < |components| ==> components[..k][0] == components[0];
      }
    }
  }
}
