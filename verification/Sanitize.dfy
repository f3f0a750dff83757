/** Log sanitising: Dimensionals/sanitize.py, `sanitize_for_log` and `sanitize_dict_for_log`. */
module Sanitize {
  import opened Sequences
  import opened Wrappers
  import T = TextLines

  predicate IsControl(c: char) {
    c <= '\U{0008}' || '\U{000B}' <= c <= '\U{000C}' || '\U{000E}' <= c <= '\U{001F}' || c == '\U{007F}'
  }

  predicate IsNewline(c: char) {
    c in {'\r', '\n', '\U{0085}', '\U{2028}', '\U{2029}'}
  }

  function WithoutControls(s: string): string {
    if s == "" then "" else (if IsControl(s[0]) then "" else [s[0]]) + WithoutControls(s[1..])
  }

  /** Each run of newlines becomes one `replacement`. */
  function WithoutNewlines(s: string, replacement: string): string {
    if s == "" then ""
    else if !IsNewline(s[0]) then [s[0]] + WithoutNewlines(s[1..], replacement)
    else (if 1 < |s| && IsNewline(s[1]) then "" else replacement) + WithoutNewlines(s[1..], replacement)
  }

  function Cleaned(s: string, replacement: string): string {
    WithoutNewlines(WithoutControls(s), replacement)
  }

  const SUFFIX := "...[truncated]"

  /** `text[:n]`, where a negative bound counts from the end. */
  function Upto(s: string, n: int): (r: string)
    ensures r <= s && |r| == if 0 <= n then (if n < |s| then n else |s|) else if -n < |s| then |s| + n else 0
  {
    if 0 <= n then (if n < |s| then s[..n] else s) else if -n < |s| then s[..|s| + n] else ""
  }

  function Truncated(s: string, max: int): string {
    if |s| > max then Upto(s, max) + SUFFIX else s
  }

  function ForLog(s: string, max: int, replacement: string): string {
    Truncated(Cleaned(s, replacement), max)
  }

  predicate Clean(s: string) {
    forall c :: c in s ==> !IsControl(c) && !IsNewline(c)
  }

  // ---------------------------------------------------------------- one string

  lemma {:induction false} ControlsGone(s: string)
    ensures forall c :: c in WithoutControls(s) ==> !IsControl(c)
    decreases |s|
  {
    if s != "" { ControlsGone(s[1..]); }
  }

  /** Every character is judged alone: control characters are dropped, all others kept in place. */
  lemma {:induction false} ControlsDropped(a: string, c: char, b: string)
    ensures WithoutControls(a + ([c] + b))
      == WithoutControls(a) + ((if IsControl(c) then "" else [c]) + WithoutControls(b))
    decreases |a|
  {
    var s := a + ([c] + b);
    if a == "" {
      assert s == [c] + b && s[1..] == b;
    } else {
      assert s[0] == a[0] && s[1..] == a[1..] + ([c] + b);
      ControlsDropped(a[1..], c, b);
      var first, middle := if IsControl(a[0]) then "" else [a[0]], if IsControl(c) then "" else [c];
      Associates(first, WithoutControls(a[1..]), middle + WithoutControls(b));
    }
  }

  lemma {:induction false} NewlinesGone(s: string, replacement: string)
    requires (forall c :: c in s ==> !IsControl(c)) && Clean(replacement)
    ensures Clean(WithoutNewlines(s, replacement))
    decreases |s|
  {
    if s != "" {
      NewlinesGone(s[1..], replacement);
      assert s[0] in s;
    }
  }

  lemma {:induction false} CleanIsKept(s: string, replacement: string)
    requires Clean(s)
    ensures WithoutControls(s) == s && WithoutNewlines(s, replacement) == s
    decreases |s|
  {
    if s != "" {
      assert s[0] in s;
      CleanIsKept(s[1..], replacement);
    }
  }

  lemma {:induction false} SuffixIsClean()
    ensures Clean(SUFFIX) && |SUFFIX| == 14
  {
  }

  lemma {:induction false} RunAtStart(run: string, b: string, replacement: string)
    requires run != "" && (forall c :: c in run ==> IsNewline(c)) && (b == "" || !IsNewline(b[0]))
    ensures WithoutNewlines(run + b, replacement) == replacement + WithoutNewlines(b, replacement)
    decreases |run|
  {
    var s := run + b;
    assert s[0] == run[0] && run[0] in run && s[1..] == run[1..] + b;
    if |run| > 1 {
      assert s[1] == run[1] && run[1] in run;
      RunAtStart(run[1..], b, replacement);
    } else {
      assert s[1..] == b;
    }
  }

  /** Every maximal run of newlines becomes one replacement, and the text on either
      side is treated alone. */
  lemma {:induction false} RunBecomesOne(a: string, run: string, b: string, replacement: string)
    requires run != "" && (forall c :: c in run ==> IsNewline(c))
    requires (a == "" || !IsNewline(a[|a| - 1])) && (b == "" || !IsNewline(b[0]))
    ensures WithoutNewlines(a + (run + b), replacement)
         == WithoutNewlines(a, replacement) + (replacement + WithoutNewlines(b, replacement))
    decreases |a|
  {
    var s := a + (run + b);
    if a == "" {
      assert s == run + b;
      RunAtStart(run, b, replacement);
    } else {
      assert s[0] == a[0] && s[1..] == a[1..] + (run + b);
      assert |a| > 1 ==> s[1] == a[1];
      RunBecomesOne(a[1..], run, b, replacement);
    }
  }

  /** The result holds no control character and nothing `str.splitlines` breaks on, and is
      no longer than the limit and the suffix. */
  lemma {:induction false} ForLogIsSafe(s: string, max: int, replacement: string)
    requires Clean(replacement)
    ensures var r := ForLog(s, max, replacement);
      && Clean(r) && (forall c :: c in r ==> !T.IsBreak(c))
      && (0 <= max ==> |r| <= max + |SUFFIX| && (r == Cleaned(s, replacement) || r[max..] == SUFFIX))
      && (0 <= max <= |r| ==> max <= |Cleaned(s, replacement)| && r[..max] == Cleaned(s, replacement)[..max])
  {
    ControlsGone(s);
    NewlinesGone(WithoutControls(s), replacement);
    SuffixIsClean();
  }

  /** Text that is already clean and short enough is left as it is. */
  lemma {:induction false} CleanTextIsUntouched(s: string, max: int, replacement: string)
    requires Clean(s) && |s| <= max
    ensures ForLog(s, max, replacement) == s
  {
    CleanIsKept(s, replacement);
  }

  /** Sanitising twice is sanitising once for every limit from 0 up. A negative limit, which
      slices from the end, keeps eating into the text but for two cases. */
  lemma {:induction false} ForLogIsIdempotent(s: string, max: int, replacement: string)
    requires Clean(replacement)
    ensures var r := ForLog(s, max, replacement);
      ForLog(r, max, replacement) == r <==> 0 <= max || max == -14 || (max < -14 && |Cleaned(s, replacement)| <= -max)
  {
    var r, text := ForLog(s, max, replacement), Cleaned(s, replacement);
    ForLogIsSafe(s, max, replacement);
    CleanIsKept(r, replacement);
    SuffixIsClean();
    assert ForLog(r, max, replacement) == Truncated(r, max);
    if |text| > max {
      var kept := Upto(text, max);
      assert r == kept + SUFFIX && r[..|kept|] == kept;
    }
  }

  // ---------------------------------------------------------------- dictionaries

  /** A logged value; `Other` is any value that is neither a string nor a dictionary. */
  datatype Value = Text(text: string) | Dict(entries: map<Key, Value>) | Other(id: int)

  /** A key, with its own text when it is a string and `str(key)` when it is not. */
  datatype Key = Key(isString: bool, text: string)

  const REDACTED := Text("[REDACTED]")

  /** Whether a key names something sensitive: some listed word occurs in its lower-case text. */
  type Sensitive = Key -> bool

  function Sanitized(v: Value, sensitive: Sensitive, max: int): Value
    decreases v
  {
    match v
    case Text(text) => Text(ForLog(text, max, "_"))
    case Other(_) => v
    case Dict(entries) =>
      Dict(map k | k in entries :: if sensitive(k) then REDACTED else Sanitized(entries[k], sensitive, max))
  }

  function SanitizedEntry(key: Key, value: Value, sensitive: Sensitive, max: int): Value {
    if sensitive(key) then REDACTED else Sanitized(value, sensitive, max)
  }

  method SanitizeDict(data: map<Key, Value>, sensitive: Sensitive, max: int) returns (sanitized: map<Key, Value>)
    ensures Dict(sanitized) == Sanitized(Dict(data), sensitive, max)
    decreases Dict(data), 0
  {
    sanitized := map[];
    var todo := data.Keys;
    while todo != {}
      invariant todo <= data.Keys && sanitized.Keys == data.Keys - todo
      invariant forall k :: k in sanitized ==> sanitized[k] == SanitizedEntry(k, data[k], sensitive, max)
      decreases |todo|
    {
      var key :| key in todo;
      todo := todo - {key};
      var value := SanitizeEntry(key, data[key], sensitive, max);
      sanitized := sanitized[key := value];
    }
  }

  /** One turn of the loop over the entries. */
  method SanitizeEntry(key: Key, value: Value, sensitive: Sensitive, max: int) returns (r: Value)
    ensures r == SanitizedEntry(key, value, sensitive, max)
    decreases value, 1
  {
    if sensitive(key) { return REDACTED; }
    match value
    case Text(text) => r := Text(ForLog(text, max, "_"));
    case Dict(entries) =>
      var inner := SanitizeDict(entries, sensitive, max);
      r := Dict(inner);
    case Other(_) => r := value;
  }

  /** At every depth: sensitive keys hold the redaction, and every other string is safe to log. */
  ghost predicate Safe(v: Value, sensitive: Sensitive, max: nat)
    decreases v
  {
    match v
    case Text(text) => Clean(text) && |text| <= max + |SUFFIX|
    case Other(_) => true
    case Dict(entries) =>
      forall k :: k in entries ==>
        if sensitive(k) then entries[k] == REDACTED else Safe(entries[k], sensitive, max)
  }

  /** At every depth down to a redaction: the same keys. */
  ghost predicate SameKeys(v: Value, w: Value, sensitive: Sensitive)
    decreases v
  {
    match v
    case Text(_) => w.Text?
    case Other(_) => w == v
    case Dict(entries) =>
      && w.Dict? && entries.Keys == w.entries.Keys
      && forall k :: k in entries && !sensitive(k) ==> SameKeys(entries[k], w.entries[k], sensitive)
  }

  lemma {:induction false} UnderscoreIsClean()
    ensures Clean("_")
  {
  }

  lemma {:induction false} SanitizedIsSafe(v: Value, sensitive: Sensitive, max: nat)
    ensures Safe(Sanitized(v, sensitive, max), sensitive, max)
    ensures SameKeys(v, Sanitized(v, sensitive, max), sensitive)
    decreases v
  {
    match v
    case Text(text) =>
      UnderscoreIsClean();
      ForLogIsSafe(text, max, "_");
    case Other(_) =>
    case Dict(entries) =>
      forall k | k in entries && !sensitive(k)
        ensures Safe(Sanitized(entries[k], sensitive, max), sensitive, max)
        ensures SameKeys(entries[k], Sanitized(entries[k], sensitive, max), sensitive)
      {
        SanitizedIsSafe(entries[k], sensitive, max);
      }
  }

  lemma {:induction false} SanitizedIsIdempotent(v: Value, sensitive: Sensitive, max: nat)
    ensures Sanitized(Sanitized(v, sensitive, max), sensitive, max) == Sanitized(v, sensitive, max)
    decreases v
  {
    match v
    case Text(text) =>
      UnderscoreIsClean();
      ForLogIsIdempotent(text, max, "_");
    case Other(_) =>
    case Dict(entries) =>
      forall k | k in entries && !sensitive(k)
        ensures Sanitized(Sanitized(entries[k], sensitive, max), sensitive, max)
          == Sanitized(entries[k], sensitive, max)
      {
        SanitizedIsIdempotent(entries[k], sensitive, max);
      }
  }

  // ---------------------------------------------------------------- in characters

  /** What is dropped: the C0 controls but tab and the newlines, and DEL. */
  lemma {:induction false} ControlsAre(c: char)
    ensures IsControl(c) <==> (c as int < 0x20 && c as int !in {0x09, 0x0A, 0x0D}) || c as int == 0x7F
  {
  }

  lemma {:induction false} NewlinesAre(c: char)
    ensures IsNewline(c) <==> c as int in {0x0A, 0x0D, 0x85, 0x2028, 0x2029}
  {
  }

  /** Controls go first: newlines with only controls between them are one run. */
  lemma {:induction false} RunWithControlsBecomesOne(a: string, run: string, b: string, replacement: string)
    requires forall c :: c in run ==> IsControl(c) || IsNewline(c)
    requires exists c :: c in run && IsNewline(c)
    requires a == "" || (!IsControl(a[|a| - 1]) && !IsNewline(a[|a| - 1]))
    requires b == "" || (!IsControl(b[0]) && !IsNewline(b[0]))
    ensures Cleaned(a + (run + b), replacement) == Cleaned(a, replacement) + (replacement + Cleaned(b, replacement))
  {
    ControlsDropApart(a, run + b);
    ControlsDropApart(run, b);
    NewlinesRemain(run);
    EndsRemain(a, b);
    RunBecomesOne(WithoutControls(a), WithoutControls(run), WithoutControls(b), replacement);
  }

  lemma {:induction false} ControlsDropApart(a: string, b: string)
    ensures WithoutControls(a + b) == WithoutControls(a) + WithoutControls(b)
    decreases |a|
  {
    if a == "" {
      assert a + b == b;
    } else {
      assert (a + b)[0] == a[0] && (a + b)[1..] == a[1..] + b;
      ControlsDropApart(a[1..], b);
      Associates(if IsControl(a[0]) then "" else [a[0]], WithoutControls(a[1..]), WithoutControls(b));
    }
  }

  lemma {:induction false} NewlinesRemain(run: string)
    requires forall c :: c in run ==> IsControl(c) || IsNewline(c)
    ensures forall c :: c in WithoutControls(run) ==> IsNewline(c)
    ensures (exists c :: c in run && IsNewline(c)) ==> WithoutControls(run) != ""
    decreases |run|
  {
    if run != "" {
      assert run[0] in run && forall c :: c in run[1..] ==> c in run;
      NewlinesRemain(run[1..]);
      if c :| c in run && IsNewline(c) {
        assert !IsControl(c) && (c == run[0] || c in run[1..]);
      }
    }
  }

  lemma {:induction false} EndsRemain(a: string, b: string)
    ensures a != "" && !IsControl(a[|a| - 1]) ==>
      WithoutControls(a) != "" && WithoutControls(a)[|WithoutControls(a)| - 1] == a[|a| - 1]
    ensures b != "" && !IsControl(b[0]) ==> WithoutControls(b) != "" && WithoutControls(b)[0] == b[0]
  {
    if a != "" && !IsControl(a[|a| - 1]) {
      var last := a[|a| - 1];
      assert a == a[..|a| - 1] + [last];
      ControlsDropApart(a[..|a| - 1], [last]);
      assert [last][1..] == "";
    }
  }

  /** Longer text is cut to the limit, which counts from the end when it is negative, and marked. */
  lemma {:induction false} LongTextIsCut(s: string, max: int, replacement: string)
    ensures var text, r := Cleaned(s, replacement), ForLog(s, max, replacement);
      if |text| <= max then r == text
      else if 0 <= max then r == text[..max] + "...[truncated]"
      else if |text| + max <= 0 then r == "...[truncated]"
      else r == text[..|text| + max] + "...[truncated]"
  {
    var text := Cleaned(s, replacement);
    assert text[..0] == "";
  }

  // ---------------------------------------------------------------- at every depth

  /** The value a path of keys leads to. */
  function Lookup(v: Value, path: seq<Key>): (r: Option<Value>)
    decreases |path|
  {
    if path == [] then Some(v)
    else if v.Dict? && path[0] in v.entries then Lookup(v.entries[path[0]], path[1..]) else None
  }

  /** Under keys that are not sensitive every string is sanitised, every other value kept, and every
      dictionary keeps its keys; under a sensitive one stands the redaction. */
  lemma {:induction false} EveryEntryIs(v: Value, path: seq<Key>, sensitive: Sensitive, max: int)
    ensures (forall i :: 0 <= i < |path| ==> !sensitive(path[i])) ==>
      match Lookup(v, path)
      case None => Lookup(Sanitized(v, sensitive, max), path).None?
      case Some(Text(text)) => Lookup(Sanitized(v, sensitive, max), path) == Some(Text(ForLog(text, max, "_")))
      case Some(Other(id)) => Lookup(Sanitized(v, sensitive, max), path) == Some(Other(id))
      case Some(Dict(entries)) =>
        var r := Lookup(Sanitized(v, sensitive, max), path);
        && r.Some? && r.value.Dict? && r.value.entries.Keys == entries.Keys
        && forall k :: k in entries && sensitive(k) ==> r.value.entries[k] == Text("[REDACTED]")
    ensures path == [] ==> Lookup(v, path) == Some(v)
    decreases |path|
  {
    if path != [] && !sensitive(path[0]) && v.Dict? && path[0] in v.entries {
      EveryEntryIs(v.entries[path[0]], path[1..], sensitive, max);
      assert forall i :: 0 < i < |path| ==> path[i] == path[1..][i - 1];
    }
  }
}
