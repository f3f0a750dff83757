/** The `--write` / `--check` run of scripts/align_framework_pins.py over a tree of files. */
module PinFiles {
  import opened Wrappers
  import T = TextLines
  import R = Requirements
  import opened Pins
  import PinTheorems

  /** What a writing run leaves in a file. */
  function Written(content: string): string {
    var text := T.ReadText(content);
    if Changes(text) == [] then content else AlignedText(text)
  }

  predicate Drifts(content: string) {
    Changes(T.ReadText(content)) != []
  }

  /** The working tree: the contents of each file. Writing does not translate "\n" on POSIX. */
  class Tree {
    var files: map<string, string>

    constructor (files: map<string, string>)
      ensures this.files == files
    {
      this.files := files;
    }

    /** Exit status of `main`; `paths` are the requirements files found in the tree. */
    method Run(paths: seq<string>, write: bool, check: bool) returns (status: int)
      requires forall p :: p in paths ==> p in files
      requires forall i, j :: 0 <= i < j < |paths| ==> paths[i] != paths[j]
      modifies this
      ensures files.Keys == old(files).Keys
      ensures forall p :: p in old(files) ==>
        files[p] == if write && !check && p in paths then Written(old(files)[p]) else old(files)[p]
      ensures write && check ==> status == 2
      ensures !(write && check) ==> status == if check && exists p :: p in paths && Drifts(old(files)[p]) then 1 else 0
    {
      if write && check { return 2; }
      var found := AlignFiles(paths, write, Written, Drifts);
      status := if check && found then 1 else 0;
    }

    /** The loop over the files; `written` and `drifts` stay abstract in its proof. */
    method AlignFiles(paths: seq<string>, write: bool, ghost written: string -> string, ghost drifts: string -> bool)
      returns (found: bool)
      requires forall p :: p in paths ==> p in files
      requires forall i, j :: 0 <= i < j < |paths| ==> paths[i] != paths[j]
      requires IsTreatment(written, drifts)
      modifies this
      ensures files.Keys == old(files).Keys
      ensures forall p :: p in old(files) ==>
        files[p] == if write && p in paths then written(old(files)[p]) else old(files)[p]
      ensures found <==> exists p :: p in paths && drifts(old(files)[p])
    {
      found := false;
      for i := 0 to |paths|
        invariant files.Keys == old(files).Keys
        invariant forall p :: p in old(files) ==>
          files[p] == if write && p in paths[..i] then written(old(files)[p]) else old(files)[p]
        invariant found <==> exists p :: p in paths[..i] && drifts(old(files)[p])
      {
        assert paths[i] !in paths[..i];
        assert paths[..i + 1] == paths[..i] + [paths[i]];
        var drifted := AlignPath(paths[i], write, written, drifts);
        found := found || drifted;
      }
      assert paths[..|paths|] == paths;
    }

    /** One turn of the loop. */
    method AlignPath(path: string, write: bool, ghost written: string -> string, ghost drifts: string -> bool)
      returns (drifted: bool)
      requires path in files && IsTreatment(written, drifts)
      modifies this
      ensures drifted == drifts(old(files)[path])
      ensures files == if write then old(files)[path := written(old(files)[path])] else old(files)
    {
      var updated;
      drifted, updated := AlignFile(files[path], written, drifts);
      if drifted && write {
        files := files[path := updated];
      }
    }
  }

  ghost predicate IsTreatment(written: string -> string, drifts: string -> bool) {
    forall content {:trigger Written(content)} {:trigger Drifts(content)} ::
      written(content) == Written(content) && drifts(content) == Drifts(content)
  }

  method AlignFile(content: string, ghost written: string -> string, ghost drifts: string -> bool)
    returns (drifted: bool, updated: string)
    requires IsTreatment(written, drifts)
    ensures drifted == drifts(content) && (if drifted then updated else content) == written(content)
  {
    assert written(content) == Written(content) && drifts(content) == Drifts(content);
    var changes, notes;
    updated, changes, notes := AlignText(T.ReadText(content));
    drifted := changes != [];
  }

  lemma {:induction false} JoinMembers(lines: seq<string>, c: char)
    ensures c in T.Join(lines) <==> exists i :: 0 <= i < |lines| && c in lines[i]
    decreases |lines|
  {
    if lines != [] {
      JoinMembers(lines[1..], c);
      if i :| 0 <= i < |lines| && c in lines[i] {
        assert i > 0 ==> lines[1..][i - 1] == lines[i];
      }
      if c in T.Join(lines[1..]) {
        var j :| 0 <= j < |lines| - 1 && c in lines[1..][j];
        assert c in lines[j + 1];
      }
    }
  }

  /** A rewritten line has a carriage return exactly where the line had one. */
  lemma {:induction false} LineKeepsReturns(line: string)
    ensures '\r' in PinTheorems.Realigned(line) <==> '\r' in line
  {
    PinTheorems.RealignedIsSwapped(line);
    var m := PinTheorems.Realigned(line);
    if m != line {
      var h, v, w, t :| PinTheorems.IsSwap(line, m, h, v, w, t);
      assert '\r' !in v && '\r' !in w;
    }
  }

  lemma {:induction false} AligningKeepsReturns(text: string)
    ensures '\r' in AlignedText(text) <==> '\r' in text
  {
    var ls := T.Lines(text);
    var ms := Aligned(AlignLine, ls);
    T.SplitThenJoin(text);
    JoinMembers(ls, '\r');
    JoinMembers(ms, '\r');
    forall i | 0 <= i < |ls| ensures '\r' in ms[i] <==> '\r' in ls[i] {
      AlignedAt(AlignLine, ls, i);
      LineKeepsReturns(ls[i]);
    }
  }

  /** After a writing run every file passes the check, and writing again changes none. */
  lemma {:induction false} CheckPassesAfterWrite(content: string)
    ensures !Drifts(Written(content))
    ensures Written(Written(content)) == Written(content)
  {
    var text := T.ReadText(content);
    if Changes(text) != [] {
      AligningKeepsReturns(text);
      T.ReadTextKeeps(AlignedText(text));
      PinTheorems.SecondPassFindsNothing(text);
    }
  }

  /** A drifting file comes out with only its versions changed exactly when it has no
      carriage return: reading in text mode has by then replaced "\r\n" and "\r". */
  lemma {:induction false} EndingsSurviveExactlyWithoutReturns(content: string)
    ensures Drifts(content) ==> '\r' !in Written(content)
    ensures Drifts(content) ==> (Written(content) == AlignedText(content) <==> '\r' !in content)
  {
    AligningKeepsReturns(T.ReadText(content));
    AligningKeepsReturns(content);
    if '\r' !in content { T.ReadTextKeeps(content); }
  }

  /** A drifting file with "\r\n". */
  lemma {:induction false} LostReturnHappens()
    ensures var content := "redis" + ("==" + "1") + "\r\n"; Drifts(content) && Written(content) != AlignedText(content)
  {
    RedisIsCanonical();
    ReturnIsLost("redis", "1");
  }

  lemma {:induction false} ReturnIsLost(name: string, version: string)
    requires name != "" && R.All(R.IsName, name) && R.CanonicalKey(name).Some?
    requires version != "" && R.All(R.IsVersion, version) && version != R.CANONICAL[R.CanonicalKey(name).value]
    ensures var content := name + ("==" + version) + "\r\n"; Drifts(content) && Written(content) != AlignedText(content)
  {
    var body := name + ("==" + version);
    PinDrifts(name, version);
    VersionsAreOneLine(name, version);
    assert '\r' !in body;
    ReadsAs(body);
    EndingsSurviveExactlyWithoutReturns(body + "\r\n");
    assert (body + "\r\n")[|body|] == '\r';
  }

  lemma {:induction false} RedisIsCanonical()
    ensures R.All(R.IsName, "redis") && R.All(R.IsVersion, "1") && R.CanonicalKey("redis") == Some("redis")
  {
    PlainIsKept("redis");
  }

  lemma {:induction false} PlainIsKept(name: string)
    requires forall i :: 0 <= i < |name| ==> 'a' <= name[i] <= 'z'
    ensures R.Normalised(name) == name
    decreases |name|
  {
    if name != "" {
      PlainIsKept(name[1..]);
      assert [name[0]] + name[1..] == name;
    }
  }

  lemma {:induction false} ReadsAs(body: string)
    requires '\r' !in body
    ensures T.ReadText(body + "\r\n") == body + "\n"
    decreases |body|
  {
    if body != "" {
      assert (body + "\r\n")[1..] == body[1..] + "\r\n" && (body + "\n")[1..] == body[1..] + "\n";
      ReadsAs(body[1..]);
    } else {
      assert "" + "\r\n" == "\r\n" && "" + "\n" == "\n";
    }
  }

  /** A line that is an exact pin of a canonical package at another version. */
  lemma {:induction false} PinDrifts(name: string, version: string)
    requires name != "" && R.All(R.IsName, name) && R.CanonicalKey(name).Some?
    requires version != "" && R.All(R.IsVersion, version) && version != R.CANONICAL[R.CanonicalKey(name).value]
    ensures Changes(name + ("==" + version) + "\n") != []
  {
    var body := name + ("==" + version);
    var r := R.Req("", name, "", "", R.Pin("==", "", version, ""));
    PlainPin(r);
    VersionsAreOneLine(name, version);
    PinTheorems.BodyOf(body, "\n");
    PinTheorems.StaleIsChanged(body + "\n", r);
    OneLine(body);
  }

  lemma {:induction false} PlainPin(r: R.Req)
    requires r.indent == r.extras == r.space == r.pin.vspace == r.pin.rest == "" && r.pin.op == "=="
    ensures R.Render(r) == r.name + ("==" + r.pin.version)
  {
  }

  lemma {:induction false} VersionsAreOneLine(name: string, version: string)
    requires R.All(R.IsName, name) && R.All(R.IsVersion, version)
    ensures T.BreakFree(name + ("==" + version))
  {
  }

  lemma {:induction false} OneLine(body: string)
    requires T.BreakFree(body)
    ensures T.Lines(body + "\n") == [body + "\n"]
  {
    T.LineEndAfter(body, "\n");
    var line := body + "\n";
    assert line[..|line|] == line && line[|line|..] == "";
  }

  /** What the script promises: once it has written, its check passes, and it kept the other files. */
  method WriteThenCheck(tree: Tree, paths: seq<string>) returns (written: int, checked: int)
    requires forall p :: p in paths ==> p in tree.files
    requires forall i, j :: 0 <= i < j < |paths| ==> paths[i] != paths[j]
    modifies tree
    ensures written == 0 && checked == 0 && tree.files.Keys == old(tree.files).Keys
    ensures forall p :: p in old(tree.files) ==>
      tree.files[p] == if p in paths then Written(old(tree.files)[p]) else old(tree.files)[p]
  {
    written := tree.Run(paths, true, false);
    forall p | p in paths ensures !Drifts(tree.files[p]) { CheckPassesAfterWrite(old(tree.files)[p]); }
    checked := tree.Run(paths, false, true);
  }

  /** A file drifts exactly when one of the lines of the text it reads as is to be rewritten. */
  lemma {:induction false} DriftsExactlyWhen(content: string)
    ensures Drifts(content) <==> exists line :: line in T.Lines(T.ReadText(content)) && AlignLine(line).Changed?
  {
    ChangesExactlyWhen(AlignLine, T.Lines(T.ReadText(content)), 1);
  }

  lemma {:induction false} ChangesExactlyWhen(align: Aligner, lines: seq<string>, number: nat)
    ensures ChangesFrom(align, lines, number) != [] <==> exists line :: line in lines && align(line).Changed?
    decreases |lines|
  {
    if lines != [] {
      ChangesExactlyWhen(align, lines[1..], number + 1);
      assert lines == [lines[0]] + lines[1..];
    }
  }

  /** A file that does not drift is left as it is; in one that does every line to be rewritten is,
      and the others are kept as they were read. */
  lemma {:induction false} WrittenIs(content: string, k: nat)
    requires k < |T.Lines(T.ReadText(content))|
    ensures !Drifts(content) ==> Written(content) == content
    ensures Drifts(content) ==> |T.Lines(Written(content))| == |T.Lines(T.ReadText(content))|
    ensures Drifts(content) ==>
      var line := T.Lines(T.ReadText(content))[k];
      T.Lines(Written(content))[k] == if AlignLine(line).Changed? then AlignLine(line).line else line
  {
    PinTheorems.LinesSurvive(T.ReadText(content));
    AlignedAt(AlignLine, T.Lines(T.ReadText(content)), k);
  }
}
