/** What the contained open guarantees: every descriptor it returns was reached by
    entry lookups alone, stays inside the base under every confined interference,
    and is found whenever the tree holds still. */
module ContainedTheorems {
  import opened Wrappers
  import opened ContainedOpen
  import R = ContainedReaders
  import LO = ListingOrder

  // ---------------------------------------------------------------- no symlink followed

  /** `trail` descends one directory entry at a time, the `k`th at instant
      `times[k]`, and none of its members was a symlink when it was looked up. */
  ghost predicate Descent(tree: nat -> FS, from: nat, parts: seq<Name>, trail: seq<Inode>, times: seq<nat>) {
    && |trail| == |parts| + 1 && |times| == |parts|
    && (forall k :: 0 <= k < |times| ==> from <= times[k])
    && (forall j, k :: 0 <= j < k < |times| ==> times[j] < times[k])
    && (forall k :: 0 <= k < |parts| ==> Linked(tree(times[k]), trail[k], parts[k], trail[k + 1]))
  }

  ghost predicate Linked(fs: FS, dir: Inode, name: Name, i: Inode) {
    IsDir(fs, dir) && name in fs[dir].entries && fs[dir].entries[name] == i && i in fs && !fs[i].Link?
  }

  lemma {:induction false} WalkFromDescends(h: Host, t: nat, dir: Inode, parts: seq<Name>, lastDir: bool)
    returns (trail: seq<Inode>, times: seq<nat>)
    requires WalkFrom(h, t, dir, parts, lastDir).outcome.Opened?
    ensures Descent(h.tree, t, parts, trail, times) && trail[0] == dir
    ensures trail[|parts|] == WalkFrom(h, t, dir, parts, lastDir).outcome.inode
    ensures |times| > 0 ==> times[|times| - 1] < WalkFrom(h, t, dir, parts, lastDir).time
    decreases |parts|
  {
    if parts == [] {
      trail, times := [dir], [];
    } else {
      var last := |parts| == 1;
      var step := StepFrom(h, t, dir, parts[0], if last then lastDir else h.oDirectory, !last && !h.oDirectory);
      var rest, later := WalkFromDescends(h, step.time, step.inode, parts[1..], lastDir);
      trail, times := [dir] + rest, [t] + later;
      DescentExtends(h.tree, t, step.time, dir, parts, rest, later);
      assert later != [] ==> later[|later| - 1] == times[|times| - 1];
    }
  }

  lemma {:induction false} DescentExtends(tree: nat -> FS, t: nat, from: nat, dir: Inode, parts: seq<Name>,
                                          rest: seq<Inode>, later: seq<nat>)
    requires parts != [] && t < from && Descent(tree, from, parts[1..], rest, later)
    requires Linked(tree(t), dir, parts[0], rest[0])
    ensures Descent(tree, t, parts, [dir] + rest, [t] + later)
  {
    var trail, times := [dir] + rest, [t] + later;
    forall k | 0 <= k < |parts| ensures Linked(tree(times[k]), trail[k], parts[k], trail[k + 1]) {
      if k > 0 { assert Linked(tree(later[k - 1]), rest[k - 1], parts[1..][k - 1], rest[k]); }
    }
  }

  /** Whatever the rest of the system does, a returned descriptor names the inode
      found by looking up base and then each component, following no symlink. */
  lemma {:induction false} OpenedByDescent(h: Host, t: nat, parts: seq<Name>, lastDir: bool)
    returns (trail: seq<Inode>, times: seq<nat>)
    requires Walk(h, t, parts, lastDir).outcome.Opened?
    ensures Descent(h.tree, t, [h.baseName] + parts, trail, times) && trail[0] == h.parent
    ensures trail[|parts| + 1] == Walk(h, t, parts, lastDir).outcome.inode
    ensures times[|parts|] < Walk(h, t, parts, lastDir).time
  {
    var base := Open(h, t, h.parent, h.baseName, h.oDirectory).inode;
    var rest, later := WalkFromDescends(h, t + 1, base, parts, lastDir);
    trail, times := [h.parent] + rest, [t] + later;
    assert ([h.baseName] + parts)[1..] == parts;
    DescentExtends(h.tree, t, t + 1, h.parent, [h.baseName] + parts, rest, later);
  }

  // ---------------------------------------------------------------- a confined actor

  /** The file system together with the inodes of base's own tree. */
  datatype World = World(fs: FS, inside: set<Inode>)

  /** `inside` is closed under entries and holds whatever the base entry names. */
  ghost predicate SelfContained(h: Host, w: World) {
    && h.parent !in w.inside
    && (forall d, name :: d in w.inside && IsDir(w.fs, d) && name in w.fs[d].entries ==>
      w.fs[d].entries[name] in w.inside)
    && (IsDir(w.fs, h.parent) && h.baseName in w.fs[h.parent].entries ==>
      w.fs[h.parent].entries[h.baseName] in w.inside)
  }

  /** What the second actor may do: make an entry (over an existing one too, so
      swapping it for a symlink to anywhere), make another one for an inside inode that is no
      directory, remove or rename entries inside base, replace the base entry itself, and
      change anything outside. */
  datatype Op =
    | Create(dir: Inode, name: Name, inode: Inode, node: Node)
    | HardLink(dir: Inode, name: Name, inode: Inode)
    | Remove(dir: Inode, name: Name)
    | Rename(dir: Inode, name: Name, toDir: Inode, toName: Name)
    | SwapBase(inode: Inode, node: Node)
    | Elsewhere(fs: FS)

  predicate Fresh(w: World, i: Inode, node: Node) {
    i !in w.fs && i !in w.inside && (node.Dir? ==> node.entries == map[])
  }

  function Relink(fs: FS, dir: Inode, entries: map<Name, Inode>): FS {
    fs[dir := Dir(entries)]
  }

  /** Operations the kernel would refuse, or that would reach outside, change nothing. */
  ghost function Act(h: Host, w: World, op: Op): World {
    match op
    case Create(dir, name, i, node) =>
      if dir in w.inside && IsDir(w.fs, dir) && Fresh(w, i, node) && i != h.parent then
        World(Relink(w.fs[i := node], dir, w.fs[dir].entries[name := i]), w.inside + {i})
      else w
    case HardLink(dir, name, i) =>
      if dir in w.inside && IsDir(w.fs, dir) && i in w.inside && i in w.fs && !w.fs[i].Dir? then
        w.(fs := Relink(w.fs, dir, w.fs[dir].entries[name := i]))
      else w
    case Remove(dir, name) =>
      if dir in w.inside && IsDir(w.fs, dir) then w.(fs := Relink(w.fs, dir, w.fs[dir].entries - {name})) else w
    case Rename(dir, name, toDir, toName) =>
      if dir in w.inside && IsDir(w.fs, dir) && name in w.fs[dir].entries && toDir in w.inside
        && IsDir(w.fs, toDir) then
        var i := w.fs[dir].entries[name];
        var fs := Relink(w.fs, dir, w.fs[dir].entries - {name});
        w.(fs := Relink(fs, toDir, fs[toDir].entries[toName := i]))
      else w
    case SwapBase(i, node) =>
      if IsDir(w.fs, h.parent) && Fresh(w, i, node) && i != h.parent then
        World(Relink(w.fs[i := node], h.parent, w.fs[h.parent].entries[h.baseName := i]), w.inside + {i})
      else w
    case Elsewhere(fs) =>
      if (forall i :: i in w.inside ==> (i in fs <==> i in w.fs) && (i in fs ==> fs[i] == w.fs[i])) &&
         (IsDir(fs, h.parent) && h.baseName in fs[h.parent].entries ==>
            IsDir(w.fs, h.parent) && h.baseName in w.fs[h.parent].entries &&
            fs[h.parent].entries[h.baseName] == w.fs[h.parent].entries[h.baseName])
      then w.(fs := fs)
      else w
  }

  ghost function ActAll(h: Host, w: World, ops: seq<Op>): World
    decreases |ops|
  {
    if ops == [] then w else Act(h, ActAll(h, w, ops[..|ops| - 1]), ops[|ops| - 1])
  }

  /** Between instants `t` and `t + 1` the actor performs `script(t)`. */
  ghost function After(h: Host, w: World, script: nat -> seq<Op>, t: nat): World {
    if t == 0 then w else ActAll(h, After(h, w, script, t - 1), script(t - 1))
  }

  lemma {:induction false} ActKeepsContained(h: Host, w: World, op: Op)
    requires SelfContained(h, w)
    ensures SelfContained(h, Act(h, w, op)) && w.inside <= Act(h, w, op).inside
    ensures forall i :: i in Act(h, w, op).inside && i in w.fs ==> i in w.inside
  {
  }

  lemma {:induction false} ActAllKeepsContained(h: Host, w: World, ops: seq<Op>)
    requires SelfContained(h, w)
    ensures SelfContained(h, ActAll(h, w, ops)) && w.inside <= ActAll(h, w, ops).inside
    decreases |ops|
  {
    if ops != [] {
      ActAllKeepsContained(h, w, ops[..|ops| - 1]);
      ActKeepsContained(h, ActAll(h, w, ops[..|ops| - 1]), ops[|ops| - 1]);
    }
  }

  lemma {:induction false} AfterKeepsContained(h: Host, w: World, script: nat -> seq<Op>, s: nat, t: nat)
    requires SelfContained(h, w) && s <= t
    ensures SelfContained(h, After(h, w, script, t)) && After(h, w, script, s).inside <= After(h, w, script, t).inside
    decreases t
  {
    if t > 0 {
      AfterKeepsContained(h, w, script, if s == t then t - 1 else s, t - 1);
      ActAllKeepsContained(h, After(h, w, script, t - 1), script(t - 1));
    }
  }

  /** The trail enters base's tree at its first entry and never leaves it. */
  lemma {:induction false} DescentStaysInside(h: Host, worlds: nat -> World, parts: seq<Name>, trail: seq<Inode>,
                                              times: seq<nat>, k: nat)
    requires forall t :: SelfContained(h, worlds(t))
    requires forall s, t :: s <= t ==> worlds(s).inside <= worlds(t).inside
    requires |trail| == |parts| + 2 && |times| == |parts| + 1 && trail[0] == h.parent && k <= |parts|
    requires forall i, j :: 0 <= i < j < |times| ==> times[i] < times[j]
    requires forall i :: 0 <= i <= |parts| ==>
      Linked(worlds(times[i]).fs, trail[i], if i == 0 then h.baseName else parts[i - 1], trail[i + 1])
    ensures trail[k + 1] in worlds(times[k]).inside
    decreases k
  {
    if k > 0 {
      DescentStaysInside(h, worlds, parts, trail, times, k - 1);
      assert times[k - 1] <= times[k];
    }
    LinkStaysInside(h, worlds(times[k]), trail[k], if k == 0 then h.baseName else parts[k - 1], trail[k + 1]);
  }

  lemma {:induction false} LinkStaysInside(h: Host, w: World, dir: Inode, name: Name, i: Inode)
    requires SelfContained(h, w) && Linked(w.fs, dir, name, i)
    requires dir in w.inside || (dir == h.parent && name == h.baseName)
    ensures i in w.inside
  {
  }

  /** Every inode on the way lies in base's own tree at the instant it is found. */
  ghost predicate StaysInside(h: Host, w: World, script: nat -> seq<Op>, trail: seq<Inode>, times: seq<nat>) {
    |trail| == |times| + 1 && forall k :: 0 <= k < |times| ==> trail[k + 1] in After(h, w, script, times[k]).inside
  }

  /** Main result: for every script of the confined actor, interleaved in any way with the
      system calls of the walk, every inode on the way to a returned descriptor, and the one
      it names, belong to base's own tree. Resolved components hold no "..", the one entry
      of a directory that would lead out of the tree (`Paths.ValidatedPartsAreClean`). */
  lemma {:induction false} OpenedStaysInside(h: Host, w: World, script: nat -> seq<Op>, t: nat, parts: seq<Name>,
                                             lastDir: bool)
    returns (trail: seq<Inode>, times: seq<nat>)
    requires SelfContained(h, w) && forall s :: h.tree(s) == After(h, w, script, s).fs
    requires ".." !in parts && Walk(h, t, parts, lastDir).outcome.Opened?
    ensures Descent(h.tree, t, [h.baseName] + parts, trail, times) && trail[0] == h.parent
    ensures StaysInside(h, w, script, trail, times)
    ensures var end := Walk(h, t, parts, lastDir);
      && trail[|parts| + 1] == end.outcome.inode && times[|parts|] < end.time
      && end.outcome.inode in After(h, w, script, end.time).inside
  {
    var end := Walk(h, t, parts, lastDir);
    trail, times := OpenedByDescent(h, t, parts, lastDir);
    TrailStaysInside(h, w, script, t, parts, trail, times);
    AfterKeepsContained(h, w, script, times[|parts|], end.time);
  }

  lemma {:induction false} TrailStaysInside(h: Host, w: World, script: nat -> seq<Op>, t: nat, parts: seq<Name>,
                                            trail: seq<Inode>, times: seq<nat>)
    requires SelfContained(h, w) && forall s :: h.tree(s) == After(h, w, script, s).fs
    requires Descent(h.tree, t, [h.baseName] + parts, trail, times) && trail[0] == h.parent
    ensures StaysInside(h, w, script, trail, times)
  {
    var worlds := (s: nat) => After(h, w, script, s);
    forall s ensures SelfContained(h, worlds(s)) { AfterKeepsContained(h, w, script, s, s); }
    forall r, s | r <= s ensures worlds(r).inside <= worlds(s).inside { AfterKeepsContained(h, w, script, r, s); }
    var names := [h.baseName] + parts;
    forall i | 0 <= i <= |parts|
      ensures Linked(worlds(times[i]).fs, trail[i], if i == 0 then h.baseName else parts[i - 1], trail[i + 1])
    {
      assert Linked(h.tree(times[i]), trail[i], names[i], trail[i + 1]);
    }
    forall k | 0 <= k <= |parts| ensures trail[k + 1] in After(h, w, script, times[k]).inside {
      DescentStaysInside(h, worlds, parts, trail, times, k);
    }
  }

  lemma {:induction false} TextComesFrom(h: Host, t: nat, parts: seq<Name>, isFile: bool, maxBytes: int,
                                         encoding: R.Encoding)
    returns (end: End)
    requires R.Read(h, t, parts, isFile, maxBytes, encoding).Text?
    ensures end == Walk(h, t, parts, false) && end.outcome.Opened? && encoding.Some?
    ensures var i, fs := end.outcome.inode, h.tree(end.time + 2);
      && i in fs && fs[i].File?
      && R.Read(h, t, parts, isFile, maxBytes, encoding).text == encoding.value(fs[i].content)
      && R.Read(h, t, parts, isFile, maxBytes, encoding).size <= maxBytes
  {
    end := Walk(h, t, parts, false);
  }

  /** Main result for the reader: a text it returns is what the encoding makes of the content
      that a regular file of base's own tree has at the instant of the read. */
  lemma {:induction false} TextIsFromInside(h: Host, w: World, script: nat -> seq<Op>, t: nat, parts: seq<Name>,
                                            isFile: bool, maxBytes: int, encoding: R.Encoding)
    returns (i: Inode, s: nat, trail: seq<Inode>, times: seq<nat>)
    requires SelfContained(h, w) && forall s :: h.tree(s) == After(h, w, script, s).fs
    requires ".." !in parts && R.Read(h, t, parts, isFile, maxBytes, encoding).Text?
    ensures i in After(h, w, script, s).inside && i in h.tree(s) && h.tree(s)[i].File? && encoding.Some?
    ensures R.Read(h, t, parts, isFile, maxBytes, encoding).text == encoding.value(h.tree(s)[i].content)
    ensures R.Read(h, t, parts, isFile, maxBytes, encoding).size <= maxBytes
    ensures Descent(h.tree, t, [h.baseName] + parts, trail, times) && StaysInside(h, w, script, trail, times)
    ensures trail[0] == h.parent && trail[|parts| + 1] == i && times[|parts|] < s
  {
    var end := TextComesFrom(h, t, parts, isFile, maxBytes, encoding);
    i, s := end.outcome.inode, end.time + 2;
    trail, times := OpenedStaysInside(h, w, script, t, parts, false);
    AfterKeepsContained(h, w, script, end.time, s);
  }

  lemma {:induction false} ChildrenComeFrom(h: Host, t: nat, parts: seq<Name>, stats: R.Stats, lower: LO.Casing,
                                            order: seq<Name>, children: seq<LO.Child>)
    returns (i: Inode, s: nat)
    requires R.Lists(h, t, parts, stats, lower, order, R.Children(children))
    ensures Walk(h, t, parts, true) == End(Opened(i), s) && IsDir(h.tree(s), i)
    ensures R.AreEntries(stats, lower, s + 1, order, h.tree(s)[i].entries, children)
  {
    i, s := R.ListedIs(h, t, parts, stats, lower, order, children);
    R.ListingIsEntries(stats, lower, s + 1, order, h.tree(s)[i].entries);
  }

  /** Main result for the lister: what it returns are the entries of a directory of base's own tree,
      all of them inside, with what `stat` answered for each. */
  lemma {:induction false} ChildrenAreFromInside(h: Host, w: World, script: nat -> seq<Op>, t: nat, parts: seq<Name>,
                                                 stats: R.Stats, lower: LO.Casing, order: seq<Name>,
                                                 children: seq<LO.Child>)
    returns (i: Inode, s: nat, trail: seq<Inode>, times: seq<nat>)
    requires SelfContained(h, w) && forall s :: h.tree(s) == After(h, w, script, s).fs
    requires ".." !in parts && R.Lists(h, t, parts, stats, lower, order, R.Children(children))
    ensures i in After(h, w, script, s).inside && IsDir(h.tree(s), i)
    ensures R.AreEntries(stats, lower, s + 1, order, h.tree(s)[i].entries, children)
    ensures forall name :: name in h.tree(s)[i].entries ==> h.tree(s)[i].entries[name] in After(h, w, script, s).inside
    ensures Descent(h.tree, t, [h.baseName] + parts, trail, times) && StaysInside(h, w, script, trail, times)
    ensures trail[0] == h.parent && trail[|parts| + 1] == i && times[|parts|] < s
  {
    i, s := ChildrenComeFrom(h, t, parts, stats, lower, order, children);
    trail, times := OpenedStaysInside(h, w, script, t, parts, true);
    AfterKeepsContained(h, w, script, 0, s);
    EntriesAreInside(h, After(h, w, script, s), i);
  }

  lemma {:induction false} EntriesAreInside(h: Host, w: World, i: Inode)
    requires SelfContained(h, w) && i in w.inside && IsDir(w.fs, i)
    ensures forall name :: name in w.fs[i].entries ==> w.fs[i].entries[name] in w.inside
  {
  }

  // ---------------------------------------------------------------- a tree that holds still

  /** Plain path resolution in one file system, refusing symlinks. */
  function Resolve(fs: FS, dir: Inode, parts: seq<Name>, lastDir: bool): Opening
    decreases |parts|
  {
    if parts == [] then Opened(dir)
    else if !IsDir(fs, dir) then Failed(Os(ENOTDIR))
    else if parts[0] !in fs[dir].entries || fs[dir].entries[parts[0]] !in fs then Failed(Os(ENOENT))
    else
      var i := fs[dir].entries[parts[0]];
      if fs[i].Link? then Failed(Traversal)
      else if !fs[i].Dir? && (|parts| > 1 || lastDir) then Failed(Os(ENOTDIR))
      else Resolve(fs, i, parts[1..], lastDir)
  }

  ghost predicate Still(h: Host, fs: FS) {
    forall t :: h.tree(t) == fs && !h.faults(t)
  }

  lemma {:induction false} StillWalkFrom(h: Host, fs: FS, t: nat, dir: Inode, parts: seq<Name>, lastDir: bool)
    requires Still(h, fs)
    ensures WalkFrom(h, t, dir, parts, lastDir).outcome == Resolve(fs, dir, parts, lastDir)
    decreases |parts|
  {
    if parts != [] {
      assert h.tree(t) == fs && h.tree(t + 1) == fs && h.tree(t + 2) == fs;
      var last := |parts| == 1;
      var step := StepFrom(h, t, dir, parts[0], if last then lastDir else h.oDirectory, !last && !h.oDirectory);
      if step.Down? { StillWalkFrom(h, fs, step.time, step.inode, parts[1..], lastDir); }
    }
  }

  /** Main result: when nothing changes, the walk finds exactly what resolution
      finds, and blames an attack exactly when the first obstacle is a symlink. Where
      O_DIRECTORY is missing, fstat and the next openat refuse what is no directory. */
  lemma {:induction false} StillWalkResolves(h: Host, fs: FS, t: nat, parts: seq<Name>, lastDir: bool)
    requires Still(h, fs) && h.dirFd
    ensures Walk(h, t, parts, lastDir).outcome ==
            Resolve(fs, h.parent, [h.baseName] + parts, if parts == [] then h.oDirectory else lastDir)
  {
    assert h.tree(t) == fs && h.tree(t + 1) == fs;
    assert ([h.baseName] + parts)[1..] == parts;
    var base := Open(h, t, h.parent, h.baseName, h.oDirectory);
    if base.Got? { StillWalkFrom(h, fs, t + 1, base.inode, parts, lastDir); }
  }

  /** On a still tree the reader gives what resolution leads to: the decoded content of a regular
      file that is not too long. */
  lemma {:induction false} StillReadIsPlain(h: Host, fs: FS, t: nat, parts: seq<Name>, maxBytes: int,
                                            decode: string -> string)
    requires Still(h, fs) && h.dirFd
    ensures R.Read(h, t, parts, true, maxBytes, Some(decode)) ==
      match Resolve(fs, h.parent, [h.baseName] + parts, parts == [] && h.oDirectory)
      case Failed(e) => R.ReadFailed(e)
      case Leaked(_) => R.ReadFailed(Os(EBADF))
      case Opened(i) =>
        if !(i in fs && fs[i].File?) then R.NotRegular
        else if |fs[i].content| > maxBytes then R.TooLarge
        else R.Text(decode(fs[i].content), |fs[i].content|)
  {
    StillWalkResolves(h, fs, t, parts, false);
  }

  /** A text is returned exactly when nothing failed on the way: the walk opened a file, regular and
      not too long when it was opened and still regular when it was read, whose encoding is known. */
  lemma {:induction false} TextExactlyWhen(h: Host, t: nat, parts: seq<Name>, isFile: bool, maxBytes: int,
                                           encoding: R.Encoding)
    ensures var end := Walk(h, t, parts, false); var s := end.time;
      R.Read(h, t, parts, isFile, maxBytes, encoding).Text? <==>
        && isFile && end.outcome.Opened? && encoding.Some?
        && !h.faults(s) && !h.faults(s + 1) && !h.faults(s + 2) && !h.faults(s + 3)
        && var i := end.outcome.inode;
           && i in h.tree(s) && h.tree(s)[i].File? && |h.tree(s)[i].content| <= maxBytes
           && i in h.tree(s + 2) && h.tree(s + 2)[i].File?
    ensures var end := Walk(h, t, parts, false); var s := end.time;
      R.Read(h, t, parts, isFile, maxBytes, encoding).Text? ==>
        R.Read(h, t, parts, isFile, maxBytes, encoding).size == |h.tree(s)[end.outcome.inode].content|
  {
  }
}
