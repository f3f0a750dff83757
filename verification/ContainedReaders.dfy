/** The two callers of the contained open: the file reader and the directory lister. */
module ContainedReaders {
  import opened Wrappers
  import opened ContainedOpen
  import opened ListingOrder

  datatype ReadResult = Text(text: string, size: nat) | NotRegular | TooLarge | ReadFailed(error: Error)

  /** What reading with the named encoding makes of a file's content; None when there is
      no such encoding. */
  type Encoding = Option<string -> string>

  function Regular(fs: FS, i: Inode): Option<string> {
    if i in fs && fs[i].File? then Some(fs[i].content) else None
  }

  /** `r`, unless the close at `t` fails with an error of its own. */
  function Shut(h: Host, t: nat, r: ReadResult): ReadResult {
    if h.faults(t) then ReadFailed(Os(EIO)) else r
  }

  /** The reader on the descriptor of inode `i`: fstat, fdopen, read, close. */
  function ReadFrom(h: Host, t: nat, i: Inode, maxBytes: int, encoding: Encoding): ReadResult {
    var found := Regular(h.tree(t), i);
    if h.faults(t) then ReadFailed(Os(EIO))
    else if found.None? then Shut(h, t + 1, NotRegular)
    else if maxBytes < |found.value| then Shut(h, t + 1, TooLarge)
    else if h.faults(t + 1) then ReadFailed(Os(EIO))
    else if encoding.None? then ReadFailed(Os(EBADF))
    else
      var now := Regular(h.tree(t + 2), i);
      Shut(h, t + 3, if h.faults(t + 2) || now.None? then ReadFailed(Os(EIO))
                     else Text(encoding.value(now.value), |found.value|))
  }

  /** When the reader closes its descriptor a second time: an fdopen that takes the
      descriptor of a readable file over and then finds no such encoding. */
  predicate ClosesTwice(h: Host, t: nat, i: Inode, maxBytes: int, encoding: Encoding) {
    var found := Regular(h.tree(t), i);
    encoding.None? && !h.faults(t) && !h.faults(t + 1) && found.Some? && |found.value| <= maxBytes
  }

  /** Descriptors after a caller returns or raises: as before, except that the walk may
      have leaked the one descriptor of its `Leaked` outcome. */
  ghost predicate Released(p: Process, before: map<nat, Inode>, bound: nat, bad: nat, outcome: Opening)
    reads p
  {
    match outcome
    case Leaked(i) => p.badCloses == bad + 1 && exists fd :: bound <= fd && fd in p.fds && p.fds == before[fd := i]
    case _ => p.badCloses == bad && p.fds == before
  }

  /** read_validated_file_text after `validate_path`; `isFile` is the earlier test
      of the pathname. */
  function Read(h: Host, t: nat, parts: seq<Name>, isFile: bool, maxBytes: int, encoding: Encoding): ReadResult {
    if !isFile then NotRegular
    else
      var end := Walk(h, t, parts, false);
      match end.outcome
      case Opened(i) => ReadFrom(h, end.time, i, maxBytes, encoding)
      case Failed(e) => ReadFailed(e)
      case Leaked(_) => ReadFailed(Os(EBADF))
  }

  method ReadValidatedFileText(p: Process, parts: seq<Name>, isFile: bool, maxBytes: int, encoding: Encoding)
    returns (r: ReadResult)
    requires p.Valid()
    modifies p
    ensures p.Valid() && r == Read(p.host, old(p.now), parts, isFile, maxBytes, encoding)
    ensures !isFile ==> p.fds == old(p.fds) && p.badCloses == old(p.badCloses)
    ensures isFile ==> var end := Walk(p.host, old(p.now), parts, false);
      if end.outcome.Opened? && ClosesTwice(p.host, end.time, end.outcome.inode, maxBytes, encoding)
      then p.fds == old(p.fds) && p.badCloses == old(p.badCloses) + 1
      else Released(p, old(p.fds), old(p.next), old(p.badCloses), end.outcome)
  {
    if !isFile {
      return NotRegular;
    }
    var handle := p.OpenContained(parts, false);
    if handle.Raise? {
      return ReadFailed(handle.error);
    }
    r := ReadOpened(p, handle.value, maxBytes, encoding);
  }

  method ReadOpened(p: Process, fd: nat, maxBytes: int, encoding: Encoding) returns (r: ReadResult)
    requires p.Valid() && fd in p.fds
    modifies p
    ensures p.Valid() && p.fds == old(p.fds) - {fd}
    ensures r == ReadFrom(p.host, old(p.now), old(p.fds[fd]), maxBytes, encoding)
    ensures p.badCloses == old(p.badCloses) +
            if ClosesTwice(p.host, old(p.now), old(p.fds[fd]), maxBytes, encoding) then 1 else 0
  {
    var i := p.fds[fd];
    var fault := p.host.faults(p.now);
    var found := Regular(p.host.tree(p.now), i);
    p.now := p.now + 1;
    var owned := true;
    if fault {
      r := ReadFailed(Os(EIO));
    } else if found.None? {
      r := NotRegular;
    } else if maxBytes < |found.value| {
      r := TooLarge;
    } else {
      var refused := p.host.faults(p.now);
      p.now := p.now + 1;
      if refused {
        r := ReadFailed(Os(EIO));
      } else if encoding.None? {
        var _ := p.OsClose(fd);
        r := ReadFailed(Os(EIO));
      } else {
        owned := false;
        var now := Regular(p.host.tree(p.now), i);
        r := if p.host.faults(p.now) || now.None? then ReadFailed(Os(EIO))
             else Text(encoding.value(now.value), |found.value|);
        p.now := p.now + 1;
        r := CloseAfter(p, fd, r);
      }
    }
    if owned {
      r := CloseAfter(p, fd, r);
    }
  }

  /** Closing on the way out; a failing close replaces what was to be returned or raised. */
  method CloseAfter(p: Process, fd: nat, r0: ReadResult) returns (r: ReadResult)
    requires p.Valid()
    modifies p
    ensures p.Valid() && p.fds == old(p.fds) - {fd} && p.now == old(p.now) + 1
    ensures fd in old(p.fds) ==> r == Shut(p.host, old(p.now), r0) && p.badCloses == old(p.badCloses)
    ensures fd !in old(p.fds) ==> r == ReadFailed(Os(EBADF)) && p.badCloses == old(p.badCloses) + 1
  {
    var closed := p.OsClose(fd);
    r := if closed.Raise? then ReadFailed(closed.error) else r0;
    assert fd !in old(p.fds) ==> old(p.fds) - {fd} == old(p.fds);
  }

  // ---------------------------------------------------------------- the lister

  /** What `stat` tells of an entry, following it. */
  datatype Stat = Stat(isDir: bool, isFile: bool, size: nat, modified: int)

  /** The answer for an entry at an instant; None when the call fails, and whatever a
      symlink leads to. */
  type Stats = (nat, Name) -> Option<Stat>

  datatype ListResult = Children(children: seq<Child>) | NotADirectory | Missing | ListFailed(error: Error)

  function Found(stats: Stats, t: nat, name: Name): seq<Child> {
    match stats(t, name)
    case None => []
    case Some(s) => [Child(name, s.isDir, if s.isFile then s.size else 0, s.modified)]
  }

  /** The entries asked in this order from instant `t` on; one that cannot be asked is skipped. */
  function Visited(stats: Stats, t: nat, order: seq<Name>): seq<Child> {
    if order == [] then []
    else Visited(stats, t, order[..|order| - 1]) + Found(stats, t + |order| - 1, order[|order| - 1])
  }

  /** `order` names each entry once. */
  ghost predicate Enumerates(order: seq<Name>, names: set<Name>) {
    (forall name :: name in order <==> name in names) && forall i, j :: 0 <= i < j < |order| ==> order[i] != order[j]
  }

  lemma {:induction false} OneMoreName(order: seq<Name>, names: set<Name>, todo: set<Name>, name: Name)
    requires Enumerates(order, names - todo) && todo <= names && name in todo
    ensures Enumerates(order + [name], names - (todo - {name}))
  {
    assert forall i :: 0 <= i < |order| ==> order[i] in order;
  }

  /** Only the two errors a caller expects of a path keep their kind; both are raised anew. */
  function Translated(e: Error): ListResult {
    if e == Os(ENOTDIR) then NotADirectory else if e == Os(ENOENT) then Missing else ListFailed(e)
  }

  /** The sorted listing of the entries asked in this order. */
  function Listing(stats: Stats, lower: Casing, t: nat, order: seq<Name>): seq<Child> {
    Sort(lower, Visited(stats, t, order))
  }

  /** The lister on the descriptor of inode `i`, which asks `n` entries and would list `all`. */
  function ListFrom(h: Host, t: nat, i: Inode, n: nat, all: seq<Child>): ListResult {
    if h.faults(t) then ListFailed(Os(EIO))
    else if !IsDir(h.tree(t), i) then ListFailed(if h.faults(t + 1) then Os(EIO) else Os(ENOTDIR))
    else if h.faults(t + 1 + n) || h.faults(t + 2 + n) then ListFailed(Os(EIO))
    else Children(all)
  }

  /** The answer to a listing that begins at instant `t` and is given the entries in this order. */
  ghost predicate Lists(h: Host, t: nat, parts: seq<Name>, stats: Stats, lower: Casing, order: seq<Name>,
                        r: ListResult)
  {
    var end := Walk(h, t, parts, true);
    match end.outcome
    case Opened(i) =>
      && r == ListFrom(h, end.time, i, |order|, Listing(stats, lower, end.time + 1, order))
      && (r.Children? ==> IsDir(h.tree(end.time), i) && Enumerates(order, h.tree(end.time)[i].entries.Keys))
      && (r.Children? <==> IsDir(h.tree(end.time), i) && !h.faults(end.time) &&
                           !h.faults(end.time + 1 + |order|) && !h.faults(end.time + 2 + |order|))
    case Failed(e) =>
      r == if e == Os(ENOTDIR) then NotADirectory else if e == Os(ENOENT) then Missing else ListFailed(e)
    case Leaked(_) => r == ListFailed(Os(EBADF))
  }

  lemma {:induction false} ListedIs(h: Host, t: nat, parts: seq<Name>, stats: Stats, lower: Casing, order: seq<Name>,
                                    children: seq<Child>)
    returns (i: Inode, s: nat)
    requires Lists(h, t, parts, stats, lower, order, Children(children))
    ensures Walk(h, t, parts, true) == End(Opened(i), s) && IsDir(h.tree(s), i)
    ensures Enumerates(order, h.tree(s)[i].entries.Keys) && children == Listing(stats, lower, s + 1, order)
  {
    var end := Walk(h, t, parts, true);
    i, s := end.outcome.inode, end.time;
  }

  /** `stat` answered at this instant for the entry, and this is the child with that answer. */
  ghost predicate Answered(stats: Stats, t: nat, name: Name, c: Child) {
    match stats(t, name)
    case None => false
    case Some(st) =>
      c.name == name && c.isDir == st.isDir && c.modified == st.modified && c.size == if st.isFile then st.size else 0
  }

  /** The children are sorted and named apart, and are the entries for which `stat` answered, each
      asked once, the `k`th at instant `t + k`. */
  ghost predicate AreEntries(stats: Stats, lower: Casing, t: nat, order: seq<Name>, entries: map<Name, Inode>,
                             children: seq<Child>)
  {
    && Enumerates(order, entries.Keys) && IsSorted(lower, children)
    && (forall c :: c in children <==> exists k :: 0 <= k < |order| && Answered(stats, t + k, order[k], c))
    && (forall i, j :: 0 <= i < j < |children| ==> children[i].name != children[j].name)
  }

  ghost predicate NamedApart(children: seq<Child>) {
    forall i, j :: 0 <= i < j < |children| ==> children[i].name != children[j].name
  }

  lemma {:induction false} VisitedIsExact(stats: Stats, t: nat, order: seq<Name>)
    requires forall i, j :: 0 <= i < j < |order| ==> order[i] != order[j]
    ensures forall c :: c in Visited(stats, t, order) <==>
      exists k :: 0 <= k < |order| && Answered(stats, t + k, order[k], c)
    ensures NamedApart(Visited(stats, t, order))
    decreases |order|
  {
    if order != [] {
      var n := |order| - 1;
      var init, last := Visited(stats, t, order[..n]), Found(stats, t + n, order[n]);
      VisitedIsExact(stats, t, order[..n]);
      forall c ensures c in init + last <==> exists k :: 0 <= k < |order| && Answered(stats, t + k, order[k], c) {
        assert c in last <==> Answered(stats, t + n, order[n], c);
        if k :| 0 <= k < |order| && Answered(stats, t + k, order[k], c) {
          assert k < n ==> order[..n][k] == order[k];
        }
      }
      forall c | c in init ensures c.name != order[n] {
        var k :| 0 <= k < n && Answered(stats, t + k, order[..n][k], c);
      }
    }
  }

  lemma {:induction false} OnceEach(children: seq<Child>, c: Child)
    requires NamedApart(children)
    ensures multiset(children)[c] <= 1
    decreases |children|
  {
    if children != [] {
      OnceEach(children[1..], c);
      assert children == [children[0]] + children[1..];
    }
  }

  lemma {:induction false} TwiceIn(children: seq<Child>, i: nat, j: nat)
    requires i < j < |children| && children[i] == children[j]
    ensures multiset(children)[children[i]] >= 2
  {
    assert children == children[..j] + children[j..];
    assert children[..j][i] == children[i] && children[j..][0] == children[j];
  }

  /** Reordering keeps the names apart. */
  lemma {:induction false} StillApart(a: seq<Child>, b: seq<Child>)
    requires NamedApart(a) && multiset(a) == multiset(b)
    ensures NamedApart(b) && forall c :: c in b <==> c in a
  {
    forall c ensures c in b <==> c in a {
      assert c in b <==> c in multiset(b);
      assert c in a <==> c in multiset(a);
    }
    forall i, j | 0 <= i < j < |b| ensures b[i].name != b[j].name {
      if b[i] == b[j] {
        TwiceIn(b, i, j);
        OnceEach(a, b[i]);
      } else {
        assert b[i] in a && b[j] in a;
      }
    }
  }

  lemma {:induction false} ListingIsEntries(stats: Stats, lower: Casing, t: nat, order: seq<Name>,
                                            entries: map<Name, Inode>)
    requires Enumerates(order, entries.Keys)
    ensures AreEntries(stats, lower, t, order, entries, Listing(stats, lower, t, order))
  {
    var found := Visited(stats, t, order);
    SortIsSorted(lower, found);
    VisitedIsExact(stats, t, order);
    StillApart(found, Sort(lower, found));
  }

  /** list_validated_children_fd: scandir works on a duplicate of the descriptor and gives
      the entries in an order of its own. */
  method ListValidatedChildren(p: Process, parts: seq<Name>, stats: Stats, lower: Casing)
    returns (r: ListResult, ghost order: seq<Name>)
    requires p.Valid()
    modifies p
    ensures p.Valid()
    ensures Released(p, old(p.fds), old(p.next), old(p.badCloses), Walk(p.host, old(p.now), parts, true).outcome)
    ensures Lists(p.host, old(p.now), parts, stats, lower, order, r)
  {
    order := [];
    var handle := p.OpenContained(parts, true);
    if handle.Raise? {
      return Translated(handle.error), order;
    }
    ghost var all;
    r, order, all := ListOpened(p, handle.value, stats, lower);
    assert p.fds == old(p.fds);
  }

  method ListOpened(p: Process, fd: nat, stats: Stats, lower: Casing)
    returns (r: ListResult, ghost order: seq<Name>, ghost all: seq<Child>)
    requires p.Valid() && fd in p.fds
    modifies p
    ensures p.Valid() && p.fds == old(p.fds) - {fd} && p.badCloses == old(p.badCloses)
    ensures r == ListFrom(p.host, old(p.now), old(p.fds[fd]), |order|, all)
    ensures all == Listing(stats, lower, old(p.now) + 1, order)
    ensures r.Children? ==> Enumerates(order, p.host.tree(old(p.now))[old(p.fds[fd])].entries.Keys)
  {
    var i := p.fds[fd];
    var fs, fault := p.host.tree(p.now), p.host.faults(p.now);
    p.now := p.now + 1;
    if fault || !IsDir(fs, i) {
      r, order := ListFailed(Os(if fault then EIO else ENOTDIR)), [];
      all := Listing(stats, lower, p.now, order);
    } else {
      r, order, all := ScanDuplicate(p, i, fs[i].entries.Keys, stats, lower);
    }
    r := CloseListing(p, fd, r);
  }

  /** The `with` block: scandir holds a duplicate of the descriptor and closes it at the end. */
  method ScanDuplicate(p: Process, i: Inode, names: set<Name>, stats: Stats, lower: Casing)
    returns (r: ListResult, ghost order: seq<Name>, ghost all: seq<Child>)
    requires p.Valid()
    modifies p
    ensures p.Valid() && p.fds == old(p.fds) && p.badCloses == old(p.badCloses)
    ensures p.now == old(p.now) + |order| + 1 && Enumerates(order, names)
    ensures all == Listing(stats, lower, old(p.now), order)
    ensures r == if p.host.faults(old(p.now) + |order|) then ListFailed(Os(EIO)) else Children(all)
  {
    var duplicate := p.next;
    p.fds, p.next := p.fds[duplicate := i], p.next + 1;
    var children;
    children, order := Scan(p, names, stats);
    var sorted := Sort(lower, children);
    all := sorted;
    var closed := p.OsClose(duplicate);
    r := if closed.Raise? then ListFailed(closed.error) else Children(sorted);
  }

  method CloseListing(p: Process, fd: nat, r0: ListResult) returns (r: ListResult)
    requires p.Valid() && fd in p.fds
    modifies p
    ensures p.Valid() && p.fds == old(p.fds) - {fd} && p.badCloses == old(p.badCloses)
    ensures r == if p.host.faults(old(p.now)) then ListFailed(Os(EIO)) else r0
  {
    var closed := p.OsClose(fd);
    r := if closed.Raise? then ListFailed(closed.error) else r0;
  }

  /** The loop over the entries. */
  method Scan(p: Process, names: set<Name>, stats: Stats) returns (children: seq<Child>, ghost order: seq<Name>)
    modifies p`now
    ensures p.now == old(p.now) + |order|
    ensures children == Visited(stats, old(p.now), order) && Enumerates(order, names)
  {
    children, order := [], [];
    var todo := names;
    while todo != {}
      invariant todo <= names && Enumerates(order, names - todo)
      invariant p.now == old(p.now) + |order| && children == Visited(stats, old(p.now), order)
      decreases |todo|
    {
      var name :| name in todo;
      OneMoreName(order, names, todo, name);
      todo := todo - {name};
      children := children + Found(stats, p.now, name);
      assert (order + [name])[..|order|] == order;
      order := order + [name];
      p.now := p.now + 1;
    }
  }
}
