/** The contained open (`_open_contained` in Dimensionals/path_validation.py): the
    walk from a base directory, one component at a time, while the tree changes. */
module ContainedOpen {
  import opened Wrappers

  type Inode = nat
  type Name = string
  datatype Node = File(content: string) | Dir(entries: map<Name, Inode>) | Link(target: string) | Device
  type FS = map<Inode, Node>

  datatype Errno = ELOOP | ENOTDIR | ENOENT | EBADF | EIO
  datatype Error = Traversal | Os(errno: Errno)

  /** `tree(t)` is the file system at instant `t`, and every system call happens
      at one instant of its own: whatever other processes do between two calls is
      the difference between two instants. `faults(t)` makes the call at `t` fail
      for a reason of its own. The base directory is the entry `baseName` of the
      trusted directory `parent`. */
  datatype Host = Host(tree: nat -> FS, faults: nat -> bool, parent: Inode, baseName: Name, dirFd: bool,
    oDirectory: bool)

  datatype Attempt = Got(inode: Inode) | Err(errno: Errno)

  predicate IsDir(fs: FS, i: Inode) {
    i in fs && fs[i].Dir?
  }

  /** openat with O_NOFOLLOW, and O_DIRECTORY when `wantDir`. */
  function Lookup(fs: FS, dir: Inode, name: Name, wantDir: bool): Attempt {
    if !IsDir(fs, dir) then Err(ENOTDIR)
    else if name !in fs[dir].entries then Err(ENOENT)
    else
      var i := fs[dir].entries[name];
      if i !in fs then Err(ENOENT)
      else if fs[i].Link? then Err(if wantDir then ENOTDIR else ELOOP)
      else if wantDir && !fs[i].Dir? then Err(ENOTDIR)
      else Got(i)
  }

  function Open(h: Host, t: nat, dir: Inode, name: Name, wantDir: bool): Attempt {
    if h.faults(t) then Err(EIO) else Lookup(h.tree(t), dir, name, wantDir)
  }

  /** lstat relative to the directory; false when the call fails. */
  predicate IsLinkAt(h: Host, t: nat, dir: Inode, name: Name) {
    var fs := h.tree(t);
    !h.faults(t) && IsDir(fs, dir) && name in fs[dir].entries && fs[dir].entries[name] in fs
      && fs[fs[dir].entries[name]].Link?
  }

  /** A symlink answers ELOOP or ENOTDIR; the second also has harmless causes. */
  predicate Ambiguous(e: Errno) {
    e == ELOOP || e == ENOTDIR
  }

  function Classify(h: Host, t: nat, dir: Inode, name: Name, e: Errno): Error {
    if Ambiguous(e) && IsLinkAt(h, t, dir, name) then Traversal else Os(e)
  }

  function CheckTime(e: Errno): nat {
    if Ambiguous(e) then 1 else 0
  }

  /** `Leaked`: closing the directory just left failed, and the descriptor just
      opened stays open although the call raises. */
  datatype Opening = Opened(inode: Inode) | Failed(error: Error) | Leaked(inode: Inode)
  datatype End = End(outcome: Opening, time: nat)

  datatype Step = Down(inode: Inode, time: nat) | Stop(end: End)

  /** One component: open it, close its directory, and check that it is a
      directory where O_DIRECTORY did not. */
  function StepFrom(h: Host, t: nat, dir: Inode, name: Name, wantDir: bool, verify: bool): Step {
    match Open(h, t, dir, name, wantDir)
    case Err(e) =>
      var t1 := t + 1 + CheckTime(e);
      Stop(End(Failed(if h.faults(t1) then Os(EIO) else Classify(h, t + 1, dir, name, e)), t1 + 1))
    case Got(i) =>
      if h.faults(t + 1) then Stop(End(Leaked(i), t + 3))
      else if !verify then Down(i, t + 2)
      else if !h.faults(t + 2) && IsDir(h.tree(t + 2), i) then Down(i, t + 3)
      else Stop(End(Failed(if h.faults(t + 2) || h.faults(t + 3) then Os(EIO) else Os(ENOTDIR)), t + 4))
  }

  /** The walk over inodes, without any descriptor. */
  function WalkFrom(h: Host, t: nat, dir: Inode, parts: seq<Name>, lastDir: bool): End
    decreases |parts|
  {
    if parts == [] then End(Opened(dir), t)
    else
      var last := |parts| == 1;
      match StepFrom(h, t, dir, parts[0], if last then lastDir else h.oDirectory, !last && !h.oDirectory)
      case Stop(end) => end
      case Down(i, t1) => WalkFrom(h, t1, i, parts[1..], lastDir)
  }

  function Walk(h: Host, t: nat, parts: seq<Name>, lastDir: bool): End {
    if !h.dirFd then End(Failed(Traversal), t)
    else
      match Open(h, t, h.parent, h.baseName, h.oDirectory)
      case Err(e) => End(Failed(Classify(h, t + 1, h.parent, h.baseName, e)), t + 1 + CheckTime(e))
      case Got(i) => WalkFrom(h, t + 1, i, parts, lastDir)
  }

  // ---------------------------------------------------------------- descriptors

  datatype Result<T> = Ok(value: T) | Raise(error: Error)

  /** The process's side: its clock and its descriptor table. A number is never
      reused, so a second close of it is visible as a bad close. */
  class Process {
    const host: Host
    var now: nat
    var next: nat
    var fds: map<nat, Inode>
    var badCloses: nat

    ghost predicate Valid()
      reads this
    {
      forall fd :: fd in fds ==> fd < next
    }

    constructor (host: Host)
      ensures Valid() && this.host == host && now == 0 && fds == map[] && badCloses == 0
    {
      this.host := host;
      now, next, fds, badCloses := 0, 0, map[], 0;
    }

    method OsOpen(dir: Inode, name: Name, wantDir: bool) returns (r: Result<nat>)
      requires Valid()
      modifies this`now, this`next, this`fds
      ensures Valid() && now == old(now) + 1
      ensures match Open(host, old(now), dir, name, wantDir)
              case Err(e) => r == Raise(Os(e)) && fds == old(fds) && next == old(next)
              case Got(i) => r == Ok(old(next)) && fds == old(fds)[old(next) := i] && next == old(next) + 1
    {
      var attempt := Open(host, now, dir, name, wantDir);
      now := now + 1;
      match attempt {
        case Err(e) => r := Raise(Os(e));
        case Got(i) =>
          fds := fds[next := i];
          r := Ok(next);
          next := next + 1;
      }
    }

    /** The descriptor is released even when close reports an error, as on Linux. */
    method OsClose(fd: nat) returns (r: Result<()>)
      requires Valid()
      modifies this`now, this`fds, this`badCloses
      ensures Valid() && now == old(now) + 1
      ensures fd in old(fds) ==> fds == old(fds) - {fd} && badCloses == old(badCloses)
      ensures fd in old(fds) ==> r == if host.faults(old(now)) then Raise(Os(EIO)) else Ok(())
      ensures fd !in old(fds) ==> fds == old(fds) && badCloses == old(badCloses) + 1 && r == Raise(Os(EBADF))
    {
      if fd !in fds {
        badCloses := badCloses + 1;
        r := Raise(Os(EBADF));
      } else {
        fds := fds - {fd};
        r := if host.faults(now) then Raise(Os(EIO)) else Ok(());
      }
      now := now + 1;
    }

    method OsIsLink(dir: Inode, name: Name) returns (b: bool)
      modifies this`now
      ensures now == old(now) + 1 && b == IsLinkAt(host, old(now), dir, name)
    {
      b := IsLinkAt(host, now, dir, name);
      now := now + 1;
    }

    method Classified(dir: Inode, name: Name, e: Errno) returns (error: Error)
      modifies this`now
      ensures now == old(now) + CheckTime(e) && error == Classify(host, old(now), dir, name, e)
    {
      error := Os(e);
      if Ambiguous(e) {
        var isLink := OsIsLink(dir, name);
        if isLink {
          error := Traversal;
        }
      }
    }

    /** The exception handler of the walk: close what is held, then re-raise. */
    method CloseAndRaise(fd: nat, error: Error) returns (r: Result<nat>)
      requires Valid()
      modifies this`now, this`fds, this`badCloses
      ensures Valid() && now == old(now) + 1 && r.Raise?
      ensures fd in old(fds) ==> fds == old(fds) - {fd} && badCloses == old(badCloses)
      ensures fd in old(fds) ==> r.error == if host.faults(old(now)) then Os(EIO) else error
      ensures fd !in old(fds) ==> fds == old(fds) && badCloses == old(badCloses) + 1 && r.error == Os(EBADF)
    {
      var closed := OsClose(fd);
      r := Raise(if closed.Ok? then error else closed.error);
    }

    /** Descriptors are conserved on every path: one more on return, none on an
        exception, except that a failing close inside the loop leaks one. */
    ghost predicate Settled(before: map<nat, Inode>, bound: nat, bad: nat, outcome: Opening, r: Result<nat>)
      reads this
    {
      match outcome
      case Opened(i) => r.Ok? && bound <= r.value && fds == before[r.value := i] && badCloses == bad
      case Failed(e) => r == Raise(e) && fds == before && badCloses == bad
      case Leaked(i) =>
        && r == Raise(Os(EBADF)) && badCloses == bad + 1
        && exists fd :: fd in fds && bound <= fd && fds == before[fd := i]
    }

    method StepInto(fd: nat, name: Name, wantDir: bool, verify: bool) returns (r: Result<nat>)
      requires Valid() && fd in fds
      modifies this`now, this`next, this`fds, this`badCloses
      ensures Valid() && old(next) <= next
      ensures match StepFrom(host, old(now), old(fds[fd]), name, wantDir, verify)
              case Down(i, t) =>
                && now == t && r == Ok(old(next)) && fds == (old(fds) - {fd})[old(next) := i]
                && badCloses == old(badCloses)
              case Stop(end) =>
                && now == end.time
                && StepStopped(end.outcome, r, old(fds) - {fd}, old(next), old(badCloses))
    {
      var dir := fds[fd];
      r := OsOpen(dir, name, wantDir);
      if r.Raise? {
        var error := Classified(dir, name, r.error.errno);
        r := CloseAndRaise(fd, error);
        return;
      }
      var nxt := r.value;
      var closed := OsClose(fd);
      if closed.Raise? {
        r := CloseAndRaise(fd, closed.error);
        return;
      }
      if verify {
        assert fds - {nxt} == old(fds) - {fd};
        r := CheckDirectory(nxt);
      }
    }

    /** The `fstat` that stands in for O_DIRECTORY. */
    method CheckDirectory(fd: nat) returns (r: Result<nat>)
      requires Valid() && fd in fds
      modifies this`now, this`fds, this`badCloses
      ensures Valid() && badCloses == old(badCloses)
      ensures var t := old(now); var failed := host.faults(t) || host.faults(t + 1);
        if !host.faults(t) && IsDir(host.tree(t), old(fds[fd])) then r == Ok(fd) && now == t + 1 && fds == old(fds)
        else r == Raise(Os(if failed then EIO else ENOTDIR)) && now == t + 2 && fds == old(fds) - {fd}
    {
      var isDir := !host.faults(now) && IsDir(host.tree(now), fds[fd]);
      var error := if host.faults(now) then Os(EIO) else Os(ENOTDIR);
      now := now + 1;
      if isDir {
        r := Ok(fd);
      } else {
        r := CloseAndRaise(fd, error);
      }
    }

    ghost predicate StepStopped(outcome: Opening, r: Result<nat>, rest: map<nat, Inode>, bound: nat, bad: nat)
      reads this
    {
      match outcome
      case Opened(_) => false
      case Failed(e) => r == Raise(e) && fds == rest && badCloses == bad
      case Leaked(i) => r == Raise(Os(EBADF)) && bound in fds && fds == rest[bound := i] && badCloses == bad + 1
    }

    method OpenContained(parts: seq<Name>, lastDir: bool) returns (r: Result<nat>)
      requires Valid()
      modifies this`now, this`next, this`fds, this`badCloses
      ensures Valid() && old(next) <= next
      ensures now == Walk(host, old(now), parts, lastDir).time
      ensures Settled(old(fds), old(next), old(badCloses), Walk(host, old(now), parts, lastDir).outcome, r)
    {
      if !host.dirFd {
        return Raise(Traversal);
      }
      r := OsOpen(host.parent, host.baseName, host.oDirectory);
      if r.Raise? {
        var error := Classified(host.parent, host.baseName, r.error.errno);
        return Raise(error);
      }
      assert fds - {r.value} == old(fds);
      r := WalkDown(r.value, parts, lastDir);
    }

    /** The loop over the components, holding exactly one descriptor. */
    method WalkDown(base: nat, parts: seq<Name>, lastDir: bool) returns (r: Result<nat>)
      requires Valid() && base in fds
      modifies this`now, this`next, this`fds, this`badCloses
      ensures Valid() && old(next) <= next
      ensures var end := WalkFrom(host, old(now), old(fds[base]), parts, lastDir);
              now == end.time && Settled(old(fds) - {base}, base, old(badCloses), end.outcome, r)
    {
      var fd := base;
      ghost var rest := fds - {base};
      ghost var end := WalkFrom(host, now, fds[base], parts, lastDir);
      for i := 0 to |parts|
        invariant Valid() && base <= fd < next && old(next) <= next && badCloses == old(badCloses)
        invariant fd in fds && fds - {fd} == rest
        invariant end == WalkFrom(host, now, fds[fd], parts[i..], lastDir)
      {
        ghost var rest' := parts[i..];
        assert rest'[0] == parts[i] && rest'[1..] == parts[i + 1..];
        var last := i == |parts| - 1;
        r := StepInto(fd, parts[i], if last then lastDir else host.oDirectory, !last && !host.oDirectory);
        if r.Raise? {
          return;
        }
        fd := r.value;
        assert fd in fds && fds - {fd} == rest;
      }
      assert fds == rest[fd := fds[fd]];
      return Ok(fd);
    }
  }
}
