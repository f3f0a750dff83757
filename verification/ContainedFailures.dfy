/** Exactly when the contained open and its callers fail to conserve descriptors. */
module ContainedFailures {
  import opened Wrappers
  import opened ContainedOpen
  import opened ContainedReaders

  // ---------------------------------------------------------------- the leak

  /** The component is entered: its open succeeds, the close of the directory it was opened in
      succeeds, and, where that is asked, it is seen to be a directory. */
  function Entered(h: Host, t: nat, dir: Inode, name: Name, wantDir: bool, verify: bool): Option<(Inode, nat)> {
    match Open(h, t, dir, name, wantDir)
    case Err(_) => None
    case Got(i) =>
      if h.faults(t + 1) then None
      else if !verify then Some((i, t + 2))
      else if !h.faults(t + 2) && IsDir(h.tree(t + 2), i) then Some((i, t + 3)) else None
  }

  /** The directory the walk is in once the first `k` components are entered, and the instant. */
  function Position(h: Host, t: nat, dir: Inode, parts: seq<Name>, lastDir: bool, k: nat): Option<(Inode, nat)>
    requires k <= |parts|
    decreases k
  {
    if k == 0 then Some((dir, t))
    else
      var last := |parts| == 1;
      match Entered(h, t, dir, parts[0], if last then lastDir else h.oDirectory, !last && !h.oDirectory)
      case None => None
      case Some(at) => Position(h, at.1, at.0, parts[1..], lastDir, k - 1)
  }

  /** Components before `k` are entered, component `k` opens, and the close that follows fails. */
  predicate CloseFails(h: Host, t: nat, dir: Inode, parts: seq<Name>, lastDir: bool, k: nat) {
    k < |parts| &&
    (var at := Position(h, t, dir, parts, lastDir, k);
     && at.Some?
     && Open(h, at.value.1, at.value.0, parts[k], if k == |parts| - 1 then lastDir else h.oDirectory).Got?
     && h.faults(at.value.1 + 1))
  }

  lemma {:induction false} CloseFailsLater(h: Host, t: nat, dir: Inode, parts: seq<Name>, lastDir: bool, k: nat)
    requires parts != []
    ensures var last := |parts| == 1;
      var at := Entered(h, t, dir, parts[0], if last then lastDir else h.oDirectory, !last && !h.oDirectory);
      CloseFails(h, t, dir, parts, lastDir, k + 1) <==>
        at.Some? && CloseFails(h, at.value.1, at.value.0, parts[1..], lastDir, k)
  {
    if k + 1 < |parts| { assert parts[1..][k] == parts[k + 1]; }
  }

  lemma {:induction false} LeakHasClose(h: Host, t: nat, dir: Inode, parts: seq<Name>, lastDir: bool) returns (k: nat)
    requires WalkFrom(h, t, dir, parts, lastDir).outcome.Leaked?
    ensures CloseFails(h, t, dir, parts, lastDir, k)
    decreases |parts|
  {
    var last := |parts| == 1;
    var at := Entered(h, t, dir, parts[0], if last then lastDir else h.oDirectory, !last && !h.oDirectory);
    k := 0;
    if at.Some? {
      k := LeakHasClose(h, at.value.1, at.value.0, parts[1..], lastDir);
      CloseFailsLater(h, t, dir, parts, lastDir, k);
      k := k + 1;
    }
  }

  lemma {:induction false} CloseFailsLeaks(h: Host, t: nat, dir: Inode, parts: seq<Name>, lastDir: bool, k: nat)
    requires CloseFails(h, t, dir, parts, lastDir, k)
    ensures WalkFrom(h, t, dir, parts, lastDir).outcome.Leaked?
    decreases k
  {
    if k > 0 {
      CloseFailsLater(h, t, dir, parts, lastDir, k - 1);
      var last := |parts| == 1;
      var at := Entered(h, t, dir, parts[0], if last then lastDir else h.oDirectory, !last && !h.oDirectory);
      CloseFailsLeaks(h, at.value.1, at.value.0, parts[1..], lastDir, k - 1);
    }
  }

  ghost predicate SomeCloseFails(h: Host, t: nat, dir: Inode, parts: seq<Name>, lastDir: bool) {
    exists k :: CloseFails(h, t, dir, parts, lastDir, k)
  }

  lemma {:induction false} WalkFromLeaks(h: Host, t: nat, dir: Inode, parts: seq<Name>, lastDir: bool)
    ensures WalkFrom(h, t, dir, parts, lastDir).outcome.Leaked? <==> SomeCloseFails(h, t, dir, parts, lastDir)
  {
    if WalkFrom(h, t, dir, parts, lastDir).outcome.Leaked? {
      var k := LeakHasClose(h, t, dir, parts, lastDir);
    } else if k :| CloseFails(h, t, dir, parts, lastDir, k) {
      CloseFailsLeaks(h, t, dir, parts, lastDir, k);
    }
  }

  /** The walk leaks a descriptor exactly when the base and the components before some one
      are entered, that component opens, and the close of its directory then fails. */
  lemma {:induction false} LeaksExactlyWhenACloseFails(h: Host, t: nat, parts: seq<Name>, lastDir: bool)
    ensures var base := Open(h, t, h.parent, h.baseName, h.oDirectory);
      Walk(h, t, parts, lastDir).outcome.Leaked? <==>
        h.dirFd && base.Got? && SomeCloseFails(h, t + 1, base.inode, parts, lastDir)
  {
    var base := Open(h, t, h.parent, h.baseName, h.oDirectory);
    if base.Got? { WalkFromLeaks(h, t + 1, base.inode, parts, lastDir); }
  }

  lemma {:induction false} WalkFromLeakNeedsFault(h: Host, t: nat, dir: Inode, parts: seq<Name>, lastDir: bool)
    returns (s: nat)
    requires WalkFrom(h, t, dir, parts, lastDir).outcome.Leaked?
    ensures t < s < WalkFrom(h, t, dir, parts, lastDir).time && h.faults(s)
    decreases |parts|
  {
    var last := |parts| == 1;
    var step := StepFrom(h, t, dir, parts[0], if last then lastDir else h.oDirectory, !last && !h.oDirectory);
    s := t + 1;
    if step.Down? { s := WalkFromLeakNeedsFault(h, step.time, step.inode, parts[1..], lastDir); }
  }

  /** Without a failing system call inside the walk no descriptor is leaked. */
  lemma {:induction false} NoFaultNoLeak(h: Host, t: nat, parts: seq<Name>, lastDir: bool)
    requires forall s :: t < s < Walk(h, t, parts, lastDir).time ==> !h.faults(s)
    ensures !Walk(h, t, parts, lastDir).outcome.Leaked?
  {
    if Walk(h, t, parts, lastDir).outcome.Leaked? {
      var base := Open(h, t, h.parent, h.baseName, h.oDirectory).inode;
      var s := WalkFromLeakNeedsFault(h, t + 1, base, parts, lastDir);
    }
  }

  /** A host whose walk to "f" leaks: the close of the base directory fails. */
  lemma {:induction false} LeakHappens() returns (h: Host)
    ensures Walk(h, 0, ["f"], false).outcome == Leaked(2)
  {
    var fs: FS := map[0 := Dir(map["base" := 1]), 1 := Dir(map["f" := 2]), 2 := File("text")];
    h := Host(_ => fs, s => s == 2, 0, "base", true, true);
    assert Open(h, 0, 0, "base", true) == Got(1);
    assert Open(h, 1, 1, "f", false) == Got(2);
    assert StepFrom(h, 1, 1, "f", false, false) == Stop(End(Leaked(2), 4));
  }

  // ---------------------------------------------------------------- the second close

  /** The walk raises EBADF only when it leaks. */
  lemma {:induction false} WalkFailsOtherwise(h: Host, t: nat, dir: Inode, parts: seq<Name>, lastDir: bool)
    ensures WalkFrom(h, t, dir, parts, lastDir).outcome != Failed(Os(EBADF))
    decreases |parts|
  {
    if parts != [] {
      var last := |parts| == 1;
      var step := StepFrom(h, t, dir, parts[0], if last then lastDir else h.oDirectory, !last && !h.oDirectory);
      if step.Down? { WalkFailsOtherwise(h, step.time, step.inode, parts[1..], lastDir); }
    }
  }

  /** The reader's caller sees EBADF exactly when the walk leaked a descriptor or the reader
      closed its own twice, so neither goes unnoticed. */
  lemma {:induction false} BadDescriptorIsSeen(h: Host, t: nat, parts: seq<Name>, maxBytes: int, encoding: Encoding)
    ensures var end := Walk(h, t, parts, false);
      Read(h, t, parts, true, maxBytes, encoding) == ReadFailed(Os(EBADF)) <==>
        match end.outcome {
          case Leaked(_) => true
          case Opened(i) => ClosesTwice(h, end.time, i, maxBytes, encoding)
          case Failed(_) => false
        }
  {
    var base := Open(h, t, h.parent, h.baseName, h.oDirectory);
    if h.dirFd && base.Got? { WalkFailsOtherwise(h, t + 1, base.inode, parts, false); }
  }

  /** A file of base opened without trouble and closed twice for want of the encoding. */
  lemma {:induction false} SecondCloseHappens() returns (h: Host)
    ensures var end := Walk(h, 0, ["f"], false);
      end.outcome == Opened(2) && ClosesTwice(h, end.time, 2, 4, None)
        && Read(h, 0, ["f"], true, 4, None) == ReadFailed(Os(EBADF))
  {
    var fs: FS := map[0 := Dir(map["base" := 1]), 1 := Dir(map["f" := 2]), 2 := File("text")];
    h := Host(_ => fs, _ => false, 0, "base", true, true);
    assert Open(h, 0, 0, "base", true) == Got(1);
    assert Open(h, 1, 1, "f", false) == Got(2);
    assert StepFrom(h, 1, 1, "f", false, false) == Down(2, 3);
    assert ["f"][1..] == [] && WalkFrom(h, 3, 2, [], false) == End(Opened(2), 3);
  }
}
