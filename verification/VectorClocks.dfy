/** Vector clocks (Dimensionals/models.py): the clock operations, the join
    semilattice they form, and the happens-before characterisation of `compare`. */
module VectorClocks {
  import opened Wrappers

  type Node = string
  type Clock = map<Node, int>

  datatype Order = Before | After | Concurrent | Equal

  /** `clock.get(node, 0)`. */
  function Count(c: Clock, k: Node): int {
    if k in c then c[k] else 0
  }

  function Incremented(c: Clock, k: Node): Clock {
    c[k := Count(c, k) + 1]
  }

  /** Entry-wise maximum, taken over the entries of `d` only, as `merge` does. */
  function Merged(c: Clock, d: Clock): Clock {
    map k | k in c.Keys + d.Keys :: if k in d && Count(c, k) <= d[k] then d[k] else Count(c, k)
  }

  ghost predicate Leq(c: Clock, d: Clock) {
    forall k :: Count(c, k) <= Count(d, k)
  }

  ghost predicate NonNegative(c: Clock) {
    forall k :: k in c ==> 0 <= c[k]
  }

  function Flip(o: Order): Order {
    match o
    case Before => After
    case After => Before
    case _ => o
  }

  /** `compare` scans only the keys that occur; its contract says what the four
      answers mean over all nodes. */
  function Compare(c: Clock, d: Clock): (r: Order)
    ensures r == Before <==> Leq(c, d) && !Leq(d, c)
    ensures r == After <==> Leq(d, c) && !Leq(c, d)
    ensures r == Equal <==> Leq(c, d) && Leq(d, c)
    ensures r == Concurrent <==> !Leq(c, d) && !Leq(d, c)
  {
    var keys := c.Keys + d.Keys;
    var before := exists k | k in keys :: Count(c, k) < Count(d, k);
    var after := exists k | k in keys :: Count(c, k) > Count(d, k);
    assert before <==> !Leq(d, c) by {
      if k :| Count(d, k) < Count(c, k) { assert k in keys; }
      if k :| Count(c, k) < Count(d, k) { assert k in keys; }
    }
    assert after <==> !Leq(c, d) by {
      if k :| Count(d, k) < Count(c, k) { assert k in keys; }
    }
    if before && after then Concurrent else if before then Before else if after then After else Equal
  }

  class VectorClock {
    var clock: Clock

    constructor ()
      ensures clock == map[]
    {
      clock := map[];
    }

    method Increment(node: Node)
      modifies this
      ensures clock == Incremented(old(clock), node)
    {
      clock := clock[node := Count(clock, node) + 1];
    }

    /** The entries of `other` are visited in an arbitrary order, and `other`
        may be this very clock. */
    method Merge(other: VectorClock)
      modifies this
      ensures clock == Merged(old(clock), old(other.clock))
      ensures other != this ==> other.clock == old(other.clock)
    {
      ghost var mine, theirs := clock, other.clock;
      var todo := other.clock.Keys;
      while todo != {}
        invariant todo <= theirs.Keys
        invariant other != this ==> other.clock == theirs
        invariant other == this ==> clock == theirs
        invariant clock.Keys == mine.Keys + (theirs.Keys - todo)
        invariant forall k :: k in clock ==>
          clock[k] == if k in theirs && k !in todo && Count(mine, k) <= theirs[k] then theirs[k] else Count(mine, k)
        decreases todo
      {
        var node :| node in todo;
        var counter := other.clock[node];
        clock := clock[node := if Count(clock, node) <= counter then counter else Count(clock, node)];
        todo := todo - {node};
      }
    }
  }

  // ---------------------------------------------------------------- semilattice

  /** `merge` is the least upper bound exactly when no entry of the receiver that
      the argument lacks is negative; clocks grown from {} by increment and merge
      never have one (StampsAreNonNegative). */
  lemma {:induction false} MergeIsLeastUpperBound(c: Clock, d: Clock)
    ensures (forall u :: Leq(Merged(c, d), u) <==> Leq(c, u) && Leq(d, u)) <==>
       (forall k :: k in c && k !in d ==> 0 <= c[k])
  {
    var m := Merged(c, d);
    if k :| k in c && k !in d && c[k] < 0 {
      assert Leq(m, m);
      assert Count(d, k) > Count(m, k);
      assert !Leq(d, m);
    } else {
      forall u ensures Leq(m, u) <==> Leq(c, u) && Leq(d, u) {
        assert forall k :: Count(c, k) <= Count(m, k) && Count(d, k) <= Count(m, k);
        assert forall k :: Count(m, k) == Count(c, k) || Count(m, k) == Count(d, k);
      }
    }
  }

  /** No entry of `c` that `d` lacks is negative. */
  ghost predicate Covers(c: Clock, d: Clock) {
    forall k :: k in c && k !in d ==> 0 <= c[k]
  }

  /** No entry that `d` lacks is negative in both `c` and `e`. */
  ghost predicate Bridges(c: Clock, d: Clock, e: Clock) {
    forall k :: k in c && k in e && k !in d ==> 0 <= c[k] || 0 <= e[k]
  }

  /** For all clocks: merging is idempotent and decides the order; it commutes and associates
      exactly when the negative entries allow it, so always on the clocks of a run. */
  lemma {:induction false} MergeIsSemilattice(c: Clock, d: Clock, e: Clock)
    ensures Merged(c, c) == c
    ensures Leq(c, d) <==> Leq(Merged(c, d), d)
    ensures Merged(c, d) == Merged(d, c) <==> Covers(c, d) && Covers(d, c)
    ensures Merged(Merged(c, d), e) == Merged(c, Merged(d, e)) <==> Bridges(c, d, e)
    ensures NonNegative(c) && NonNegative(d) ==>
      NonNegative(Merged(c, d)) && Covers(c, d) && Covers(d, c) && Bridges(c, d, e)
  {
    MergeDecidesOrder(c, d);
    MergeCommutes(c, d);
    MergeAssociates(c, d, e);
    NonNegativeIsKept(c, d, e);
  }

  lemma {:induction false} MergeDecidesOrder(c: Clock, d: Clock)
    ensures Merged(c, c) == c
    ensures Leq(c, d) <==> Leq(Merged(c, d), d)
  {
    forall k ensures Count(Merged(c, d), k) <= Count(d, k) <==> Count(c, k) <= Count(d, k) {
    }
  }

  lemma {:induction false} NonNegativeIsKept(c: Clock, d: Clock, e: Clock)
    ensures NonNegative(c) && NonNegative(d) ==>
      NonNegative(Merged(c, d)) && Covers(c, d) && Covers(d, c) && Bridges(c, d, e)
  {
  }

  lemma {:induction false} MergeCommutes(c: Clock, d: Clock)
    ensures Merged(c, d) == Merged(d, c) <==> Covers(c, d) && Covers(d, c)
  {
    var l, r := Merged(c, d), Merged(d, c);
    assert l.Keys == r.Keys;
    if k :| k in c && k !in d && c[k] < 0 {
      assert l[k] < r[k];
    } else if k :| k in d && k !in c && d[k] < 0 {
      assert r[k] < l[k];
    } else {
      assert forall k :: k in l ==> l[k] == r[k];
    }
  }

  lemma {:induction false} MergeAssociates(c: Clock, d: Clock, e: Clock)
    ensures Merged(Merged(c, d), e) == Merged(c, Merged(d, e)) <==> Bridges(c, d, e)
  {
    var l, r := Merged(Merged(c, d), e), Merged(c, Merged(d, e));
    assert l.Keys == r.Keys;
    if k :| k in c && k in e && k !in d && c[k] < 0 && e[k] < 0 {
      EntriesAssociate(c, d, e, k);
      assert l[k] != r[k];
    } else {
      forall k | k in l ensures l[k] == r[k] { EntriesAssociate(c, d, e, k); }
    }
  }

  lemma {:induction false} EntriesAssociate(c: Clock, d: Clock, e: Clock, k: Node)
    requires k in c || k in d || k in e
    ensures Merged(Merged(c, d), e)[k] == Merged(c, Merged(d, e))[k] <==>
            !(k in c && k in e && k !in d && c[k] < 0 && e[k] < 0)
  {
    var cd, de := Merged(c, d), Merged(d, e);
    assert k in c || k in d ==> cd[k] == if k in d && Count(c, k) <= d[k] then d[k] else Count(c, k);
    assert k in d || k in e ==> de[k] == if k in e && Count(d, k) <= e[k] then e[k] else Count(d, k);
  }

  lemma {:induction false} MergedCount(c: Clock, d: Clock, k: Node)
    requires 0 <= Count(c, k)
    ensures Count(Merged(c, d), k) == if Count(c, k) <= Count(d, k) then Count(d, k) else Count(c, k)
  {
  }

  /** The verdict flips when the clocks are swapped, "before" is transitive, and
      `increment` moves strictly after. */
  lemma {:induction false} CompareIsStrictOrder(c: Clock, d: Clock, e: Clock, n: Node)
    ensures Compare(d, c) == Flip(Compare(c, d))
    ensures Compare(c, d) == Before && Compare(d, e) == Before ==> Compare(c, e) == Before
    ensures Compare(c, Incremented(c, n)) == Before
  {
    assert Count(Incremented(c, n), n) == Count(c, n) + 1;
    if Leq(c, d) && Leq(d, e) {
      forall k ensures Count(c, k) <= Count(e, k) {
        assert Count(c, k) <= Count(d, k) <= Count(e, k);
      }
      if Leq(e, c) {
        forall k ensures Count(d, k) <= Count(c, k) {
          assert Count(d, k) <= Count(e, k) <= Count(c, k);
        }
      }
    }
  }

  // ---------------------------------------------------------------- runs

  /** One event of a process. `received` names the earlier event whose clock the
      incoming message carries, if the event is a receipt. */
  datatype Event = Event(proc: Node, received: Option<nat>)
  type Run = seq<Event>

  ghost predicate ValidRun(run: Run) {
    forall i :: 0 <= i < |run| && run[i].received.Some? ==> run[i].received.value < i
  }

  /** The clock process `p` holds after the first `n` events of the run. */
  ghost function ClockOf(run: Run, p: Node, n: nat): Clock
    requires ValidRun(run) && n <= |run|
    decreases n, 0
  {
    if n == 0 then map[]
    else if run[n - 1].proc == p then Stamp(run, n - 1)
    else ClockOf(run, p, n - 1)
  }

  /** The clock of the `i`th event: merge what was received, then increment. */
  ghost function Stamp(run: Run, i: nat): Clock
    requires ValidRun(run) && i < |run|
    decreases i, 1
  {
    var own := ClockOf(run, run[i].proc, i);
    var seen := if run[i].received.Some? then Merged(own, Stamp(run, run[i].received.value)) else own;
    Incremented(seen, run[i].proc)
  }

  /** One step of Lamport's relation: same process, or sent and received. */
  ghost predicate Edge(run: Run, a: nat, b: nat) {
    a < b < |run| && (run[a].proc == run[b].proc || run[b].received == Some(a))
  }

  ghost predicate Chain(run: Run, path: seq<nat>) {
    && path != []
    && (forall m :: 0 <= m < |path| ==> path[m] < |run|)
    && (forall m :: 0 < m < |path| ==> Edge(run, path[m - 1], path[m]))
  }

  ghost predicate HappensBefore(run: Run, i: nat, j: nat) {
    exists path :: Chain(run, path) && 1 < |path| && path[0] == i && path[|path| - 1] == j
  }

  method HandleEvent(own: VectorClock, p: Node, message: Option<Clock>)
    modifies own
    ensures own.clock == Incremented(if message.Some? then Merged(old(own.clock), message.value) else old(own.clock), p)
  {
    if message.Some? {
      var sender := new VectorClock();
      sender.clock := message.value;
      own.Merge(sender);
    }
    own.Increment(p);
  }

  lemma {:induction false} ClockOfNext(run: Run, q: Node, i: nat)
    requires ValidRun(run) && i < |run|
    ensures ClockOf(run, q, i + 1) == if q == run[i].proc then Stamp(run, i) else ClockOf(run, q, i)
  {
  }

  lemma {:induction false} ClocksNext(run: Run, i: nat, next: nat)
    requires ValidRun(run) && i < |run| && next == i + 1
    ensures forall q :: ClockOf(run, q, next) == if q == run[i].proc then Stamp(run, i) else ClockOf(run, q, i)
  {
    forall q ensures ClockOf(run, q, next) == if q == run[i].proc then Stamp(run, i) else ClockOf(run, q, i) {
      ClockOfNext(run, q, i);
    }
  }

  /** One event of a run, with the class above. */
  method TakeEvent(own: VectorClock, run: Run, i: nat, stamps: seq<Clock>)
    requires ValidRun(run) && i < |run| && own.clock == ClockOf(run, run[i].proc, i)
    requires |stamps| == i && forall m :: 0 <= m < i ==> stamps[m] == Stamp(run, m)
    modifies own
    ensures own.clock == Stamp(run, i)
  {
    HandleEvent(own, run[i].proc, if run[i].received.Some? then Some(stamps[run[i].received.value]) else None);
  }

  /** Runs any schedule of the processes with the class above. */
  method Execute(run: Run) returns (stamps: seq<Clock>)
    requires ValidRun(run)
    ensures |stamps| == |run|
    ensures forall i :: 0 <= i < |run| ==> stamps[i] == Stamp(run, i)
  {
    stamps := [];
    var clocks: map<Node, VectorClock> := map[];
    for i := 0 to |run|
      invariant |stamps| == i
      invariant forall m :: 0 <= m < i ==> stamps[m] == Stamp(run, m)
      invariant forall p :: p in clocks ==> fresh(clocks[p])
      invariant forall p, q :: p in clocks && q in clocks && p != q ==> clocks[p] != clocks[q]
      invariant forall p :: ClockOf(run, p, i) == if p in clocks then clocks[p].clock else map[]
    {
      var p := run[i].proc;
      if p !in clocks {
        var first := new VectorClock();
        clocks := clocks[p := first];
      }
      var own := clocks[p];
      assert forall q :: q in clocks && q != p ==> clocks[q] != own;
      TakeEvent(own, run, i, stamps);
      ClocksNext(run, i, i + 1);
      stamps := stamps + [own.clock];
    }
  }

  // ---------------------------------------------------------------- proof

  /** How many of the first `n` events belong to `p`. */
  ghost function Events(run: Run, p: Node, n: nat): nat
    requires n <= |run|
  {
    if n == 0 then 0 else Events(run, p, n - 1) + if run[n - 1].proc == p then 1 else 0
  }

  lemma {:induction false} EventsMonotone(run: Run, p: Node, m: nat, n: nat)
    requires m <= n <= |run|
    ensures Events(run, p, m) <= Events(run, p, n)
    decreases n
  {
    if m < n { EventsMonotone(run, p, m, n - 1); }
  }

  /** No clock counts more events of `q` than have happened; a process counts its own exactly. */
  lemma {:induction false} ClockBounds(run: Run, p: Node, n: nat, q: Node)
    requires ValidRun(run) && n <= |run|
    ensures 0 <= Count(ClockOf(run, p, n), q) <= Events(run, q, n)
    ensures Count(ClockOf(run, p, n), p) == Events(run, p, n)
    decreases n, 0
  {
    if n > 0 {
      if run[n - 1].proc == p {
        StampBounds(run, n - 1, q);
        StampBounds(run, n - 1, p);
      } else {
        ClockBounds(run, p, n - 1, q);
      }
    }
  }

  lemma {:induction false} StampBounds(run: Run, i: nat, q: Node)
    requires ValidRun(run) && i < |run|
    ensures 0 <= Count(Stamp(run, i), q) <= Events(run, q, i + 1)
    ensures Count(Stamp(run, i), run[i].proc) == Events(run, run[i].proc, i + 1)
    decreases i, 1
  {
    var p := run[i].proc;
    ClockBounds(run, p, i, q);
    if run[i].received.Some? {
      var m := run[i].received.value;
      StampBounds(run, m, q);
      StampBounds(run, m, p);
      EventsMonotone(run, q, m + 1, i);
      EventsMonotone(run, p, m + 1, i);
    }
  }

  lemma {:induction false} StampsAreNonNegative(run: Run, i: nat)
    requires ValidRun(run) && i < |run|
    ensures NonNegative(Stamp(run, i))
  {
    forall k | k in Stamp(run, i) ensures 0 <= Stamp(run, i)[k] {
      StampBounds(run, i, k);
      assert Count(Stamp(run, i), k) == Stamp(run, i)[k];
    }
  }

  lemma {:induction false} OwnHistoryIsCounted(run: Run, p: Node, a: nat, n: nat, k: Node)
    requires ValidRun(run) && a < n <= |run| && run[a].proc == p
    ensures Count(Stamp(run, a), k) <= Count(ClockOf(run, p, n), k)
    decreases n
  {
    if a < n - 1 {
      OwnHistoryIsCounted(run, p, a, n - 1, k);
    }
  }

  lemma {:induction false} EdgeAdvances(run: Run, a: nat, b: nat, k: Node)
    requires ValidRun(run) && Edge(run, a, b)
    ensures Count(Stamp(run, a), k) <= Count(Stamp(run, b), k)
    ensures Count(Stamp(run, a), run[b].proc) < Count(Stamp(run, b), run[b].proc)
  {
    if run[a].proc == run[b].proc {
      OwnHistoryIsCounted(run, run[b].proc, a, b, k);
      OwnHistoryIsCounted(run, run[b].proc, a, b, run[b].proc);
    }
    var own := ClockOf(run, run[b].proc, b);
    ClockBounds(run, run[b].proc, b, k);
    ClockBounds(run, run[b].proc, b, run[b].proc);
    if run[b].received.Some? {
      var message := Stamp(run, run[b].received.value);
      MergedCount(own, message, k);
      MergedCount(own, message, run[b].proc);
    }
  }

  lemma {:induction false} ChainAdvances(run: Run, path: seq<nat>, k: Node)
    requires ValidRun(run) && Chain(run, path)
    ensures path[0] <= path[|path| - 1]
    ensures Count(Stamp(run, path[0]), k) <= Count(Stamp(run, path[|path| - 1]), k)
    ensures 1 < |path| ==> path[0] < path[|path| - 1]
    ensures 1 < |path| && k == run[path[|path| - 1]].proc ==>
      Count(Stamp(run, path[0]), k) < Count(Stamp(run, path[|path| - 1]), k)
    decreases |path|
  {
    if 1 < |path| {
      ChainAdvances(run, path[..|path| - 1], k);
      EdgeAdvances(run, path[|path| - 2], path[|path| - 1], k);
    }
  }

  lemma {:induction false} ChainExtends(run: Run, i: nat, m: nat, j: nat)
    requires (i == m && i < |run|) || HappensBefore(run, i, m)
    requires Edge(run, m, j)
    ensures HappensBefore(run, i, j)
  {
    if i == m {
      assert Chain(run, [i, j]);
    } else {
      var path :| Chain(run, path) && 1 < |path| && path[0] == i && path[|path| - 1] == m;
      assert Chain(run, path + [j]);
    }
  }

  lemma {:induction false} ClockIsLastStamp(run: Run, p: Node, n: nat) returns (last: Option<nat>)
    requires ValidRun(run) && n <= |run|
    ensures last.None? ==> ClockOf(run, p, n) == map[]
    ensures last.Some? ==> last.value < n && run[last.value].proc == p && ClockOf(run, p, n) == Stamp(run, last.value)
  {
    if n == 0 {
      last := None;
    } else if run[n - 1].proc == p {
      last := Some(n - 1);
    } else {
      last := ClockIsLastStamp(run, p, n - 1);
    }
  }

  /** A clock that has counted event `i` belongs to `i` itself or to an event after it. */
  lemma {:induction false} CountedMeansCaused(run: Run, i: nat, j: nat)
    requires ValidRun(run) && i < |run| && j < |run|
    requires Events(run, run[i].proc, i + 1) <= Count(Stamp(run, j), run[i].proc)
    ensures i == j || HappensBefore(run, i, j)
    decreases j
  {
    var p := run[i].proc;
    if run[j].proc == p {
      StampBounds(run, j, p);
      if j < i {
        EventsMonotone(run, p, j + 1, i);
      } else if i < j {
        ChainExtends(run, i, i, j);
      }
    } else {
      var last := ClockIsLastStamp(run, run[j].proc, j);
      if last.Some? && Events(run, p, i + 1) <= Count(Stamp(run, last.value), p) {
        CountedMeansCaused(run, i, last.value);
        ChainExtends(run, i, last.value, j);
      } else {
        assert 1 <= Events(run, p, i + 1);
        var m := run[j].received.value;
        CountedMeansCaused(run, i, m);
        ChainExtends(run, i, m, j);
      }
    }
  }

  lemma {:induction false} HappensBeforeIsStampOrder(run: Run, i: nat, j: nat)
    requires ValidRun(run) && i < |run| && j < |run|
    ensures i == j || HappensBefore(run, i, j) <==> Leq(Stamp(run, i), Stamp(run, j))
    ensures HappensBefore(run, i, j) ==> i < j && !Leq(Stamp(run, j), Stamp(run, i))
  {
    var p := run[i].proc;
    if Leq(Stamp(run, i), Stamp(run, j)) {
      StampBounds(run, i, p);
      assert Count(Stamp(run, i), p) <= Count(Stamp(run, j), p);
      CountedMeansCaused(run, i, j);
    }
    if HappensBefore(run, i, j) {
      var path :| Chain(run, path) && 1 < |path| && path[0] == i && path[|path| - 1] == j;
      forall k ensures Count(Stamp(run, i), k) <= Count(Stamp(run, j), k) {
        ChainAdvances(run, path, k);
      }
      ChainAdvances(run, path, run[j].proc);
      assert Count(Stamp(run, i), run[j].proc) < Count(Stamp(run, j), run[j].proc);
    }
  }

  /** Main result: on every run `compare` decides Lamport's happens-before. */
  lemma {:induction false} CompareDecidesCausality(run: Run, i: nat, j: nat)
    requires ValidRun(run) && i < |run| && j < |run|
    ensures Compare(Stamp(run, i), Stamp(run, j)) == Before <==> HappensBefore(run, i, j)
    ensures Compare(Stamp(run, i), Stamp(run, j)) == After <==> HappensBefore(run, j, i)
    ensures Compare(Stamp(run, i), Stamp(run, j)) == Equal <==> i == j
    ensures Compare(Stamp(run, i), Stamp(run, j)) == Concurrent <==>
      i != j && !HappensBefore(run, i, j) && !HappensBefore(run, j, i)
  {
    HappensBeforeIsStampOrder(run, i, j);
    HappensBeforeIsStampOrder(run, j, i);
  }
}
