/** The sliding-window rate limiter (`rate_limit` in archive/api_enhanced.py). Time
    is a real number; the clock never goes back. */
module RateLimit {

  /** One request of a client, and whether it was let through. */
  datatype Hit = Hit(time: real, admitted: bool)

  /** `[t for t in times if t > start]`. */
  function Newer(times: seq<real>, start: real): seq<real>
    decreases |times|
  {
    if times == [] then []
    else Newer(times[..|times| - 1], start) + if times[|times| - 1] > start then [times[|times| - 1]] else []
  }

  function Times(h: seq<Hit>): (r: seq<real>)
    ensures |r| == |h|
  {
    seq(|h|, i requires 0 <= i < |h| => h[i].time)
  }

  /** The requests that count against request `k`: the earlier ones newer than one
      window before it, refused ones included, and itself. */
  function Window(h: seq<Hit>, k: nat, window: real): seq<real>
    requires k < |h|
  {
    Newer(Times(h[..k]), h[k].time - window) + [h[k].time]
  }

  /** Every verdict is the one the whole history calls for. */
  ghost predicate Lawful(h: seq<Hit>, window: real, limit: int) {
    forall k :: 0 <= k < |h| ==> (h[k].admitted <==> |Window(h, k, window)| <= limit)
  }

  /** The clock never went back. */
  ghost predicate Ordered(h: seq<Hit>) {
    forall i, j :: 0 <= i < j < |h| ==> h[i].time <= h[j].time
  }

  /** A client's stored list is the window of its latest request over its whole history. */
  ghost predicate Tracked(h: seq<Hit>, stored: seq<real>, window: real, limit: int, last: real) {
    && h != [] && h[|h| - 1].time <= last && Ordered(h)
    && stored == Window(h, |h| - 1, window)
    && Lawful(h, window, limit)
  }

  /** The same of a client that may not have come yet. */
  ghost predicate TrackedSoFar(h: seq<Hit>, stored: seq<real>, window: real, limit: int, last: real) {
    if h == [] then stored == [] else Tracked(h, stored, window, limit, last)
  }

  ghost predicate AllTracked(history: map<string, seq<Hit>>, store: map<string, seq<real>>, window: real,
                             limit: int, last: real) {
    && (forall ip :: ip in store <==> ip in history)
    && (forall ip :: ip in history ==> Tracked(history[ip], store[ip], window, limit, last))
  }

  class RateLimiter {
    const window: real
    const limit: int
    var store: map<string, seq<real>>
    ghost var history: map<string, seq<Hit>>
    ghost var last: real

    ghost predicate Valid()
      reads this
    {
      AllTracked(history, store, window, limit, last)
    }

    ghost function HistoryOf(ip: string): seq<Hit>
      reads this
    {
      if ip in history then history[ip] else []
    }

    constructor (window: real, limit: int)
      ensures Valid() && this.window == window && this.limit == limit && history == map[]
    {
      this.window, this.limit := window, limit;
      store, history, last := map[], map[], 0.0;
    }

    method Hits(ip: string, now: real) returns (hits: seq<real>)
      requires TrackedSoFar(HistoryOf(ip), StoredOf(ip), window, limit, last) && (HistoryOf(ip) != [] ==> last <= now)
      ensures Tracked(HistoryOf(ip) + [Hit(now, |hits| <= limit)], hits, window, limit, now)
    {
      hits := if ip in store then store[ip] else [];
      hits := Newer(hits, now - window);
      hits := hits + [now];
      HitIsTracked(HistoryOf(ip), StoredOf(ip), hits, window, limit, last, now);
    }

    ghost function StoredOf(ip: string): seq<real>
      reads this
    {
      if ip in store then store[ip] else []
    }

    lemma {:induction false} ListIsTracked(ip: string)
      requires Valid()
      ensures TrackedSoFar(HistoryOf(ip), StoredOf(ip), window, limit, last)
      ensures HistoryOf(ip) != [] ==> history != map[]
    {
      if ip in history { assert Tracked(history[ip], store[ip], window, limit, last); }
    }

    method Check(ip: string, now: real) returns (admitted: bool)
      requires Valid() && (history != map[] ==> last <= now)
      modifies this
      ensures Valid() && last == now
      ensures history == old(history)[ip := old(HistoryOf(ip)) + [Hit(now, admitted)]]
      ensures ip in store && store == old(store)[ip := store[ip]] && (admitted <==> |store[ip]| <= limit)
    {
      ListIsTracked(ip);
      var hits := Hits(ip, now);
      admitted := |hits| <= limit;
      ghost var h := HistoryOf(ip) + [Hit(now, admitted)];
      TrackedNext(history, store, ip, h, hits, window, limit, if history == map[] then now else last, now);
      store := store[ip := hits];
      history := history[ip := h];
      last := now;
    }

    /** The limiter's promise in any state it can reach. */
    lemma {:induction false} Bounded(ip: string, a: real, late: bool)
      requires Valid()
      ensures AdmittedIn(HistoryOf(ip), a, a + window, late) <= if limit < 0 then 0 else limit
    {
      assert ip in history ==> Tracked(history[ip], store[ip], window, limit, last);
      RateBound(HistoryOf(ip), window, limit, a, late);
    }

    /** The same with both ends included, on the condition that calls for. */
    lemma {:induction false} ClosedBounded(ip: string)
      requires Valid() && 0.0 < window
      ensures NeverMore(HistoryOf(ip), window, Most(limit)) <==> FindsRoom(HistoryOf(ip), window, limit)
      ensures NeverMore(HistoryOf(ip), window, 2 * Most(limit))
    {
      ListIsTracked(ip);
      ClosedBoundExactly(HistoryOf(ip), window, limit);
      forall a ensures AdmittedFrom(HistoryOf(ip), a, window) <= 2 * Most(limit) {
        ClosedIntervalBound(HistoryOf(ip), window, limit, a);
      }
    }
  }

  lemma {:induction false} NewerTwice(times: seq<real>, start: real, later: real)
    requires start <= later
    ensures Newer(Newer(times, start), later) == Newer(times, later)
    decreases |times|
  {
    if times != [] {
      var init, t := times[..|times| - 1], times[|times| - 1];
      NewerTwice(init, start, later);
      NewerAppends(Newer(init, start), t, later);
      if t <= start { assert Newer(times, start) == Newer(init, start); }
    }
  }

  lemma {:induction false} NewerAppends(times: seq<real>, t: real, start: real)
    ensures Newer(times + [t], start) == Newer(times, start) + if t > start then [t] else []
  {
    assert (times + [t])[..|times|] == times;
  }

  lemma {:induction false} TimesAppends(h: seq<Hit>, n: nat)
    requires h != [] && n == |h| - 1
    ensures Times(h) == Times(h[..n]) + [h[n].time]
  {
  }

  lemma {:induction false} NewerOfPruned(earlier: seq<real>, t: real, start: real, later: real)
    requires start <= later
    ensures Newer(Newer(earlier, start) + [t], later) == Newer(earlier + [t], later)
  {
    NewerTwice(earlier, start, later);
    NewerAppends(Newer(earlier, start), t, later);
    NewerAppends(earlier, t, later);
  }

  /** Pruning at every request loses nothing a later request would count. */
  lemma {:induction false} PruningIsSound(h: seq<Hit>, window: real, now: real)
    requires h != [] && h[|h| - 1].time <= now
    ensures Newer(Window(h, |h| - 1, window), now - window) == Newer(Times(h), now - window)
  {
    var n := |h| - 1;
    TimesAppends(h, n);
    NewerOfPruned(Times(h[..n]), h[n].time, h[n].time - window, now - window);
  }

  lemma {:induction false} LawfulExtends(h: seq<Hit>, window: real, limit: int, hit: Hit)
    requires Lawful(h, window, limit)
    requires hit.admitted <==> |Newer(Times(h), hit.time - window)| + 1 <= limit
    ensures Lawful(h + [hit], window, limit)
    ensures Window(h + [hit], |h|, window) == Newer(Times(h), hit.time - window) + [hit.time]
  {
    var h1 := h + [hit];
    assert h1[..|h|] == h;
    forall k | 0 <= k < |h1| ensures h1[k].admitted <==> |Window(h1, k, window)| <= limit {
      if k < |h| { WindowOfPrefix(h, h1, k, window); }
    }
  }

  /** The pruned list of a client, with the new request, is tracked. */
  lemma {:induction false} HitIsTracked(h: seq<Hit>, stored: seq<real>, hits: seq<real>, window: real, limit: int,
                                        last: real, now: real)
    requires TrackedSoFar(h, stored, window, limit, last) && (h != [] ==> last <= now)
    requires hits == Newer(stored, now - window) + [now]
    ensures Tracked(h + [Hit(now, |hits| <= limit)], hits, window, limit, now)
  {
    var hit := Hit(now, |hits| <= limit);
    StoredIsWindow(h, stored, window, limit, last, now);
    LawfulExtends(h, window, limit, hit);
    OrderedExtends(h, hit);
    assert (h + [hit])[|h|] == hit;
  }

  lemma {:induction false} StoredIsWindow(h: seq<Hit>, stored: seq<real>, window: real, limit: int, last: real,
                                          now: real)
    requires TrackedSoFar(h, stored, window, limit, last) && (h != [] ==> last <= now)
    ensures Newer(stored, now - window) == Newer(Times(h), now - window)
    ensures Lawful(h, window, limit) && Ordered(h) && (h != [] ==> h[|h| - 1].time <= now)
  {
    if h == [] {
      assert Times(h) == [];
    } else {
      PruningIsSound(h, window, now);
    }
  }

  lemma {:induction false} OrderedExtends(h: seq<Hit>, hit: Hit)
    requires Ordered(h) && (h != [] ==> h[|h| - 1].time <= hit.time)
    ensures Ordered(h + [hit])
  {
    var n := |h| - 1;
    assert forall i :: 0 <= i < |h| ==> h[i].time <= h[n].time;
  }

  lemma {:induction false} TrackedNext(history: map<string, seq<Hit>>, store: map<string, seq<real>>, ip: string,
                                       h: seq<Hit>, hits: seq<real>, window: real, limit: int, last: real, now: real)
    requires AllTracked(history, store, window, limit, last) && last <= now
    requires Tracked(h, hits, window, limit, now)
    ensures AllTracked(history[ip := h], store[ip := hits], window, limit, now)
  {
  }

  lemma {:induction false} WindowOfPrefix(h: seq<Hit>, h1: seq<Hit>, k: nat, window: real)
    requires k < |h| && h <= h1
    ensures Window(h1, k, window) == Window(h, k, window)
  {
    assert h1[..k] == h[..k];
  }

  // ---------------------------------------------------------------- the bound

  /** Admitted requests with `a <= time < b`, or `a < time <= b` when `late`. */
  function AdmittedIn(h: seq<Hit>, a: real, b: real, late: bool): nat
    decreases |h|
  {
    if h == [] then 0
    else
      var last := h[|h| - 1];
      AdmittedIn(h[..|h| - 1], a, b, late) + if last.admitted && InSpan(last.time, a, b, late) then 1 else 0
  }

  predicate InSpan(t: real, a: real, b: real, late: bool) {
    if late then a < t <= b else a <= t < b
  }

  lemma {:induction false} SpanFitsWindow(h: seq<Hit>, a: real, b: real, late: bool, start: real)
    requires forall t :: InSpan(t, a, b, late) ==> t > start
    ensures AdmittedIn(h, a, b, late) <= |Newer(Times(h), start)|
    decreases |h|
  {
    if h != [] {
      SpanFitsWindow(h[..|h| - 1], a, b, late, start);
      assert Times(h) == Times(h[..|h| - 1]) + [h[|h| - 1].time];
      NewerAppends(Times(h[..|h| - 1]), h[|h| - 1].time, start);
    }
  }

  /** Main result: in any interval one window long, at most `limit` requests of a
      client are let through, whichever end of the interval is open. */
  lemma {:induction false} RateBound(h: seq<Hit>, window: real, limit: int, a: real, late: bool)
    requires Lawful(h, window, limit)
    ensures AdmittedIn(h, a, a + window, late) <= if limit < 0 then 0 else limit
    decreases |h|
  {
    if h != [] {
      var k := |h| - 1;
      var last := h[k];
      if last.admitted && InSpan(last.time, a, a + window, late) {
        SpanFitsWindow(h[..k], a, a + window, late, last.time - window);
        assert |Window(h, k, window)| <= limit;
      } else {
        LawfulPrefix(h, k, window, limit);
        RateBound(h[..k], window, limit, a, late);
      }
    }
  }

  lemma {:induction false} LawfulPrefix(h: seq<Hit>, n: nat, window: real, limit: int)
    requires n <= |h| && Lawful(h, window, limit)
    ensures Lawful(h[..n], window, limit)
  {
    forall k | 0 <= k < n ensures h[..n][k].admitted <==> |Window(h[..n], k, window)| <= limit {
      WindowOfPrefix(h[..n], h, k, window);
    }
  }

  // ---------------------------------------------------------------- both ends included

  /** Admitted requests with `a <= time <= b`. */
  function AdmittedWithin(h: seq<Hit>, a: real, b: real): nat
    decreases |h|
  {
    if h == [] then 0
    else AdmittedWithin(h[..|h| - 1], a, b) + if h[|h| - 1].admitted && a <= h[|h| - 1].time <= b then 1 else 0
  }

  /** Admitted requests in the closed interval of one window from `a`. */
  function AdmittedFrom(h: seq<Hit>, a: real, window: real): nat {
    AdmittedWithin(h, a, a + window)
  }

  ghost predicate NeverMore(h: seq<Hit>, window: real, most: nat) {
    forall a :: AdmittedFrom(h, a, window) <= most
  }

  function AdmittedAt(h: seq<Hit>, a: real): nat {
    AdmittedWithin(h, a, a)
  }

  lemma {:induction false} EndsAddUp(h: seq<Hit>, a: real, b: real)
    requires a < b
    ensures AdmittedWithin(h, a, b) == AdmittedAt(h, a) + AdmittedIn(h, a, b, true)
    ensures AdmittedAt(h, a) <= AdmittedIn(h, a, b, false)
    decreases |h|
  {
    if h != [] { EndsAddUp(h[..|h| - 1], a, b); }
  }

  function Most(limit: int): nat {
    if limit < 0 then 0 else limit
  }

  /** With both ends included an interval of one window admits at most twice the limit, and no
      more than the limit when nothing is admitted at its left end. */
  lemma {:induction false} ClosedIntervalBound(h: seq<Hit>, window: real, limit: int, a: real)
    requires Lawful(h, window, limit) && 0.0 < window
    ensures AdmittedFrom(h, a, window) <= 2 * Most(limit)
    ensures AdmittedAt(h, a) == 0 ==> AdmittedFrom(h, a, window) <= Most(limit)
  {
    EndsAddUp(h, a, a + window);
    RateBound(h, window, limit, a, true);
    RateBound(h, window, limit, a, false);
  }

  /** Every admitted request finds fewer than the limit admitted in the closed window that ends
      with it: the limiter's own test with a request exactly one window old still counted. */
  ghost predicate FindsRoom(h: seq<Hit>, window: real, limit: int) {
    forall k :: 0 <= k < |h| && h[k].admitted ==>
      AdmittedWithin(h[..k], h[k].time - window, h[k].time) < Most(limit)
  }

  lemma {:induction false} WiderHoldsMore(h: seq<Hit>, a: real, b: real, c: real, d: real)
    requires forall i :: 0 <= i < |h| && a <= h[i].time <= b ==> c <= h[i].time <= d
    ensures AdmittedWithin(h, a, b) <= AdmittedWithin(h, c, d)
    decreases |h|
  {
    if h != [] { WiderHoldsMore(h[..|h| - 1], a, b, c, d); }
  }

  lemma {:induction false} PrefixHoldsFewer(h: seq<Hit>, n: nat, a: real, b: real)
    requires n <= |h|
    ensures AdmittedWithin(h[..n], a, b) <= AdmittedWithin(h, a, b)
    decreases |h|
  {
    if n == |h| {
      assert h[..n] == h;
    } else {
      PrefixHoldsFewer(h[..|h| - 1], n, a, b);
      assert h[..|h| - 1][..n] == h[..n];
    }
  }

  /** One admitted request and those that count for it stand in one closed window. */
  lemma {:induction false} RoomIsNeeded(h: seq<Hit>, window: real, k: nat)
    requires k < |h| && h[k].admitted && 0.0 <= window
    ensures AdmittedWithin(h[..k], h[k].time - window, h[k].time) < AdmittedWithin(h, h[k].time - window, h[k].time)
  {
    PrefixHoldsFewer(h, k + 1, h[k].time - window, h[k].time);
    assert h[..k + 1][..k] == h[..k];
  }

  lemma {:induction false} RoomIsEnough(h: seq<Hit>, window: real, limit: int, a: real)
    requires Ordered(h) && FindsRoom(h, window, limit)
    ensures AdmittedFrom(h, a, window) <= Most(limit)
    decreases |h|
  {
    if h != [] {
      var init, last := h[..|h| - 1], h[|h| - 1];
      if last.admitted && a <= last.time <= a + window {
        WiderHoldsMore(init, a, a + window, last.time - window, last.time);
      } else {
        RoomInPrefix(h, window, limit);
        RoomIsEnough(init, window, limit, a);
      }
    }
  }

  lemma {:induction false} RoomInPrefix(h: seq<Hit>, window: real, limit: int)
    requires h != [] && FindsRoom(h, window, limit)
    ensures FindsRoom(h[..|h| - 1], window, limit)
  {
    forall k | 0 <= k < |h| - 1 && h[k].admitted
      ensures AdmittedWithin(h[..|h| - 1][..k], h[k].time - window, h[k].time) < Most(limit)
    {
      assert h[..|h| - 1][..k] == h[..k];
    }
  }

  /** When the limit holds of every closed interval of one window: exactly when each admitted
      request finds room in the one that ends with it. */
  lemma {:induction false} ClosedBoundExactly(h: seq<Hit>, window: real, limit: int)
    requires Ordered(h) && 0.0 <= window
    ensures NeverMore(h, window, Most(limit)) <==> FindsRoom(h, window, limit)
  {
    if NeverMore(h, window, Most(limit)) {
      forall k | 0 <= k < |h| && h[k].admitted
        ensures AdmittedWithin(h[..k], h[k].time - window, h[k].time) < Most(limit)
      {
        RoomIsNeeded(h, window, k);
        assert AdmittedFrom(h, h[k].time - window, window) <= Most(limit);
        assert h[k].time - window + window == h[k].time;
      }
    }
    if FindsRoom(h, window, limit) {
      forall a ensures AdmittedFrom(h, a, window) <= Most(limit) { RoomIsEnough(h, window, limit, a); }
    }
  }

  /** `n` requests at one instant, all admitted. */
  function Burst(n: nat, t: real): seq<Hit> {
    seq(n, _ => Hit(t, true))
  }

  lemma {:induction false} NewerOfSame(times: seq<real>, t: real, start: real)
    requires forall i :: 0 <= i < |times| ==> times[i] == t
    ensures Newer(times, start) == if t > start then times else []
    decreases |times|
  {
    if times != [] {
      NewerOfSame(times[..|times| - 1], t, start);
      assert times == times[..|times| - 1] + [t];
    }
  }

  lemma {:induction false} NewerConcat(a: seq<real>, b: seq<real>, start: real)
    ensures Newer(a + b, start) == Newer(a, start) + Newer(b, start)
    decreases |b|
  {
    if b == [] {
      assert a + b == a;
    } else {
      NewerConcat(a, b[..|b| - 1], start);
      assert (a + b)[..|a + b| - 1] == a + b[..|b| - 1];
    }
  }

  lemma {:induction false} BurstTimes(n: nat, window: real, k: nat)
    requires k <= 2 * n
    ensures |Burst(n, 0.0) + Burst(n, window)| == 2 * n
    ensures Times((Burst(n, 0.0) + Burst(n, window))[..k]) ==
            if k <= n then seq(k, _ => 0.0) else seq(n, _ => 0.0) + seq(k - n, _ => window)
  {
  }

  lemma {:induction false} NewerOfBursts(n: nat, window: real, m: nat, start: real)
    ensures Newer(seq(n, _ => 0.0) + seq(m, _ => window), start) ==
            (if 0.0 > start then seq(n, _ => 0.0) else []) + (if window > start then seq(m, _ => window) else [])
  {
    NewerConcat(seq(n, _ => 0.0), seq(m, _ => window), start);
    NewerOfSame(seq(n, _ => 0.0), 0.0, start);
    NewerOfSame(seq(m, _ => window), window, start);
  }

  lemma {:induction false} BurstWindow(n: nat, window: real, k: nat)
    requires 0.0 < window && k < 2 * n
    ensures var h := Burst(n, 0.0) + Burst(n, window); |h| == 2 * n && |Window(h, k, window)| <= n
  {
    var h := Burst(n, 0.0) + Burst(n, window);
    BurstTimes(n, window, k);
    if k < n {
      NewerOfSame(seq(k, _ => 0.0), 0.0, h[k].time - window);
    } else {
      NewerOfBursts(n, window, k - n, h[k].time - window);
      if k == n {
        assert seq(n, _ => 0.0) + seq(0, _ => window) == seq(n, _ => 0.0);
      }
    }
  }

  lemma {:induction false} AllAreWithin(h: seq<Hit>, a: real, b: real)
    requires forall i :: 0 <= i < |h| ==> h[i].admitted && a <= h[i].time <= b
    ensures AdmittedWithin(h, a, b) == |h|
    decreases |h|
  {
    if h != [] { AllAreWithin(h[..|h| - 1], a, b); }
  }

  /** Twice the limit is reached for every limit: as many requests as it allows at one instant,
      and as many again exactly one window later, do not count against each other. */
  lemma {:induction false} ClosedIntervalExceeds(window: real, limit: nat)
    requires 0.0 < window
    ensures var h := Burst(limit, 0.0) + Burst(limit, window);
      Lawful(h, window, limit) && Ordered(h) && AdmittedFrom(h, 0.0, window) == 2 * limit
  {
    var h := Burst(limit, 0.0) + Burst(limit, window);
    forall k | 0 <= k < |h| ensures h[k].admitted <==> |Window(h, k, window)| <= limit {
      BurstWindow(limit, window, k);
    }
    AllAreWithin(h, 0.0, window);
  }
}
