/** The service registry (Dimensionals/registry.py): a capability index kept beside
    the services, against a plain scan of the services in registration order. */
module Registry {
  import opened Sequences
  import opened Wrappers

  datatype ServiceHealth = Healthy | Degraded | Unhealthy | Unknown

  // ---------------------------------------------------------------- values

  /** A live service as the index sees it. */
  datatype Listing = Listing(name: string, caps: seq<string>)
  type Index = map<string, seq<string>>
  /** The live services in dict order, and the index. */
  datatype State = State(live: seq<Listing>, index: Index)
  datatype Op = Register(listing: Listing) | Deregister(name: string) | UpdateHealth(name: string)

  function Bucket(index: Index, cap: string): seq<string> {
    if cap in index then index[cap] else []
  }

  function IndexAdd(index: Index, caps: seq<string>, name: string): Index
    decreases |caps|
  {
    if caps == [] then index
    else
      var before := IndexAdd(index, caps[..|caps| - 1], name);
      var cap := caps[|caps| - 1];
      before[cap := Bucket(before, cap) + [name]]
  }

  function IndexDrop(index: Index, cap: string, name: string): Index {
    if cap !in index then index
    else if Without(index[cap], name) == [] then index - {cap}
    else index[cap := Without(index[cap], name)]
  }

  function IndexRemove(index: Index, caps: seq<string>, name: string): Index
    decreases |caps|
  {
    if caps == [] then index
    else IndexDrop(IndexRemove(index, caps[..|caps| - 1], name), caps[|caps| - 1], name)
  }

  predicate Live(live: seq<Listing>, name: string) {
    exists i | 0 <= i < |live| :: live[i].name == name
  }

  ghost predicate Unique(live: seq<Listing>) {
    forall i, j :: 0 <= i < j < |live| ==> live[i].name != live[j].name
  }

  /** Position of a live name; a dict keeps it when the name is assigned again. */
  function Position(live: seq<Listing>, name: string): (i: nat)
    requires Live(live, name)
    ensures i < |live| && live[i].name == name
  {
    if live[0].name == name then 0 else
      assert forall i :: 0 < i < |live| ==> live[i] == live[1..][i - 1];
      1 + Position(live[1..], name)
  }

  function Enter(live: seq<Listing>, s: Listing): seq<Listing> {
    if Live(live, s.name) then live[Position(live, s.name) := s] else live + [s]
  }

  function Apply(s: State, op: Op): State {
    match op
    case Register(x) => State(Enter(s.live, x), IndexAdd(s.index, x.caps, x.name))
    case Deregister(name) =>
      if !Live(s.live, name) then s
      else
        var p := Position(s.live, name);
        State(s.live[..p] + s.live[p + 1..], IndexRemove(s.index, s.live[p].caps, name))
    case UpdateHealth(_) => s
  }

  // ---------------------------------------------------------------- objects

  class ServiceInfo {
    const name: string
    const capabilities: seq<string>
    var health: ServiceHealth
    var lastSeen: int

    constructor (name: string, capabilities: seq<string>, lastSeen: int)
      ensures this.name == name && this.capabilities == capabilities
      ensures health == Unknown && this.lastSeen == lastSeen
    {
      this.name, this.capabilities := name, capabilities;
      health, this.lastSeen := Unknown, lastSeen;
    }
  }

  function ListingsOf(services: seq<ServiceInfo>): seq<Listing> {
    seq(|services|, i requires 0 <= i < |services| => Listing(services[i].name, services[i].capabilities))
  }

  /** The services named by `names` that are live and not unhealthy, in order. */
  function Usable(services: seq<ServiceInfo>, names: seq<string>): seq<ServiceInfo>
    reads services
  {
    if names == [] then []
    else
      var rest := Usable(services, names[1..]);
      if !Live(ListingsOf(services), names[0]) then rest
      else
        var first := services[Position(ListingsOf(services), names[0])];
        if first.health != Unhealthy then [first] + rest else rest
  }

  class ServiceRegistry {
    /** `_services`, as its values in dict order. */
    var services: seq<ServiceInfo>
    var index: Index

    ghost predicate Valid()
      reads this
    {
      Unique(ListingsOf(services))
    }

    function View(): State
      reads this
    {
      State(ListingsOf(services), index)
    }

    constructor ()
      ensures Valid() && View() == State([], map[])
    {
      services, index := [], map[];
    }

    method RegisterService(service: ServiceInfo)
      requires Valid()
      modifies this
      ensures Valid() && View() == Apply(old(View()), Register(Listing(service.name, service.capabilities)))
      ensures Entered(old(services), services, service)
    {
      var live := ListingsOf(services);
      ghost var listing := Listing(service.name, service.capabilities);
      if Live(live, service.name) {
        var p := Position(live, service.name);
        assert live[p].name == services[p].name;
        Enters(services, service, p);
        services := services[p := service];
        assert ListingsOf(services) == live[p := listing];
      } else {
        AllLive(services);
        services := services + [service];
        assert ListingsOf(services) == live + [listing];
      }
      var caps := service.capabilities;
      ghost var after := services;
      for i := 0 to |caps|
        invariant services == after
        invariant index == IndexAdd(old(index), caps[..i], service.name)
      {
        assert caps[..i + 1][..i] == caps[..i];
        index := index[caps[i] := Bucket(index, caps[i]) + [service.name]];
      }
      assert caps[..|caps|] == caps;
    }

    method DeregisterService(name: string) returns (r: Option<ServiceInfo>)
      requires Valid()
      modifies this
      ensures Valid() && View() == Apply(old(View()), Deregister(name))
      ensures r.Some? <==> Live(old(View()).live, name)
      ensures r.None? ==> services == old(services)
      ensures r.Some? ==> r.value.name == name && Left(old(services), services, r.value)
    {
      var live := ListingsOf(services);
      if !Live(live, name) {
        return None;
      }
      var p := Position(live, name);
      var service := services[p];
      assert live[p] == Listing(service.name, service.capabilities);
      services := services[..p] + services[p + 1..];
      assert ListingsOf(services) == live[..p] + live[p + 1..];
      RemovedIsGone(live, p);
      var caps := service.capabilities;
      ghost var after := services;
      for i := 0 to |caps|
        invariant services == after
        invariant index == IndexRemove(old(index), caps[..i], name)
      {
        assert caps[..i + 1][..i] == caps[..i];
        var cap := caps[i];
        if cap in index {
          index := index[cap := Without(index[cap], name)];
          if index[cap] == [] {
            index := index - {cap};
          }
        }
        assert index == IndexDrop(IndexRemove(old(index), caps[..i], name), cap, name);
      }
      assert caps[..|caps|] == caps;
      assert forall s :: s in services ==> Live(ListingsOf(services), s.name) by { AllLive(services); }
      r := Some(service);
    }

    method UpdateServiceHealth(name: string, health: ServiceHealth, now: int)
      requires Valid()
      modifies services
      ensures View() == Apply(old(View()), UpdateHealth(name))
      ensures forall s :: s in services ==>
        s.health == (if s.name == name then health else old(s.health)) &&
        s.lastSeen == (if s.name == name then now else old(s.lastSeen))
    {
      var live := ListingsOf(services);
      assert forall i :: 0 <= i < |services| ==> live[i].name == services[i].name;
      if Live(live, name) {
        var p := Position(live, name);
        services[p].health := health;
        services[p].lastSeen := now;
        assert forall i :: 0 <= i < |services| && i != p ==> services[i].name != name;
      }
    }

    method FindByCapability(capability: string) returns (r: seq<ServiceInfo>)
      requires Valid()
      ensures r == Usable(services, Bucket(index, capability))
    {
      var names := Bucket(index, capability);
      r := [];
      for i := 0 to |names|
        invariant r + Usable(services, names[i..]) == Usable(services, names)
      {
        assert names[i..][1..] == names[i + 1..];
        if Live(ListingsOf(services), names[i]) {
          var s := services[Position(ListingsOf(services), names[i])];
          if s.health != Unhealthy {
            r := r + [s];
          }
        }
      }
    }

    /** The first most recently seen candidate, among the HEALTHY ones if there are any. */
    method FindHealthy(capability: string) returns (r: Option<ServiceInfo>)
      requires Valid()
      ensures var candidates := Usable(services, Bucket(index, capability));
        (r.None? <==> candidates == []) && (r.Some? ==> IsBest(candidates, r.value))
    {
      var candidates := FindByCapability(capability);
      if candidates == [] {
        return None;
      }
      ghost var at;
      var healthy;
      healthy, at := SelectHealthy(candidates);
      var best := Latest(if healthy != [] then healthy else candidates);
      if healthy != [] {
        HealthyBest(candidates, healthy, at, best);
      } else {
        AnyBest(candidates, best);
      }
      r := Some(best);
    }
  }

  /** A name that is there already keeps its place; a new one comes last. */
  ghost predicate Entered(before: seq<ServiceInfo>, after: seq<ServiceInfo>, service: ServiceInfo) {
    if forall s :: s in before ==> s.name != service.name then after == before + [service]
    else exists p :: 0 <= p < |before| && before[p].name == service.name && after == before[p := service]
  }

  /** One service is gone, and the others are as they were. */
  ghost predicate Left(before: seq<ServiceInfo>, after: seq<ServiceInfo>, service: ServiceInfo) {
    exists p :: 0 <= p < |before| && before[p] == service && after == before[..p] + before[p + 1..]
  }

  lemma {:induction false} Enters(before: seq<ServiceInfo>, service: ServiceInfo, p: nat)
    requires p < |before| && before[p].name == service.name
    ensures Entered(before, before[p := service], service)
  {
    assert before[p] in before;
  }

  /** `at` are the places of the HEALTHY candidates, in order. */
  ghost predicate AreHealthy(candidates: seq<ServiceInfo>, healthy: seq<ServiceInfo>, at: seq<nat>)
    reads candidates
  {
    && |at| == |healthy| && (forall m, n :: 0 <= m < n < |at| ==> at[m] < at[n])
    && (forall m :: 0 <= m < |at| ==>
          at[m] < |candidates| && candidates[at[m]] == healthy[m] && candidates[at[m]].health == Healthy)
    && (forall i :: 0 <= i < |candidates| && candidates[i].health == Healthy ==> i in at)
  }

  method SelectHealthy(candidates: seq<ServiceInfo>) returns (healthy: seq<ServiceInfo>, ghost at: seq<nat>)
    ensures AreHealthy(candidates, healthy, at)
  {
    healthy, at := [], [];
    for i := 0 to |candidates|
      invariant AreHealthy(candidates[..i], healthy, at)
    {
      assert candidates[..i + 1] == candidates[..i] + [candidates[i]];
      if candidates[i].health == Healthy {
        OneMoreHealthy(candidates[..i], candidates[i], healthy, at);
        healthy, at := healthy + [candidates[i]], at + [i];
      }
    }
    assert candidates[..|candidates|] == candidates;
  }

  lemma {:induction false} OneMoreHealthy(candidates: seq<ServiceInfo>, s: ServiceInfo, healthy: seq<ServiceInfo>,
                                          at: seq<nat>)
    requires AreHealthy(candidates, healthy, at) && s.health == Healthy
    ensures AreHealthy(candidates + [s], healthy + [s], at + [|candidates|])
  {
    var more := at + [|candidates|];
    assert more[|at|] == |candidates|;
    forall i | 0 <= i < |candidates + [s]| && (candidates + [s])[i].health == Healthy ensures i in more {
      if i < |candidates| { assert i in at; }
    }
  }

  /** Python's `max` by last_seen: the first of the greatest. */
  method Latest(pool: seq<ServiceInfo>) returns (best: ServiceInfo)
    requires pool != []
    ensures IsFirstLatest(pool, best)
  {
    var k := 0;
    for i := 1 to |pool|
      invariant k < i
      invariant forall j :: 0 <= j < k ==> pool[j].lastSeen < pool[k].lastSeen
      invariant forall j :: 0 <= j < i ==> pool[j].lastSeen <= pool[k].lastSeen
    {
      if pool[k].lastSeen < pool[i].lastSeen {
        k := i;
      }
    }
    best := pool[k];
  }

  ghost predicate IsFirstLatest(pool: seq<ServiceInfo>, s: ServiceInfo)
    reads pool
  {
    exists k :: 0 <= k < |pool| && pool[k] == s &&
      (forall j :: 0 <= j < k ==> pool[j].lastSeen < s.lastSeen)
        && (forall j :: 0 <= j < |pool| ==> pool[j].lastSeen <= s.lastSeen)
  }

  /** A candidate, HEALTHY if any is. Among the HEALTHY ones then, and among all otherwise, none was
      seen later, and none earlier in the list was seen as late. */
  ghost predicate IsBest(candidates: seq<ServiceInfo>, s: ServiceInfo)
    reads candidates
  {
    exists k :: 0 <= k < |candidates| && candidates[k] == s && IsLatestAt(candidates, k) &&
      ((exists j :: 0 <= j < |candidates| && candidates[j].health == Healthy) ==> candidates[k].health == Healthy)
  }

  ghost predicate IsLatestAt(candidates: seq<ServiceInfo>, k: nat)
    requires k < |candidates|
    reads candidates
  {
    forall j :: 0 <= j < |candidates| && (candidates[k].health == Healthy ==> candidates[j].health == Healthy) ==>
      candidates[j].lastSeen <= candidates[k].lastSeen && (j < k ==> candidates[j].lastSeen < candidates[k].lastSeen)
  }

  lemma {:induction false} HealthyBest(candidates: seq<ServiceInfo>, healthy: seq<ServiceInfo>, at: seq<nat>,
                                       s: ServiceInfo)
    requires AreHealthy(candidates, healthy, at) && IsFirstLatest(healthy, s)
    ensures IsBest(candidates, s)
  {
    var m :| 0 <= m < |healthy| && healthy[m] == s &&
      (forall j :: 0 <= j < m ==> healthy[j].lastSeen < s.lastSeen)
        && (forall j :: 0 <= j < |healthy| ==> healthy[j].lastSeen <= s.lastSeen);
    forall j | 0 <= j < |candidates| && candidates[j].health == Healthy
      ensures candidates[j].lastSeen <= s.lastSeen && (j < at[m] ==> candidates[j].lastSeen < s.lastSeen)
    {
      var n :| 0 <= n < |at| && at[n] == j;
      assert healthy[n] == candidates[j];
    }
    assert IsLatestAt(candidates, at[m]);
  }

  lemma {:induction false} AnyBest(candidates: seq<ServiceInfo>, s: ServiceInfo)
    requires (forall j :: 0 <= j < |candidates| ==> candidates[j].health != Healthy) && IsFirstLatest(candidates, s)
    ensures IsBest(candidates, s)
  {
    var k :| 0 <= k < |candidates| && candidates[k] == s &&
      (forall j :: 0 <= j < k ==> candidates[j].lastSeen < s.lastSeen)
        && (forall j :: 0 <= j < |candidates| ==> candidates[j].lastSeen <= s.lastSeen);
    assert IsLatestAt(candidates, k);
  }

  lemma {:induction false} RemovedIsGone(live: seq<Listing>, p: nat)
    requires Unique(live) && p < |live|
    ensures Unique(live[..p] + live[p + 1..]) && !Live(live[..p] + live[p + 1..], live[p].name)
  {
  }

  lemma {:induction false} AllLive(services: seq<ServiceInfo>)
    ensures forall s :: s in services ==> Live(ListingsOf(services), s.name)
  {
    forall s | s in services ensures Live(ListingsOf(services), s.name) {
      var i :| 0 <= i < |services| && services[i] == s;
      assert ListingsOf(services)[i].name == s.name;
    }
  }

  // ---------------------------------------------------------------- the index against a scan

  function Times(name: string, n: nat): seq<string> {
    seq(n, _ => name)
  }

  function Offers(caps: seq<string>, cap: string): nat {
    if caps == [] then 0 else Offers(caps[..|caps| - 1], cap) + if caps[|caps| - 1] == cap then 1 else 0
  }

  /** The bucket a plain scan in registration order would build. */
  function Scan(live: seq<Listing>, cap: string): seq<string>
    decreases |live|
  {
    if live == [] then []
    else Scan(live[..|live| - 1], cap) + Times(live[|live| - 1].name, Offers(live[|live| - 1].caps, cap))
  }

  ghost predicate NoEmptyBucket(index: Index) {
    forall cap :: cap in index ==> index[cap] != []
  }

  ghost predicate Exact(s: State) {
    NoEmptyBucket(s.index) && forall cap :: Bucket(s.index, cap) == Scan(s.live, cap)
  }

  /** No live service is missing from a bucket it belongs to. */
  ghost predicate Complete(s: State) {
    NoEmptyBucket(s.index) &&
    forall i, cap :: 0 <= i < |s.live| && cap in s.live[i].caps ==> s.live[i].name in Bucket(s.index, cap)
  }

  lemma {:induction false} AddGrowsBucket(index: Index, caps: seq<string>, name: string, cap: string)
    ensures Bucket(IndexAdd(index, caps, name), cap) == Bucket(index, cap) + Times(name, Offers(caps, cap))
    ensures NoEmptyBucket(index) ==> NoEmptyBucket(IndexAdd(index, caps, name))
    decreases |caps|
  {
    if caps == [] {
      assert Bucket(index, cap) + Times(name, 0) == Bucket(index, cap);
    } else {
      AddGrowsBucket(index, caps[..|caps| - 1], name, cap);
      var n := Offers(caps[..|caps| - 1], cap);
      assert Times(name, n) + [name] == Times(name, n + 1);
    }
  }

  lemma {:induction false} RemoveShrinksBucket(index: Index, caps: seq<string>, name: string, cap: string)
    ensures Bucket(IndexRemove(index, caps, name), cap)
      == if cap in caps then Without(Bucket(index, cap), name) else Bucket(index, cap)
    ensures NoEmptyBucket(index) ==> NoEmptyBucket(IndexRemove(index, caps, name))
    decreases |caps|
  {
    if caps != [] {
      RemoveShrinksBucket(index, caps[..|caps| - 1], name, cap);
      WithoutTwice(Bucket(index, cap), name);
    }
  }

  lemma {:induction false} ScanAppends(a: seq<Listing>, b: seq<Listing>, cap: string)
    ensures Scan(a + b, cap) == Scan(a, cap) + Scan(b, cap)
    decreases |b|
  {
    if b == [] {
      assert a + b == a;
    } else {
      ScanAppends(a, b[..|b| - 1], cap);
      assert (a + b)[..|a + b| - 1] == a + b[..|b| - 1];
    }
  }

  lemma {:induction false} OffersIsMembership(caps: seq<string>, cap: string)
    ensures cap in caps <==> 0 < Offers(caps, cap)
    decreases |caps|
  {
    if caps != [] {
      OffersIsMembership(caps[..|caps| - 1], cap);
      assert caps == caps[..|caps| - 1] + [caps[|caps| - 1]];
    }
  }

  /** The scan names exactly the live services that offer the capability. */
  lemma {:induction false} ScanNames(live: seq<Listing>, cap: string, name: string)
    ensures name in Scan(live, cap) <==> exists i | 0 <= i < |live| :: live[i].name == name && cap in live[i].caps
    decreases |live|
  {
    if live != [] {
      ScanNames(live[..|live| - 1], cap, name);
      OffersIsMembership(live[|live| - 1].caps, cap);
      var own := Times(live[|live| - 1].name, Offers(live[|live| - 1].caps, cap));
      assert name in own <==> own != [] && name == live[|live| - 1].name by { if own != [] { assert own[0] in own; } }
    }
  }

  lemma {:induction false} ScanAround(live: seq<Listing>, p: nat, cap: string)
    requires p < |live|
    ensures Scan(live, cap)
      == Scan(live[..p], cap) + Times(live[p].name, Offers(live[p].caps, cap)) + Scan(live[p + 1..], cap)
  {
    var a, x, b := live[..p], live[p], live[p + 1..];
    assert live == a + [x] + b;
    ScanAppends(a + [x], b, cap);
    assert (a + [x])[..p] == a;
  }

  lemma {:induction false} WithoutMiddle(a: seq<string>, own: seq<string>, b: seq<string>, name: string)
    requires name !in a && name !in b && Without(own, name) == []
    ensures Without(a + own + b, name) == a + b
  {
    WithoutAppends(a + own, b, name);
    WithoutAppends(a, own, name);
    WithoutAbsent(a, name);
    WithoutAbsent(b, name);
    assert a + [] == a;
  }

  lemma {:induction false} ScanWithout(live: seq<Listing>, p: nat, cap: string)
    requires Unique(live) && p < |live|
    ensures Scan(live[..p] + live[p + 1..], cap) == Without(Scan(live, cap), live[p].name)
    ensures cap !in live[p].caps ==> Scan(live[..p] + live[p + 1..], cap) == Scan(live, cap)
  {
    var a, x, b := live[..p], live[p], live[p + 1..];
    ScanAppends(a, b, cap);
    ScanAround(live, p, cap);
    ScanNames(a, cap, x.name);
    ScanNames(b, cap, x.name);
    WithoutAll(x.name, Offers(x.caps, cap));
    WithoutMiddle(Scan(a, cap), Times(x.name, Offers(x.caps, cap)), Scan(b, cap), x.name);
    OffersIsMembership(x.caps, cap);
    if cap !in x.caps { assert Scan(a, cap) + Times(x.name, 0) == Scan(a, cap); }
  }

  lemma {:induction false} WithoutAll(name: string, n: nat)
    ensures Without(Times(name, n), name) == []
    decreases n
  {
    if n > 0 {
      assert Times(name, n)[1..] == Times(name, n - 1);
      WithoutAll(name, n - 1);
    }
  }

  // ---------------------------------------------------------------- every run

  ghost predicate FreshName(s: State, op: Op) {
    op.Register? ==> !Live(s.live, op.listing.name)
  }

  lemma {:induction false} ExactIsKept(s: State, op: Op)
    requires Unique(s.live) && Exact(s) && FreshName(s, op)
    ensures Unique(Apply(s, op).live) && Exact(Apply(s, op))
  {
    match op
    case Register(x) => RegisterKeepsExact(s, x);
    case Deregister(name) => if Live(s.live, name) { DeregisterKeepsExact(s, Position(s.live, name)); }
    case UpdateHealth(_) =>
  }

  lemma {:induction false} RegisterKeepsExact(s: State, x: Listing)
    requires Unique(s.live) && Exact(s) && !Live(s.live, x.name)
    ensures var t := State(s.live + [x], IndexAdd(s.index, x.caps, x.name)); Unique(t.live) && Exact(t)
  {
    AddGrowsBucket(s.index, x.caps, x.name, "");
    forall cap ensures Bucket(IndexAdd(s.index, x.caps, x.name), cap) == Scan(s.live + [x], cap) {
      AddGrowsBucket(s.index, x.caps, x.name, cap);
      assert (s.live + [x])[..|s.live|] == s.live;
    }
  }

  lemma {:induction false} DeregisterKeepsExact(s: State, p: nat)
    requires Unique(s.live) && Exact(s) && p < |s.live|
    ensures var t := State(s.live[..p] + s.live[p + 1..], IndexRemove(s.index, s.live[p].caps, s.live[p].name));
            Unique(t.live) && Exact(t)
  {
    var name, caps := s.live[p].name, s.live[p].caps;
    RemoveShrinksBucket(s.index, caps, name, "");
    RemovedIsGone(s.live, p);
    forall cap ensures Bucket(IndexRemove(s.index, caps, name), cap) == Scan(s.live[..p] + s.live[p + 1..], cap) {
      RemoveShrinksBucket(s.index, caps, name, cap);
      ScanWithout(s.live, p, cap);
    }
  }

  lemma {:induction false} CompleteIsKept(s: State, op: Op)
    requires Unique(s.live) && Complete(s)
    ensures Unique(Apply(s, op).live) && Complete(Apply(s, op))
  {
    match op
    case Register(x) => RegisterKeepsComplete(s, x);
    case Deregister(name) => if Live(s.live, name) { DeregisterKeepsComplete(s, Position(s.live, name)); }
    case UpdateHealth(_) =>
  }

  lemma {:induction false} RegisterKeepsComplete(s: State, x: Listing)
    requires Unique(s.live) && Complete(s)
    ensures var t := Apply(s, Register(x)); Unique(t.live) && Complete(t)
  {
    var t := Apply(s, Register(x));
    AddGrowsBucket(s.index, x.caps, x.name, "");
    forall i, cap | 0 <= i < |t.live| && cap in t.live[i].caps ensures t.live[i].name in Bucket(t.index, cap) {
      AddGrowsBucket(s.index, x.caps, x.name, cap);
      OffersIsMembership(x.caps, cap);
      if t.live[i] == x { assert Times(x.name, Offers(x.caps, cap))[0] == x.name; }
    }
  }

  lemma {:induction false} DeregisterKeepsComplete(s: State, p: nat)
    requires Unique(s.live) && Complete(s) && p < |s.live|
    ensures var t := State(s.live[..p] + s.live[p + 1..], IndexRemove(s.index, s.live[p].caps, s.live[p].name));
            Unique(t.live) && Complete(t)
  {
    var name := s.live[p].name;
    var t := State(s.live[..p] + s.live[p + 1..], IndexRemove(s.index, s.live[p].caps, name));
    RemoveShrinksBucket(s.index, s.live[p].caps, name, "");
    RemovedIsGone(s.live, p);
    forall i, cap | 0 <= i < |t.live| && cap in t.live[i].caps ensures t.live[i].name in Bucket(t.index, cap) {
      RemoveShrinksBucket(s.index, s.live[p].caps, name, cap);
      WithoutKeeps(Bucket(s.index, cap), name);
      var j := if i < p then i else i + 1;
      assert t.live[i] == s.live[j] && s.live[j].name != name;
    }
  }

  function Run(ops: seq<Op>): State
    decreases |ops|
  {
    if ops == [] then State([], map[]) else Apply(Run(ops[..|ops| - 1]), ops[|ops| - 1])
  }

  ghost predicate AllFresh(ops: seq<Op>) {
    forall n :: 0 <= n < |ops| ==> FreshName(Run(ops[..n]), ops[n])
  }

  /** Main result: after any run the index misses no live service and keeps no
      empty bucket; if no live name was registered again it is exactly the scan. */
  lemma {:induction false} IndexOverEveryRun(ops: seq<Op>)
    ensures Unique(Run(ops).live) && Complete(Run(ops))
    ensures AllFresh(ops) ==> Exact(Run(ops))
    decreases |ops|
  {
    if ops != [] {
      var init := ops[..|ops| - 1];
      IndexOverEveryRun(init);
      CompleteIsKept(Run(init), ops[|ops| - 1]);
      if AllFresh(ops) {
        assert forall n :: 0 <= n < |init| ==> init[..n] == ops[..n];
        assert AllFresh(init);
        ExactIsKept(Run(init), ops[|ops| - 1]);
      }
    }
  }

  /** Registering a name that is still live keeps the index exact exactly when the
      old entry offered nothing and no later service offers what the new one does:
      otherwise old index entries stay behind or the new ones are out of order. */
  lemma {:induction false} RegisterAgainIsExact(s: State, x: Listing)
    requires Unique(s.live) && Exact(s) && Live(s.live, x.name)
    ensures var p := Position(s.live, x.name);
      Exact(Apply(s, Register(x))) <==>
      s.live[p].caps == [] && forall q, cap :: p < q < |s.live| && cap in x.caps ==> cap !in s.live[q].caps
  {
    var p := Position(s.live, x.name);
    AddGrowsBucket(s.index, x.caps, x.name, "");
    forall cap
      ensures Bucket(Apply(s, Register(x)).index, cap) == Scan(Apply(s, Register(x)).live, cap) <==>
        Fits(s.live, p, x.caps, cap)
    {
      AgainInOneBucket(s, x, cap);
    }
    FitsEverywhere(s.live, p, x.caps);
  }

  ghost predicate Fits(live: seq<Listing>, p: nat, caps: seq<string>, cap: string)
    requires p < |live|
  {
    Offers(live[p].caps, cap) == 0 && (Offers(caps, cap) == 0 || Scan(live[p + 1..], cap) == [])
  }

  lemma {:induction false} FitsEverywhere(live: seq<Listing>, p: nat, caps: seq<string>)
    requires p < |live|
    ensures (forall cap :: Fits(live, p, caps, cap)) <==>
      live[p].caps == [] && forall q, cap :: p < q < |live| && cap in caps ==> cap !in live[q].caps
  {
    var later := live[p + 1..];
    if live[p].caps != [] {
      OffersIsMembership(live[p].caps, live[p].caps[0]);
      assert !Fits(live, p, caps, live[p].caps[0]);
    } else if q, cap :| p < q < |live| && cap in caps && cap in live[q].caps {
      assert later[q - p - 1] == live[q];
      ScanNames(later, cap, live[q].name);
      OffersIsMembership(caps, cap);
      assert !Fits(live, p, caps, cap);
    } else {
      forall cap ensures Fits(live, p, caps, cap) {
        OffersIsMembership(caps, cap);
        if cap in caps {
          assert forall i :: 0 <= i < |later| ==> later[i] == live[p + 1 + i];
          NoneOffers(later, cap);
        }
      }
    }
  }

  lemma {:induction false} NoneOffers(live: seq<Listing>, cap: string)
    requires forall i :: 0 <= i < |live| ==> cap !in live[i].caps
    ensures Scan(live, cap) == []
    decreases |live|
  {
    if live != [] {
      NoneOffers(live[..|live| - 1], cap);
      OffersIsMembership(live[|live| - 1].caps, cap);
    }
  }

  lemma {:induction false} AgainInOneBucket(s: State, x: Listing, cap: string)
    requires Unique(s.live) && Exact(s) && Live(s.live, x.name)
    ensures var t := Apply(s, Register(x));
      Bucket(t.index, cap) == Scan(t.live, cap) <==> Fits(s.live, Position(s.live, x.name), x.caps, cap)
  {
    AddGrowsBucket(s.index, x.caps, x.name, cap);
    AgainAt(s.live, Position(s.live, x.name), x, cap);
  }

  lemma {:induction false} AgainAt(live: seq<Listing>, p: nat, x: Listing, cap: string)
    requires Unique(live) && p < |live| && x.name == live[p].name
    ensures Scan(live, cap) + Times(x.name, Offers(x.caps, cap)) == Scan(live[p := x], cap) <==>
      Fits(live, p, x.caps, cap)
  {
    ScanAround(live, p, cap);
    ScanAround(live[p := x], p, cap);
    assert live[p := x][..p] == live[..p] && live[p := x][p + 1..] == live[p + 1..];
    ScanNames(live[p + 1..], cap, x.name);
    RoomInMiddle(Scan(live[..p], cap), Offers(live[p].caps, cap), Offers(x.caps, cap), Scan(live[p + 1..], cap),
      x.name);
  }

  lemma {:induction false} RoomInMiddle(a: seq<string>, m: nat, n: nat, b: seq<string>, name: string)
    requires name !in b
    ensures a + Times(name, m) + b + Times(name, n) == a + Times(name, n) + b <==> m == 0 && (n == 0 || b == [])
  {
    var l, r := a + Times(name, m) + b + Times(name, n), a + Times(name, n) + b;
    if m == 0 && n > 0 && b != [] {
      assert l[|a|] == b[0] && r[|a|] == name;
    }
  }

  // ---------------------------------------------------------------- lookups

  /** A plain scan of all services, one result per matching capability. */
  function PlainScan(services: seq<ServiceInfo>, cap: string): seq<ServiceInfo>
    reads services
    decreases |services|
  {
    if services == [] then []
    else
      var s := services[|services| - 1];
      PlainScan(services[..|services| - 1], cap) +
      if s.health != Unhealthy then seq(Offers(s.capabilities, cap), _ => s) else []
  }

  lemma {:induction false} UsableAppends(services: seq<ServiceInfo>, a: seq<string>, b: seq<string>)
    ensures Usable(services, a + b) == Usable(services, a) + Usable(services, b)
    decreases |a|
  {
    if a == [] {
      assert a + b == b;
    } else {
      UsableAppends(services, a[1..], b);
      assert (a + b)[1..] == a[1..] + b && (a + b)[0] == a[0];
    }
  }

  lemma {:induction false} UsableTimes(services: seq<ServiceInfo>, i: nat, n: nat)
    requires i < |services| && Unique(ListingsOf(services))
    ensures Usable(services, Times(services[i].name, n))
      == if services[i].health != Unhealthy then seq(n, _ => services[i]) else []
    decreases n
  {
    if n > 0 {
      UsableTimes(services, i, n - 1);
      assert Times(services[i].name, n)[1..] == Times(services[i].name, n - 1);
      assert ListingsOf(services)[i].name == services[i].name;
      assert Position(ListingsOf(services), services[i].name) == i;
    }
  }

  lemma {:induction false} ScanOfPrefix(services: seq<ServiceInfo>, cap: string, k: nat)
    requires k <= |services| && Unique(ListingsOf(services))
    ensures Usable(services, Scan(ListingsOf(services)[..k], cap)) == PlainScan(services[..k], cap)
    decreases k
  {
    if k > 0 {
      ScanOfPrefix(services, cap, k - 1);
      var live := ListingsOf(services);
      assert live[..k][..k - 1] == live[..k - 1] && services[..k][..k - 1] == services[..k - 1];
      var n := Offers(services[k - 1].capabilities, cap);
      UsableAppends(services, Scan(live[..k - 1], cap), Times(services[k - 1].name, n));
      UsableTimes(services, k - 1, n);
    }
  }

  /** Main results on lookups: `FindByCapability` equals the plain scan when the
      index is exact, and misses no usable service in any case. */
  lemma {:induction false} FindIsScan(registry: ServiceRegistry, cap: string)
    requires registry.Valid() && Exact(registry.View())
    ensures Usable(registry.services, Bucket(registry.index, cap)) == PlainScan(registry.services, cap)
  {
    var n := |registry.services|;
    ScanOfPrefix(registry.services, cap, n);
    assert ListingsOf(registry.services)[..n] == ListingsOf(registry.services)
      && registry.services[..n] == registry.services;
  }

  /** Whatever the index holds, a lookup gives exactly the services named in the bucket that are
      live and not unhealthy. */
  lemma {:induction false} UsableIsExact(services: seq<ServiceInfo>, names: seq<string>, s: ServiceInfo)
    requires Unique(ListingsOf(services))
    ensures s in Usable(services, names) <==> s in services && s.name in names && s.health != Unhealthy
    decreases |names|
  {
    if names != [] {
      UsableIsExact(services, names[1..], s);
      var live := ListingsOf(services);
      if Live(live, names[0]) {
        var p := Position(live, names[0]);
        assert live[p].name == services[p].name;
        if s in services && s.name == names[0] {
          var i :| 0 <= i < |services| && services[i] == s;
          assert live[i].name == s.name;
        }
      } else if s in services {
        var i :| 0 <= i < |services| && services[i] == s;
        assert live[i].name == s.name;
      }
    }
  }

  lemma {:induction false} FindMissesNone(registry: ServiceRegistry, cap: string, i: nat)
    requires registry.Valid() && Complete(registry.View()) && i < |registry.services|
    requires cap in registry.services[i].capabilities && registry.services[i].health != Unhealthy
    ensures registry.services[i] in Usable(registry.services, Bucket(registry.index, cap))
  {
    assert registry.View().live[i].caps == registry.services[i].capabilities;
    NamedIsUsable(registry.services, Bucket(registry.index, cap), i);
  }

  lemma {:induction false} NamedIsUsable(services: seq<ServiceInfo>, names: seq<string>, i: nat)
    requires i < |services| && Unique(ListingsOf(services)) && services[i].name in names
      && services[i].health != Unhealthy
    ensures services[i] in Usable(services, names)
    decreases |names|
  {
    assert ListingsOf(services)[i].name == services[i].name;
    if names[0] == services[i].name {
      assert Position(ListingsOf(services), names[0]) == i;
    } else {
      NamedIsUsable(services, names[1..], i);
    }
  }

  /** A service registered again without the capability it offered stays in the old bucket. */
  lemma {:induction false} StaleEntryHappens() returns (s: State)
    ensures s == Run([Register(Listing("a", ["x"])), Register(Listing("a", []))])
    ensures Bucket(s.index, "x") == ["a"] && Scan(s.live, "x") == [] && !Exact(s)
  {
    RunsTwo(Register(Listing("a", ["x"])), Register(Listing("a", [])));
    FirstEntry("a", "x");
    var index: Index := map["x" := ["a"]];
    EnteredAgain("a", ["x"], index);
    s := State([Listing("a", [])], index);
    NothingOffered("a", "x");
  }

  lemma {:induction false} FirstEntry(name: string, cap: string)
    ensures Apply(State([], map[]), Register(Listing(name, [cap]))) == State([Listing(name, [cap])], map[cap := [name]])
  {
    var x := Listing(name, [cap]);
    assert [] + [x] == [x] && [cap][..0] == [];
    assert IndexAdd(map[], [cap][..0], name) == map[];
    var none: Index := map[];
    assert Bucket(none, cap) + [name] == [name];
  }

  lemma {:induction false} EnteredAgain(name: string, caps: seq<string>, index: Index)
    ensures Apply(State([Listing(name, caps)], index), Register(Listing(name, [])))
      == State([Listing(name, [])], index)
  {
    assert [Listing(name, caps)][0].name == name;
  }

  lemma {:induction false} NothingOffered(name: string, cap: string)
    ensures Scan([Listing(name, [])], cap) == []
  {
    assert [Listing(name, [])][..0] == [];
  }

  lemma {:induction false} RunsTwo(a: Op, b: Op)
    ensures Run([a, b]) == Apply(Apply(State([], map[]), a), b)
  {
    var ops, init := [a, b], [a];
    assert ops[..|ops| - 1] == init && init[..|init| - 1] == [];
    assert Run([]) == State([], map[]) && Run(init) == Apply(Run([]), a);
  }
}
