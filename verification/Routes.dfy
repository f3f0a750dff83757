/** Moving the catch-all route to the end of the table: api.py, `_move_spa_fallback_last`. */
module Routes {
  import opened Sequences
  import opened Wrappers

  /** A route object; `isFallback` says that it is an API route for the catch-all path. Routes that
      compare equal are indistinguishable, as `list.remove` takes them. */
  datatype Route = Route(id: int, isFallback: bool)

  function WithoutKind(routes: seq<Route>, fallback: bool): seq<Route> {
    if routes == [] then []
    else (if routes[0].isFallback == fallback then [] else [routes[0]]) + WithoutKind(routes[1..], fallback)
  }

  function Others(routes: seq<Route>): seq<Route> {
    WithoutKind(routes, true)
  }

  function Fallbacks(routes: seq<Route>): seq<Route> {
    WithoutKind(routes, false)
  }

  /** Where `list.remove` finds the route. */
  function IndexOf(routes: seq<Route>, route: Route): (i: nat)
    requires route in routes
    ensures i < |routes| && routes[i] == route && route !in routes[..i]
  {
    if routes[0] == route then 0 else 1 + IndexOf(routes[1..], route)
  }

  function Removed(routes: seq<Route>, route: Route): seq<Route>
    requires route in routes
  {
    var i := IndexOf(routes, route);
    routes[..i] + routes[i + 1..]
  }

  lemma {:induction false} WithoutConcat(a: seq<Route>, b: seq<Route>, fallback: bool)
    ensures WithoutKind(a + b, fallback) == WithoutKind(a, fallback) + WithoutKind(b, fallback)
    decreases |a|
  {
    if a == [] {
      assert a + b == b;
    } else {
      assert (a + b)[1..] == a[1..] + b;
      WithoutConcat(a[1..], b, fallback);
      var first := if a[0].isFallback == fallback then [] else [a[0]];
      Associates(first, WithoutKind(a[1..], fallback), WithoutKind(b, fallback));
    }
  }

  lemma {:induction false} WithoutHolds(routes: seq<Route>, fallback: bool)
    ensures forall r :: r in WithoutKind(routes, fallback) <==> r in routes && r.isFallback != fallback
    ensures |WithoutKind(routes, fallback)| <= |routes|
    decreases |routes|
  {
    if routes != [] { WithoutHolds(routes[1..], fallback); }
  }

  lemma {:induction false} NothingDropped(routes: seq<Route>, fallback: bool)
    requires forall r :: r in routes ==> r.isFallback != fallback
    ensures WithoutKind(routes, fallback) == routes
    decreases |routes|
  {
    if routes != [] { NothingDropped(routes[1..], fallback); }
  }

  class Router {
    var routes: seq<Route>

    constructor (routes: seq<Route>)
      ensures this.routes == routes
    {
      this.routes := routes;
    }

    method MoveFallbackLast()
      modifies this
      ensures routes == Others(old(routes)) + Fallbacks(old(routes))
    {
      var fallback := Fallbacks(routes);
      ghost var head := routes;
      for i := 0 to |fallback|
        invariant IsTurn(head, routes, fallback, i, Others(old(routes)))
      {
        var route := fallback[i];
        TurnGoesOn(head, routes, fallback, i, Others(old(routes)));
        head := Removed(head, route);
        routes := Removed(routes, route) + [route];
      }
      NoFallbackLeft(head);
    }
  }

  lemma {:induction false} NoFallbackLeft(head: seq<Route>)
    requires WithoutKind(head, false) == []
    ensures WithoutKind(head, true) == head
  {
    WithoutHolds(head, false);
    forall r | r in head ensures !r.isFallback {
      assert r.isFallback ==> r in WithoutKind(head, false);
    }
    NothingDropped(head, true);
  }

  /** After `i` turns: a head holding the other routes and the fallbacks still to move, in
      order, then the moved ones. */
  ghost predicate IsTurn(head: seq<Route>, routes: seq<Route>, fallback: seq<Route>, i: nat, others: seq<Route>)
  {
    && i <= |fallback| && routes == head + fallback[..i]
    && WithoutKind(head, true) == others && WithoutKind(head, false) == fallback[i..]
  }

  lemma {:induction false} Halves(head: seq<Route>, i: nat, fallback: bool)
    requires i < |head|
    ensures WithoutKind(head, fallback)
      == WithoutKind(head[..i], fallback) + WithoutKind([head[i]], fallback) + WithoutKind(head[i + 1..], fallback)
    ensures WithoutKind(head[..i] + head[i + 1..], fallback)
      == WithoutKind(head[..i], fallback) + WithoutKind(head[i + 1..], fallback)
  {
    assert head == head[..i] + [head[i]] + head[i + 1..];
    WithoutConcat(head[..i] + [head[i]], head[i + 1..], fallback);
    WithoutConcat(head[..i], [head[i]], fallback);
    WithoutConcat(head[..i], head[i + 1..], fallback);
  }

  /** The first fallback left is the one removed, and nothing before it is one. */
  lemma {:induction false} FirstFallback(head: seq<Route>) returns (k: nat)
    requires WithoutKind(head, false) != []
    ensures k < |head| && head[k] == WithoutKind(head, false)[0] && head[k].isFallback && k == IndexOf(head, head[k])
    ensures WithoutKind(head[..k], false) == [] && forall r :: r in head[..k] ==> !r.isFallback
    decreases |head|
  {
    if head[0].isFallback {
      k := 0;
    } else {
      k := FirstFallback(head[1..]);
      k := k + 1;
      assert head[..k] == [head[0]] + head[1..][..k - 1];
    }
    IndexIs(head, head[k], k);
  }

  lemma {:induction false} RemovedFromHead(head: seq<Route>, tail: seq<Route>, route: Route)
    requires route in head
    ensures route in head + tail
    ensures Removed(head + tail, route) == Removed(head, route) + tail
  {
    var i := IndexOf(head, route);
    assert (head + tail)[..i] == head[..i] && (head + tail)[i] == route;
    IndexIs(head + tail, route, i);
  }

  lemma {:induction false} IndexIs(routes: seq<Route>, route: Route, i: nat)
    requires i < |routes| && routes[i] == route && route !in routes[..i]
    ensures IndexOf(routes, route) == i
    decreases i
  {
    if i > 0 {
      assert routes[0] == routes[..i][0] && routes[1..][..i - 1] == routes[..i][1..];
      IndexIs(routes[1..], route, i - 1);
    }
  }

  lemma {:induction false} TurnGoesOn(head: seq<Route>, routes: seq<Route>, fallback: seq<Route>, i: nat,
                                      others: seq<Route>)
    requires i < |fallback| && IsTurn(head, routes, fallback, i, others)
    ensures fallback[i] in head && fallback[i] in routes
    ensures IsTurn(Removed(head, fallback[i]), Removed(routes, fallback[i]) + [fallback[i]], fallback, i + 1, others)
  {
    var route := fallback[i];
    var k := FirstFallback(head);
    RemovedFromHead(head, fallback[..i], route);
    Halves(head, k, true);
    Halves(head, k, false);
    assert fallback[i..][1..] == fallback[i + 1..] && fallback[..i] + [route] == fallback[..i + 1];
    assert Removed(head, route) + fallback[..i] + [route] == Removed(head, route) + (fallback[..i] + [route]);
  }

  // ---------------------------------------------------------------- dispatch

  /** Dispatch: the first route that matches the request. */
  function Dispatch(routes: seq<Route>, matches: Route -> bool): Option<Route> {
    if routes == [] then None else if matches(routes[0]) then Some(routes[0]) else Dispatch(routes[1..], matches)
  }

  lemma {:induction false} DispatchConcat(a: seq<Route>, b: seq<Route>, matches: Route -> bool)
    ensures Dispatch(a + b, matches) == if Dispatch(a, matches).Some? then Dispatch(a, matches)
      else Dispatch(b, matches)
    decreases |a|
  {
    if a == [] {
      assert a + b == b;
    } else {
      assert (a + b)[1..] == a[1..] + b;
      DispatchConcat(a[1..], b, matches);
    }
  }

  /** Asking the routes of one kind is asking all of them for a match of that kind. */
  lemma {:induction false} DispatchWithout(routes: seq<Route>, fallback: bool, matches: Route -> bool,
                                           both: Route -> bool)
    requires forall r :: both(r) <==> matches(r) && r.isFallback != fallback
    ensures Dispatch(WithoutKind(routes, fallback), matches) == Dispatch(routes, both)
    decreases |routes|
  {
    if routes != [] {
      var rest := WithoutKind(routes[1..], fallback);
      assert ([routes[0]] + rest)[1..] == rest && [] + rest == rest;
      DispatchWithout(routes[1..], fallback, matches, both);
    }
  }

  lemma {:induction false} DispatchIsFirst(routes: seq<Route>, matches: Route -> bool)
    ensures Dispatch(routes, matches).None? ==> forall r :: r in routes ==> !matches(r)
    ensures Dispatch(routes, matches).Some? ==>
      exists i :: 0 <= i < |routes| && Dispatch(routes, matches) == Some(routes[i]) && matches(routes[i])
        && forall r :: r in routes[..i] ==> !matches(r)
    decreases |routes|
  {
    if routes != [] {
      if matches(routes[0]) {
        assert routes[..0] == [];
      } else {
        DispatchIsFirst(routes[1..], matches);
        if Dispatch(routes[1..], matches).Some? {
          var i :| 0 <= i < |routes| - 1 && Dispatch(routes[1..], matches) == Some(routes[1..][i])
            && matches(routes[1..][i])
            && forall r :: r in routes[1..][..i] ==> !matches(r);
          assert routes[..i + 1] == [routes[0]] + routes[1..][..i] && routes[i + 1] == routes[1..][i];
        }
      }
    }
  }

  /** After the move a request goes to the first matching route that is no fallback, as
      declared, and to a fallback exactly when no other route matches. */
  lemma {:induction false} FallbackOnlyWhenNothingElse(routes: seq<Route>, matches: Route -> bool,
                                                       others: Route -> bool, fallbacks: Route -> bool)
    requires forall r :: others(r) <==> matches(r) && !r.isFallback
    requires forall r :: fallbacks(r) <==> matches(r) && r.isFallback
    ensures Dispatch(Others(routes) + Fallbacks(routes), matches)
      == if Dispatch(routes, others).Some? then Dispatch(routes, others) else Dispatch(routes, fallbacks)
    ensures var served := Dispatch(Others(routes) + Fallbacks(routes), matches);
      served.Some? && served.value.isFallback <==>
        && (exists r :: r in routes && r.isFallback && matches(r))
        && forall r :: r in routes && !r.isFallback ==> !matches(r)
  {
    DispatchConcat(Others(routes), Fallbacks(routes), matches);
    DispatchWithout(routes, true, matches, others);
    DispatchWithout(routes, false, matches, fallbacks);
    DispatchIsFirst(routes, others);
    DispatchIsFirst(routes, fallbacks);
  }

  /** Moving the fallbacks loses no route and adds none. */
  lemma {:induction false} EveryRouteIsKept(routes: seq<Route>)
    ensures multiset(Others(routes) + Fallbacks(routes)) == multiset(routes)
    decreases |routes|
  {
    if routes != [] {
      EveryRouteIsKept(routes[1..]);
      assert routes == [routes[0]] + routes[1..];
    }
  }
}
