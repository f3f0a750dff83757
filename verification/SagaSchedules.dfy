/** Which steps parallel compensation restores on every schedule: those that commute. */
module SagaSchedules {
  import opened Wrappers
  import opened Saga
  import opened SagaTheorems
  import opened SagaRestore
  import opened SagaExact

  /** The step always succeeds with this effect, and its compensation is the inverse of it. */
  ghost predicate Acts<S(!new)>(hs: Handlers<S>, d: StepDef, act: S -> S, back: S -> S) {
    && d.Compensatable() && 0 <= d.maxRetries
    && (forall s, log :: Succeeded(Tried(hs, d, s, log).outcome) && Tried(hs, d, s, log).world.state == act(s))
    && (forall s, log ::
          UndoneState(hs, d, s, log).outcome.Returned? && UndoneState(hs, d, s, log).world.state == back(s))
    && Inverse(act, back)
  }

  ghost predicate Inverse<S(!new)>(act: S -> S, back: S -> S) {
    forall s :: back(act(s)) == s && act(back(s)) == s
  }

  /** The step always fails, and changes nothing. */
  ghost predicate Refuses<S(!new)>(hs: Handlers<S>, d: StepDef) {
    && d.maxRetries == 0
    && forall s, log :: !Succeeded(Tried(hs, d, s, log).outcome) && Tried(hs, d, s, log).world.state == s
  }

  /** A finished schedule from this world that ends clean leaves the state it found. */
  ghost predicate RestoredAfter<S(!new)>(hs: Handlers<S>, vs: seq<StepView>, w: World<S>, schedule: seq<nat>) {
    (forall m :: 0 <= m < |schedule| ==> schedule[m] < |vs|) ==>
      var (w1, xs) := RunSchedule(hs, w, Starts(vs), schedule);
      var r := AfterGather(hs, w1, Views(xs), None);
      (forall i :: 0 <= i < |xs| ==> xs[i].done) && Clean(r.status) ==> r.world.state == w.state
  }

  ghost predicate AlwaysRestores<S(!new)>(hs: Handlers<S>, vs: seq<StepView>) {
    forall w, schedule :: RestoredAfter(hs, vs, w, schedule)
  }

  ghost predicate Commute<S(!new)>(f: S -> S, g: S -> S) {
    forall s :: f(g(s)) == g(f(s))
  }

  lemma {:induction false} ActsAtOnce<S(!new)>(hs: Handlers<S>, w: World<S>, v: StepView, act: S -> S, back: S -> S)
    requires Acts(hs, v.def, act, back)
    ensures var (w1, x) := Turn(hs, w, Start(v));
      w1.state == act(w.state) && x.done && x.view.status == Completed && x.view.def == v.def
  {
    assert Dispatch(hs, w, v.def.Forward()) == Tried(hs, v.def, w.state, w.log);
  }

  lemma {:induction false} RefusesAtOnce<S(!new)>(hs: Handlers<S>, w: World<S>, v: StepView)
    requires Refuses(hs, v.def)
    ensures var (w1, x) := Turn(hs, w, Start(v)); w1.state == w.state && x.done && x.view.status == Failed
  {
    assert Dispatch(hs, w, v.def.Forward()) == Tried(hs, v.def, w.state, w.log);
  }

  lemma {:induction false} RunNext<S>(hs: Handlers<S>, w: World<S>, xs: seq<Exec>, schedule: seq<nat>, i: nat,
                                      next: seq<nat>, w1: World<S>, xs1: seq<Exec>)
    returns (w2: World<S>, xs2: seq<Exec>)
    requires i < |xs| && (forall m :: 0 <= m < |schedule| ==> schedule[m] < |xs|) && next == schedule + [i]
    requires RunSchedule(hs, w, xs, schedule) == (w1, xs1)
    ensures RunSchedule(hs, w, xs, next) == (w2, xs2)
    ensures (w2, xs2) == var (w2, x) := Turn(hs, w1, xs1[i]); (w2, xs1[i := x])
  {
    assert next[..|next| - 1] == schedule;
    var (w', x) := Turn(hs, w1, xs1[i]);
    w2, xs2 := w', xs1[i := x];
  }

  /** The second step completes before the first, and the third fails. */
  lemma {:induction false} RunOutOfOrder<S(!new)>(hs: Handlers<S>, w: World<S>, a: StepView, b: StepView, f: StepView,
                                                  actA: S -> S, backA: S -> S, actB: S -> S, backB: S -> S)
    returns (w1: World<S>, xs: seq<Exec>)
    requires Acts(hs, a.def, actA, backA) && Acts(hs, b.def, actB, backB) && Refuses(hs, f.def)
    ensures RunSchedule(hs, w, Starts([a, b, f]), [1, 0, 2]) == (w1, xs) && |xs| == 3
    ensures xs[0].done && xs[1].done && xs[2].done && w1.state == actA(actB(w.state))
    ensures xs[0].view.status == Completed && xs[0].view.def == a.def
    ensures xs[1].view.status == Completed && xs[1].view.def == b.def && xs[2].view.status == Failed
  {
    var start := Starts([a, b, f]);
    var wb, xb := RunNext(hs, w, start, [], 1, [1], w, start);
    ActsAtOnce(hs, w, b, actB, backB);
    var wa, xa := RunNext(hs, w, start, [1], 0, [1, 0], wb, xb);
    ActsAtOnce(hs, wb, a, actA, backA);
    w1, xs := RunNext(hs, w, start, [1, 0], 2, [1, 0, 2], wa, xa);
    RefusesAtOnce(hs, wa, f);
  }

  /** The undos of the two steps that completed, in reverse list order. */
  lemma {:induction false} UndoneInListOrder<S(!new)>(hs: Handlers<S>, w: World<S>, vs: seq<StepView>,
                                                      actA: S -> S, backA: S -> S, actB: S -> S, backB: S -> S)
    requires |vs| == 3 && vs[0].status == vs[1].status == Completed && vs[2].status == Failed
    requires Acts(hs, vs[0].def, actA, backA) && Acts(hs, vs[1].def, actB, backB)
    ensures var r := AfterGather(hs, w, vs, None);
      r.status == WfCompensated && r.world.state == backA(backB(w.state))
  {
    assert EligibleBelow(vs, 0) == [] && EligibleBelow(vs, 1) == [0] && EligibleBelow(vs, 2) == [1, 0];
    assert EligibleBelow(vs, 3) == [1, 0];
    var d1 := UndoneState(hs, vs[1].def, w.state, w.log);
    var us := vs[1 := AfterUndo(vs[1], d1.outcome)];
    var d0 := UndoneState(hs, vs[0].def, d1.world.state, d1.world.log);
    var ts := us[0 := AfterUndo(us[0], d0.outcome)];
    assert [1, 0][1..] == [0] && [0][1..] == [];
    assert CompensateEach(hs, d0.world, ts, []) == Compensation(d0.world, ts, true);
    assert CompensateEach(hs, d1.world, us, [0]) == Compensation(d0.world, ts, true);
  }

  /** Main result: with a third step that refuses, two steps with inverse compensations are
      restored on every finished schedule exactly when their effects commute. */
  lemma {:induction false} RestoresExactlyWhenCommuting<S(!new)>(hs: Handlers<S>, a: StepView, b: StepView, f: StepView,
                                                                 actA: S -> S, backA: S -> S,
                                                                 actB: S -> S, backB: S -> S)
    requires AllPending([a, b, f]) && Refuses(hs, f.def) && !f.def.Compensatable()
    requires Acts(hs, a.def, actA, backA) && Acts(hs, b.def, actB, backB)
    ensures AlwaysRestores(hs, [a, b, f]) <==> Commute(actA, actB)
  {
    var vs := [a, b, f];
    if AlwaysRestores(hs, vs) {
      forall s ensures actA(actB(s)) == actB(actA(s)) {
        var w := World(s, []);
        OutOfOrder(hs, w, a, b, f, actA, backA, actB, backB);
        assert RestoredAfter(hs, vs, w, [1, 0, 2]);
        assert backA(backB(actA(actB(s)))) == s;
        assert actA(s) == backB(actA(actB(s)));
      }
    }
    if Commute(actA, actB) {
      forall w, schedule ensures RestoredAfter(hs, vs, w, schedule) {
        CommutingRestores(hs, w, a, b, f, actA, backA, actB, backB, schedule);
      }
    }
  }

  lemma {:induction false} OutOfOrder<S(!new)>(hs: Handlers<S>, w: World<S>, a: StepView, b: StepView, f: StepView,
                                               actA: S -> S, backA: S -> S, actB: S -> S, backB: S -> S)
    requires Acts(hs, a.def, actA, backA) && Acts(hs, b.def, actB, backB) && Refuses(hs, f.def)
    ensures var (w1, xs) := RunSchedule(hs, w, Starts([a, b, f]), [1, 0, 2]);
      var r := AfterGather(hs, w1, Views(xs), None);
      && (forall i :: 0 <= i < |xs| ==> xs[i].done)
      && r.status == WfCompensated && r.world.state == backA(backB(actA(actB(w.state))))
  {
    var w1, xs := RunOutOfOrder(hs, w, a, b, f, actA, backA, actB, backB);
    UndoneInListOrder(hs, w1, Views(xs), actA, backA, actB, backB);
  }

  lemma {:induction false} CommutingRestores<S(!new)>(hs: Handlers<S>, w: World<S>, a: StepView, b: StepView,
                                                      f: StepView, actA: S -> S, backA: S -> S,
                                                      actB: S -> S, backB: S -> S, schedule: seq<nat>)
    requires AllPending([a, b, f]) && Refuses(hs, f.def) && !f.def.Compensatable()
    requires Acts(hs, a.def, actA, backA) && Acts(hs, b.def, actB, backB) && Commute(actA, actB)
    ensures RestoredAfter(hs, [a, b, f], w, schedule)
  {
    var vs := [a, b, f];
    var eff: (nat, S) -> S := (i, s) => if i == 0 then actA(s) else if i == 1 then actB(s) else s;
    assert Commuting(hs, vs, eff);
    if forall m :: 0 <= m < |schedule| ==> schedule[m] < |vs| {
      ParallelCompensatedMeansRestored(hs, w, vs, eff, schedule, None);
    }
  }

  // A bridge that adds one, changes the sign, or fails.
  const REGISTER: Handler<int> := (s, log, action, payload) =>
    if action == "add" then Reply(s + 1, Returned(Dict("", false, "")))
    else if action == "take" then Reply(s - 1, Returned(Dict("", false, "")))
    else if action == "flip" then Reply(-s, Returned(Dict("", false, "")))
    else Reply(s, TimedOut)
  const ADD := StepView(StepDef("a", Nexus, "add", "", Some("take"), "", 0, "30.0"), Pending, None, None, 0)
  const FLIP := StepView(StepDef("b", Nexus, "flip", "", Some("flip"), "", 0, "30.0"), Pending, None, None, 0)
  const FAIL := StepView(StepDef("f", Nexus, "fail", "", None, "", 0, "30.0"), Pending, None, None, 0)

  lemma {:induction false} AddActs()
    ensures Acts(map[Nexus := REGISTER], ADD.def, s => s + 1, s => s - 1)
  {
  }

  lemma {:induction false} FlipActs()
    ensures Acts(map[Nexus := REGISTER], FLIP.def, s => -s, s => -s)
  {
  }

  lemma {:induction false} FailRefuses()
    ensures Refuses(map[Nexus := REGISTER], FAIL.def)
  {
  }

  /** Adding one and changing the sign: each is undone exactly, and yet the state is changed by a
      run that ends COMPENSATED. */
  lemma {:induction false} OrderCanShow() returns (hs: Handlers<int>, vs: seq<StepView>)
    ensures vs == [ADD, FLIP, FAIL] && AllPending(vs) && forall i :: 0 <= i < |vs| ==> Reversible(hs, vs[i].def)
    ensures var (w1, xs) := RunSchedule(hs, World(0, []), Starts(vs), [1, 0, 2]);
      var r := AfterGather(hs, w1, Views(xs), None);
      (forall i :: 0 <= i < |xs| ==> xs[i].done) && r.status == WfCompensated && r.world.state != 0
  {
    hs, vs := map[Nexus := REGISTER], [ADD, FLIP, FAIL];
    AddActs();
    FlipActs();
    FailRefuses();
    ActsIsReversible(hs, ADD.def, s => s + 1, s => s - 1);
    ActsIsReversible(hs, FLIP.def, s => -s, s => -s);
    RefusesIsReversible(hs, FAIL.def);
    OutOfOrder(hs, World(0, []), ADD, FLIP, FAIL, s => s + 1, s => s - 1, s => -s, s => -s);
  }

  lemma {:induction false} ActsIsReversible<S(!new)>(hs: Handlers<S>, d: StepDef, act: S -> S, back: S -> S)
    requires Acts(hs, d, act, back)
    ensures Reversible(hs, d)
  {
  }

  lemma {:induction false} RefusesIsReversible<S(!new)>(hs: Handlers<S>, d: StepDef)
    requires Refuses(hs, d)
    ensures Reversible(hs, d)
  {
  }
}
