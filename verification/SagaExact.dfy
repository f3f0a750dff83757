/** Exactly when compensation restores the bridges: the condition on each step that is
    both needed and enough, whatever the dispatcher does. */
module SagaExact {
  import opened Wrappers
  import opened Saga
  import opened SagaTheorems
  import opened SagaRestore

  /** Every undo that was called returned: COMPENSATED, or COMPENSATING with none to call. */
  predicate Clean(status: WorkflowStatus) {
    status == WfCompensated || status == WfCompensating
  }

  /** A run from this world that ends clean leaves the state it found. */
  ghost predicate RestoredFrom<S(!new)>(hs: Handlers<S>, vs: seq<StepView>, w: World<S>) {
    Clean(Execute(hs, w, vs, None).status) ==> Execute(hs, w, vs, None).world.state == w.state
  }

  ghost predicate Restores<S(!new)>(hs: Handlers<S>, vs: seq<StepView>) {
    forall w :: RestoredFrom(hs, vs, w)
  }

  ghost predicate HarmlessFrom<S(!new)>(hs: Handlers<S>, v: StepView, w: World<S>) {
    RunStep(hs, w, Start(v)).1.view.status == Failed ==> RunStep(hs, w, Start(v)).0.state == w.state
  }

  /** The attempts of a step that fails come to nothing. */
  ghost predicate Harmless<S(!new)>(hs: Handlers<S>, v: StepView) {
    forall w :: HarmlessFrom(hs, v, w)
  }

  ghost predicate InverseFrom<S(!new)>(hs: Handlers<S>, v: StepView, after: seq<StepView>, w: World<S>) {
    var (w1, x) := RunStep(hs, w, Start(v));
    x.view.status != Failed && Clean(Execute(hs, w1, after, None).status) ==>
      Undone(hs, x.view, World(w1.state, Execute(hs, w1, after, None).world.log), w.state)
  }

  /** The undo of a step that completed, given the state the step left and the log at which the
      steps after it have been undone, gives back the state before if it returns; a step that
      has no undo must have left that state itself. */
  ghost predicate LeftInverse<S(!new)>(hs: Handlers<S>, v: StepView, after: seq<StepView>) {
    forall w :: InverseFrom(hs, v, after, w)
  }

  ghost predicate Undone<S(!new)>(hs: Handlers<S>, v: StepView, w: World<S>, before: S) {
    if v.Eligible() then
      var d := Dispatch(hs, w, v.def.Undo());
      d.outcome.Returned? ==> d.world.state == before
    else w.state == before
  }

  // ---------------------------------------------------------------- a run, head and tail

  function Shifted(todo: seq<nat>): seq<nat> {
    seq(|todo|, i requires 0 <= i < |todo| => todo[i] + 1)
  }

  lemma {:induction false} EligibleShifts(v: StepView, us: seq<StepView>, n: nat)
    requires n <= |us|
    ensures EligibleBelow([v] + us, n + 1) == Shifted(EligibleBelow(us, n)) + if v.Eligible() then [0] else []
    decreases n
  {
    assert ([v] + us)[n] == if n == 0 then v else us[n - 1];
    if n == 0 {
      assert EligibleBelow([v] + us, 0) == [] && EligibleBelow(us, 0) == [];
    } else {
      EligibleShifts(v, us, n - 1);
      var rest := EligibleBelow(us, n - 1);
      if us[n - 1].Eligible() { assert Shifted([n - 1] + rest) == [n] + Shifted(rest); }
    }
  }

  lemma {:induction false} PrefixFailedFirst<S>(hs: Handlers<S>, w: World<S>, vs: seq<StepView>, n: nat)
    requires 0 < n <= |vs| && RunStep(hs, w, Start(vs[0])).1.view.status == Failed
    ensures var (w1, x) := RunStep(hs, w, Start(vs[0])); Prefix(hs, w, vs, n) == Progress(w1, vs[0 := x.view], Some(0))
    decreases n
  {
    if n == 1 {
      assert Prefix(hs, w, vs, 0) == Progress(w, vs, None);
    } else {
      PrefixFailedFirst(hs, w, vs, n - 1);
    }
  }

  function ShiftedProgress<S>(x: StepView, p: Progress<S>): Progress<S> {
    Progress(p.world, [x] + p.views, if p.failed.Some? then Some(p.failed.value + 1) else None)
  }

  lemma {:induction false} PrefixShifts<S>(hs: Handlers<S>, w: World<S>, vs: seq<StepView>, n: nat)
    requires n < |vs| && RunStep(hs, w, Start(vs[0])).1.view.status != Failed
    ensures var (w1, x) := RunStep(hs, w, Start(vs[0]));
      Prefix(hs, w, vs, n + 1) == ShiftedProgress(x.view, Prefix(hs, w1, vs[1..], n))
    decreases n
  {
    var (w1, x) := RunStep(hs, w, Start(vs[0]));
    if n == 0 {
      assert Prefix(hs, w, vs, 0) == Progress(w, vs, None);
      assert vs[0 := x.view] == [x.view] + vs[1..];
    } else {
      PrefixShifts(hs, w, vs, n - 1);
      ShiftOnce(hs, x.view, Prefix(hs, w1, vs[1..], n - 1), n);
    }
  }

  /** The loop's next turn, seen with and without the first step. */
  function Advanced<S>(hs: Handlers<S>, p: Progress<S>, n: nat): Progress<S>
    requires n < |p.views|
  {
    if p.failed.Some? then p
    else
      var (w1, x) := RunStep(hs, p.world, Start(p.views[n]));
      Progress(w1, p.views[n := x.view], if x.view.status == Failed then Some(n) else None)
  }

  lemma {:induction false} ShiftOnce<S>(hs: Handlers<S>, x: StepView, p: Progress<S>, n: nat)
    requires 0 < n <= |p.views|
    ensures Advanced(hs, ShiftedProgress(x, p), n) == ShiftedProgress(x, Advanced(hs, p, n - 1))
  {
    assert ([x] + p.views)[n] == p.views[n - 1];
    if p.failed.None? {
      var (w1, y) := RunStep(hs, p.world, Start(p.views[n - 1]));
      assert ([x] + p.views)[n := y.view] == [x] + p.views[n - 1 := y.view];
    }
  }

  lemma {:induction false} CompensateShifts<S>(hs: Handlers<S>, w: World<S>, v: StepView, us: seq<StepView>,
      todo: seq<nat>)
    requires forall m :: 0 <= m < |todo| ==> todo[m] < |us| && us[todo[m]].def.Compensatable()
    ensures var c := CompensateEach(hs, w, us, todo);
      CompensateEach(hs, w, [v] + us, Shifted(todo)) == Compensation(c.world, [v] + c.views, c.all)
    decreases |todo|
  {
    if todo != [] {
      var i := todo[0];
      var d := Dispatch(hs, w, us[i].def.Undo());
      var next := us[i := AfterUndo(us[i], d.outcome)];
      assert ([v] + us)[i + 1] == us[i] && ([v] + us)[i + 1 := AfterUndo(us[i], d.outcome)] == [v] + next;
      assert Shifted(todo)[1..] == Shifted(todo[1..]);
      CompensateShifts(hs, d.world, v, next, todo[1..]);
    }
  }

  lemma {:induction false} CompensateLast<S>(hs: Handlers<S>, w: World<S>, vs: seq<StepView>, todo: seq<nat>, k: nat)
    requires forall m :: 0 <= m < |todo| ==> todo[m] < |vs| && vs[todo[m]].def.Compensatable() && todo[m] != k
    requires k < |vs| && vs[k].def.Compensatable()
    ensures var c := CompensateEach(hs, w, vs, todo);
      var d := Dispatch(hs, c.world, vs[k].def.Undo());
      && CompensateEach(hs, w, vs, todo + [k]).world == d.world
      && CompensateEach(hs, w, vs, todo + [k]).all == (c.all && d.outcome.Returned?)
    decreases |todo|
  {
    if todo == [] {
      assert ([] + [k])[0] == k && ([] + [k])[1..] == [];
    } else {
      var d := Dispatch(hs, w, vs[todo[0]].def.Undo());
      assert (todo + [k])[0] == todo[0] && (todo + [k])[1..] == todo[1..] + [k];
      CompensateLast(hs, d.world, vs[todo[0] := AfterUndo(vs[todo[0]], d.outcome)], todo[1..], k);
    }
  }

  lemma {:induction false} WorkflowIsEach<S>(hs: Handlers<S>, w: World<S>, vs: seq<StepView>, error: Option<string>)
    returns (c: Compensation<S>)
    ensures forall m :: 0 <= m < |EligibleBelow(vs, |vs|)| ==>
      EligibleBelow(vs, |vs|)[m] < |vs| && vs[EligibleBelow(vs, |vs|)[m]].def.Compensatable()
    ensures c == CompensateEach(hs, w, vs, EligibleBelow(vs, |vs|))
    ensures CompensateWorkflow(hs, w, vs, error).world == c.world
    ensures Clean(CompensateWorkflow(hs, w, vs, error).status) <==> c.all
  {
    EligibleIsExact(vs, |vs|);
    c := CompensateEach(hs, w, vs, EligibleBelow(vs, |vs|));
  }

  lemma {:induction false} EachHeadLast<S>(hs: Handlers<S>, w: World<S>, x: StepView, us: seq<StepView>, todo: seq<nat>)
    requires forall m :: 0 <= m < |todo| ==> todo[m] < |us| && us[todo[m]].def.Compensatable()
    requires x.def.Compensatable()
    ensures forall m :: 0 <= m < |Shifted(todo) + [0]| ==>
      (Shifted(todo) + [0])[m] < |[x] + us| && ([x] + us)[(Shifted(todo) + [0])[m]].def.Compensatable()
    ensures var r, c := CompensateEach(hs, w, [x] + us, Shifted(todo) + [0]), CompensateEach(hs, w, us, todo);
      var d := Dispatch(hs, c.world, x.def.Undo());
      r.world == d.world && r.all == (c.all && d.outcome.Returned?)
  {
    CompensateShifts(hs, w, x, us, todo);
    ShiftedAvoids(us, todo, x);
    CompensateLast(hs, w, [x] + us, Shifted(todo), 0);
  }

  /** Undoing a step and those after it is undoing those after it and then the step. */
  lemma {:induction false} UndoHeadLast<S>(hs: Handlers<S>, w: World<S>, x: StepView, us: seq<StepView>,
                                           error: Option<string>, other: Option<string>)
    ensures var r, q := CompensateWorkflow(hs, w, [x] + us, error), CompensateWorkflow(hs, w, us, other);
      if x.Eligible() then
        var d := Dispatch(hs, q.world, x.def.Undo());
        r.world == d.world && (Clean(r.status) <==> Clean(q.status) && d.outcome.Returned?)
      else r.world == q.world && (Clean(r.status) <==> Clean(q.status))
  {
    var todo := EligibleBelow(us, |us|);
    EligibleShifts(x, us, |us|);
    var r := WorkflowIsEach(hs, w, [x] + us, error);
    var q := WorkflowIsEach(hs, w, us, other);
    if x.Eligible() {
      EachHeadLast(hs, w, x, us, todo);
    } else {
      assert Shifted(todo) + [] == Shifted(todo);
      CompensateShifts(hs, w, x, us, todo);
    }
  }

  lemma {:induction false} ShiftedAvoids(us: seq<StepView>, todo: seq<nat>, x: StepView)
    requires forall m :: 0 <= m < |todo| ==> todo[m] < |us| && us[todo[m]].def.Compensatable()
    ensures forall m :: 0 <= m < |Shifted(todo)| ==> 0 < Shifted(todo)[m] <= |us|
    ensures forall m :: 0 <= m < |Shifted(todo)| ==> ([x] + us)[Shifted(todo)[m]].def.Compensatable()
  {
  }

  lemma {:induction false} NothingEligible(vs: seq<StepView>, n: nat)
    requires n <= |vs| && forall i :: 0 <= i < n ==> vs[i].status != Completed
    ensures EligibleBelow(vs, n) == []
    decreases n
  {
    if n > 0 { NothingEligible(vs, n - 1); }
  }

  /** A run whose first step fails ends there, with nothing to undo. */
  lemma {:induction false} FirstFails<S>(hs: Handlers<S>, w: World<S>, vs: seq<StepView>)
    requires vs != [] && AllPending(vs) && RunStep(hs, w, Start(vs[0])).1.view.status == Failed
    ensures Execute(hs, w, vs, None).status == WfCompensating
    ensures Execute(hs, w, vs, None).world == RunStep(hs, w, Start(vs[0])).0
  {
    var (w1, x) := RunStep(hs, w, Start(vs[0]));
    PrefixFailedFirst(hs, w, vs, |vs|);
    NothingEligible(vs[0 := x.view], |vs|);
  }

  /** Any other run is the run of the rest and then, if that one fails clean, the first step's undo. */
  lemma {:induction false} FirstCompletes<S>(hs: Handlers<S>, w: World<S>, vs: seq<StepView>)
    requires vs != [] && RunStep(hs, w, Start(vs[0])).1.view.status != Failed
    ensures var (w1, x) := RunStep(hs, w, Start(vs[0]));
      var r, q := Execute(hs, w, vs, None), Execute(hs, w1, vs[1..], None);
      && (Clean(r.status) ==> Clean(q.status))
      && (Clean(q.status) && x.view.Eligible() ==>
            var d := Dispatch(hs, q.world, x.view.def.Undo());
            r.world == d.world && (Clean(r.status) <==> d.outcome.Returned?))
      && (Clean(q.status) && !x.view.Eligible() ==> r.world == q.world && Clean(r.status))
  {
    var (w1, x) := RunStep(hs, w, Start(vs[0]));
    PrefixShifts(hs, w, vs, |vs| - 1);
    var p := Prefix(hs, w1, vs[1..], |vs| - 1);
    ExecuteIs(hs, w, vs, None, Prefix(hs, w, vs, |vs|));
    ExecuteIs(hs, w1, vs[1..], None, p);
    ConcludeShifts(hs, x.view, p);
  }

  lemma {:induction false} ConcludeShifts<S>(hs: Handlers<S>, x: StepView, p: Progress<S>)
    requires p.failed.Some? ==> p.failed.value < |p.views|
    ensures var r, q := Conclude(hs, ShiftedProgress(x, p), None), Conclude(hs, p, None);
      && (Clean(r.status) ==> Clean(q.status))
      && (Clean(q.status) && x.Eligible() ==>
            var d := Dispatch(hs, q.world, x.def.Undo());
            r.world == d.world && (Clean(r.status) <==> d.outcome.Returned?))
      && (Clean(q.status) && !x.Eligible() ==> r.world == q.world && Clean(r.status))
  {
    if p.failed.Some? {
      var shifted := ShiftedProgress(x, p);
      UndoHeadLast(hs, p.world, x, p.views, shifted.views[shifted.failed.value].error, p.views[p.failed.value].error);
    }
  }

  // ---------------------------------------------------------------- the condition

  lemma {:induction false} HeadConditionAt<S(!new)>(hs: Handlers<S>, vs: seq<StepView>, w: World<S>)
    requires vs != [] && AllPending(vs) && Restores(hs, vs[1..])
    ensures RestoredFrom(hs, vs, w) <==> HarmlessFrom(hs, vs[0], w) && InverseFrom(hs, vs[0], vs[1..], w)
  {
    var (w1, x) := RunStep(hs, w, Start(vs[0]));
    if x.view.status == Failed {
      FirstFails(hs, w, vs);
    } else {
      FirstCompletes(hs, w, vs);
      assert RestoredFrom(hs, vs[1..], w1);
      var q := Execute(hs, w1, vs[1..], None);
      if Clean(q.status) { assert q.world == World(w1.state, q.world.log); }
    }
  }

  lemma {:induction false} HeadCondition<S(!new)>(hs: Handlers<S>, vs: seq<StepView>)
    requires vs != [] && AllPending(vs) && Restores(hs, vs[1..])
    ensures Restores(hs, vs) <==> Harmless(hs, vs[0]) && LeftInverse(hs, vs[0], vs[1..])
  {
    forall w ensures RestoredFrom(hs, vs, w) <==> HarmlessFrom(hs, vs[0], w) && InverseFrom(hs, vs[0], vs[1..], w) {
      HeadConditionAt(hs, vs, w);
    }
    assert Restores(hs, vs) <==> forall w :: RestoredFrom(hs, vs, w);
    assert Harmless(hs, vs[0]) <==> forall w :: HarmlessFrom(hs, vs[0], w);
    assert LeftInverse(hs, vs[0], vs[1..]) <==> forall w :: InverseFrom(hs, vs[0], vs[1..], w);
  }

  ghost predicate TailsRestore<S(!new)>(hs: Handlers<S>, vs: seq<StepView>) {
    forall k :: 0 <= k <= |vs| ==> Restores(hs, vs[k..])
  }

  ghost predicate StepsReverse<S(!new)>(hs: Handlers<S>, vs: seq<StepView>) {
    forall k :: 0 <= k < |vs| ==> Harmless(hs, vs[k]) && LeftInverse(hs, vs[k], vs[k + 1..])
  }

  lemma {:induction false} TailsUnfold<S(!new)>(hs: Handlers<S>, vs: seq<StepView>)
    requires vs != []
    ensures TailsRestore(hs, vs) <==> Restores(hs, vs) && TailsRestore(hs, vs[1..])
  {
    assert vs[0..] == vs;
    assert forall k :: 0 <= k < |vs| ==> vs[1..][k..] == vs[k + 1..];
    if TailsRestore(hs, vs) {
      forall k | 0 <= k <= |vs[1..]| ensures Restores(hs, vs[1..][k..]) {
        assert Restores(hs, vs[k + 1..]);
      }
    } else if Restores(hs, vs) && TailsRestore(hs, vs[1..]) {
      forall k | 0 <= k <= |vs| ensures Restores(hs, vs[k..]) {
        if k > 0 { assert Restores(hs, vs[1..][k - 1..]); }
      }
    }
  }

  lemma {:induction false} StepsUnfold<S(!new)>(hs: Handlers<S>, vs: seq<StepView>)
    requires vs != []
    ensures StepsReverse(hs, vs) <==>
            Harmless(hs, vs[0]) && LeftInverse(hs, vs[0], vs[1..]) && StepsReverse(hs, vs[1..])
  {
    var tail := vs[1..];
    assert forall k :: 0 <= k < |tail| ==> tail[k] == vs[k + 1] && tail[k + 1..] == vs[k + 2..];
    if StepsReverse(hs, vs) {
      forall k | 0 <= k < |tail| ensures Harmless(hs, tail[k]) && LeftInverse(hs, tail[k], tail[k + 1..]) {
        assert Harmless(hs, vs[k + 1]);
      }
    } else if Harmless(hs, vs[0]) && LeftInverse(hs, vs[0], tail) && StepsReverse(hs, tail) {
      forall k | 0 <= k < |vs| ensures Harmless(hs, vs[k]) && LeftInverse(hs, vs[k], vs[k + 1..]) {
        if k > 0 { assert Harmless(hs, tail[k - 1]); }
      }
    }
  }

  /** Main result: the runs of a workflow and of all its tails, from every world, restore the state
      whenever they end clean, exactly when each step's failed attempts come to nothing and each
      undo that returns is a left inverse of its step at the logs a run reaches. */
  lemma {:induction false} RestoresExactlyWhen<S(!new)>(hs: Handlers<S>, vs: seq<StepView>)
    requires AllPending(vs)
    ensures TailsRestore(hs, vs) <==> StepsReverse(hs, vs)
    decreases |vs|
  {
    if vs == [] {
      forall k | 0 <= k <= |vs| ensures Restores(hs, vs[k..]) {
        NoStepsRestore(hs);
        assert vs[k..] == [];
      }
    } else {
      TailsUnfold(hs, vs);
      StepsUnfold(hs, vs);
      RestoresExactlyWhen(hs, vs[1..]);
      if TailsRestore(hs, vs[1..]) {
        assert Restores(hs, vs[1..][0..]) && vs[1..][0..] == vs[1..];
        HeadCondition(hs, vs);
      }
    }
  }

  lemma {:induction false} NoStepsRestore<S(!new)>(hs: Handlers<S>)
    ensures Restores(hs, [])
  {
    forall w ensures RestoredFrom(hs, [], w) {
      assert Prefix(hs, w, [], 0) == Progress(w, [], None);
    }
  }

  /** With a single attempt the condition on failures is about that attempt. */
  lemma {:induction false} HarmlessIsPerAttempt<S(!new)>(hs: Handlers<S>, v: StepView)
    requires v.def.maxRetries == 0
    ensures Harmless(hs, v) <==>
            forall s, log :: !Succeeded(Tried(hs, v.def, s, log).outcome) ==> Tried(hs, v.def, s, log).world.state == s
  {
    forall w: World<S> ensures HarmlessFrom(hs, v, w) <==>
      (!Succeeded(Tried(hs, v.def, w.state, w.log).outcome) ==> Tried(hs, v.def, w.state, w.log).world.state == w.state)
    {
      OneAttempt(hs, w, v);
    }
    if Harmless(hs, v) {
      forall s, log | !Succeeded(Tried(hs, v.def, s, log).outcome) ensures Tried(hs, v.def, s, log).world.state == s {
        assert HarmlessFrom(hs, v, World(s, log));
      }
    }
  }

  lemma {:induction false} OneAttempt<S>(hs: Handlers<S>, w: World<S>, v: StepView)
    requires v.def.maxRetries == 0
    ensures var t := Tried(hs, v.def, w.state, w.log); var (w1, x) := RunStep(hs, w, Start(v));
      w1 == t.world && (x.view.status == Failed <==> !Succeeded(t.outcome)) && x.view.def == v.def
      && (x.view.status != Failed ==> x.view.status == Completed)
  {
    var (w1, x) := Turn(hs, w, Start(v));
    assert RunStep(hs, w1, x) == (w1, x);
  }

  /** Reversible steps meet the condition. */
  lemma {:induction false} ReversibleIsEnough<S(!new)>(hs: Handlers<S>, vs: seq<StepView>)
    requires AllPending(vs) && forall i :: 0 <= i < |vs| ==> Reversible(hs, vs[i].def)
    ensures StepsReverse(hs, vs)
  {
    forall k | 0 <= k <= |vs| ensures Restores(hs, vs[k..]) {
      forall w ensures RestoredFrom(hs, vs[k..], w) { CompensatedMeansRestored(hs, w, vs[k..], None); }
    }
    RestoresExactlyWhen(hs, vs);
  }

  /** The tails matter: alone, a workflow may restore the state from every world although a failed
      attempt changes it, because the undo of another step happens to take that change back. */
  lemma {:induction false} ErrorsCanCancel() returns (hs: Handlers<int>, vs: seq<StepView>)
    ensures AllPending(vs) && |vs| == 2 && vs[1].def.maxRetries == 0
    ensures Restores(hs, vs) && !Harmless(hs, vs[1]) && !Restores(hs, vs[1..])
  {
    var h: Handler<int> := (s, log, action, payload) =>
      if action == "look" then Reply(s, Returned(Dict("", false, "")))
      else if action == "charge" then Reply(s + 1, TimedOut)
      else Reply(s - 1, Returned(Dict("", false, "")));
    hs := map[Nexus := h];
    var look := StepView(StepDef("look", Nexus, "look", "", Some("refund"), "", 0, "30.0"), Pending, None, None, 0);
    var charge := StepView(StepDef("charge", Nexus, "charge", "", None, "", 0, "30.0"), Pending, None, None, 0);
    vs := [look, charge];
    assert vs[1..] == [charge];
    forall w ensures RestoredFrom(hs, vs, w) {
      OneAttempt(hs, w, look);
      var w1 := RunStep(hs, w, Start(look)).0;
      OneAttempt(hs, w1, charge);
      FirstFails(hs, w1, vs[1..]);
      FirstCompletes(hs, w, vs);
    }
    var start := World(0, []);
    OneAttempt(hs, start, charge);
    FirstFails(hs, start, vs[1..]);
    assert !HarmlessFrom(hs, charge, start) && !RestoredFrom(hs, vs[1..], start);
  }
}
