/** Compensation restores the bridges; sequential and parallel executions. */
module SagaRestore {
  import opened Wrappers
  import opened Saga
  import opened SagaTheorems

  // ---------------------------------------------------------------- assumptions on the bridges

  /** Whatever was dispatched before, an undo that returns takes `after` back to `before`. */
  ghost predicate Undoes<S(!new)>(hs: Handlers<S>, d: StepDef, after: S, before: S)
    requires d.Compensatable()
  {
    forall log :: UndoneState(hs, d, after, log).outcome.Returned? ==>
      UndoneState(hs, d, after, log).world.state == before
  }

  function UndoneState<S>(hs: Handlers<S>, d: StepDef, after: S, log: seq<Entry>): Dispatched<S>
    requires d.Compensatable()
  {
    Dispatch(hs, World(after, log), d.Undo())
  }

  function Tried<S>(hs: Handlers<S>, d: StepDef, s: S, log: seq<Entry>): Dispatched<S> {
    Dispatch(hs, World(s, log), d.Forward())
  }

  /** Failed attempts change nothing, and the compensation, if the step has one,
      is a left inverse of the step; a step without one changes nothing. */
  ghost predicate Reversible<S(!new)>(hs: Handlers<S>, d: StepDef) {
    forall s, log ::
      var t := Tried(hs, d, s, log);
      && (!Succeeded(t.outcome) || !d.Compensatable() ==> t.world.state == s)
      && (Succeeded(t.outcome) && d.Compensatable() ==> Undoes(hs, d, t.world.state, s))
  }

  // ---------------------------------------------------------------- undoing from the top

  /** `states[i]` is the bridge state below step `i`. */
  ghost predicate Ladder<S(!new)>(hs: Handlers<S>, vs: seq<StepView>, n: nat, states: seq<S>) {
    && n <= |vs| && |states| == n + 1
    && forall i :: 0 <= i < n ==>
         if vs[i].Eligible() then Undoes(hs, vs[i].def, states[i + 1], states[i]) else states[i + 1] == states[i]
  }

  lemma {:induction false} LadderBelow<S(!new)>(hs: Handlers<S>, vs: seq<StepView>, us: seq<StepView>, n: nat,
                                         states: seq<S>)
    requires 0 < n && Ladder(hs, vs, n, states) && |us| == |vs| && forall i :: 0 <= i < n - 1 ==> us[i] == vs[i]
    ensures Ladder(hs, us, n - 1, states[..n])
  {
  }

  lemma {:induction false} Descend<S(!new)>(hs: Handlers<S>, w: World<S>, vs: seq<StepView>, n: nat, states: seq<S>)
    requires Ladder(hs, vs, n, states) && w.state == states[n]
    requires forall m :: 0 <= m < |EligibleBelow(vs, n)| ==>
      EligibleBelow(vs, n)[m] < |vs| && vs[EligibleBelow(vs, n)[m]].def.Compensatable()
    ensures CompensateEach(hs, w, vs, EligibleBelow(vs, n)).all ==>
            CompensateEach(hs, w, vs, EligibleBelow(vs, n)).world.state == states[0]
    decreases n
  {
    if n > 0 {
      EligibleIsExact(vs, n - 1);
      if vs[n - 1].Eligible() {
        assert Undoes(hs, vs[n - 1].def, states[n], states[n - 1]);
        var d := UndoneState(hs, vs[n - 1].def, w.state, w.log);
        var us := vs[n - 1 := AfterUndo(vs[n - 1], d.outcome)];
        EligibleSame(vs, us, n - 1);
        if d.outcome.Returned? {
          LadderBelow(hs, vs, us, n, states);
          Descend(hs, d.world, us, n - 1, states[..n]);
        }
        assert EligibleBelow(vs, n)[1..] == EligibleBelow(us, n - 1);
      } else {
        LadderBelow(hs, vs, vs, n, states);
        Descend(hs, w, vs, n - 1, states[..n]);
      }
    }
  }

  lemma {:induction false} CompensateRestores<S(!new)>(hs: Handlers<S>, w: World<S>, vs: seq<StepView>,
                                                states: seq<S>, error: Option<string>)
    requires Ladder(hs, vs, |vs|, states) && w.state == states[|vs|]
    ensures var r := CompensateWorkflow(hs, w, vs, error);
            r.status == WfCompensated || r.status == WfCompensating ==> r.world.state == states[0]
  {
    EligibleIsExact(vs, |vs|);
    Descend(hs, w, vs, |vs|, states);
  }

  // ---------------------------------------------------------------- sequential

  lemma {:induction false} StepEffect<S(!new)>(hs: Handlers<S>, w: World<S>, x: Exec)
    requires Reversible(hs, x.view.def) && !x.done
    ensures var (w1, x1) := RunStep(hs, w, x);
      && x1.view.def == x.view.def && (x1.view.status == Completed || x1.view.status == Failed)
      && (!x1.view.Eligible() ==> w1.state == w.state)
      && (x1.view.Eligible() ==> Undoes(hs, x.view.def, w1.state, w.state))
    decreases x.view.def.maxRetries - x.attempt
  {
    if x.attempt <= x.view.def.maxRetries {
      var t := Tried(hs, x.view.def, w.state, w.log);
      var (w1, x1) := Turn(hs, w, x);
      if !x1.done { StepEffect(hs, w1, x1); }
    }
  }

  /** The state climbs one rung per step and is level above the last step taken. */
  ghost predicate Climbed<S(!new)>(hs: Handlers<S>, vs: seq<StepView>, us: seq<StepView>, n: nat, states: seq<S>,
                            low: S, top: S) {
    && |us| == |vs| && n <= |vs| && Ladder(hs, us, |us|, states)
    && states[0] == low && (forall i :: n <= i <= |us| ==> states[i] == top)
    && (forall i :: 0 <= i < |us| ==> us[i].def == vs[i].def)
    && (forall i :: n <= i < |us| ==> us[i] == vs[i])
  }

  lemma {:induction false} Climb<S(!new)>(hs: Handlers<S>, vs: seq<StepView>, us: seq<StepView>, n: nat,
                                   states: seq<S>, low: S, s: S, v: StepView, t: S)
    returns (next: seq<S>)
    requires AllPending(vs) && 0 < n <= |vs| && Climbed(hs, vs, us, n - 1, states, low, s) && v.def == vs[n - 1].def
    requires if v.Eligible() then Undoes(hs, v.def, t, s) else t == s
    ensures Climbed(hs, vs, us[n - 1 := v], n, next, low, t)
  {
    next := seq(|vs| + 1, i requires 0 <= i <= |vs| => if i < n then states[i] else t);
  }

  lemma {:induction false} PrefixLadder<S(!new)>(hs: Handlers<S>, w: World<S>, vs: seq<StepView>, n: nat)
    returns (states: seq<S>)
    requires n <= |vs| && AllPending(vs) && forall i :: 0 <= i < |vs| ==> Reversible(hs, vs[i].def)
    ensures var p := Prefix(hs, w, vs, n); Climbed(hs, vs, p.views, n, states, w.state, p.world.state)
  {
    if n == 0 {
      states := seq(|vs| + 1, _ => w.state);
    } else {
      states := PrefixLadder(hs, w, vs, n - 1);
      var q := Prefix(hs, w, vs, n - 1);
      if q.failed.None? {
        StepEffect(hs, q.world, Start(q.views[n - 1]));
        var (w1, x1) := RunStep(hs, q.world, Start(q.views[n - 1]));
        states := Climb(hs, vs, q.views, n, states, w.state, q.world.state, x1.view, w1.state);
      }
    }
  }

  /** Main result: COMPENSATED means the bridges are as they were; so does the
      COMPENSATING left behind when there was nothing to undo. */
  lemma {:induction false} CompensatedMeansRestored<S(!new)>(hs: Handlers<S>, w: World<S>, vs: seq<StepView>,
                                                      error: Option<string>)
    requires AllPending(vs) && forall i :: 0 <= i < |vs| ==> Reversible(hs, vs[i].def)
    ensures var r := Execute(hs, w, vs, error);
            r.status == WfCompensated || r.status == WfCompensating ==> r.world.state == w.state
  {
    var p := Prefix(hs, w, vs, |vs|);
    var states := PrefixLadder(hs, w, vs, |vs|);
    if p.failed.Some? {
      PrefixStops(hs, w, vs, |vs|);
      CompensateRestores(hs, p.world, p.views, states, p.views[p.failed.value].error);
    }
  }

  // ---------------------------------------------------------------- parallel

  /** The attempts of step `i` inside an interleaved log. */
  function Own(log: seq<Entry>, who: seq<nat>, i: nat): seq<Entry>
    requires |who| == |log|
  {
    if log == [] then []
    else Own(log[..|log| - 1], who[..|who| - 1], i) + if who[|who| - 1] == i then [log[|log| - 1]] else []
  }

  lemma {:induction false} OwnAppend(log: seq<Entry>, who: seq<nat>, e: Entry, j: nat, i: nat)
    requires |who| == |log|
    ensures Own(log + [e], who + [j], i) == Own(log, who, i) + if j == i then [e] else []
  {
    assert (log + [e])[..|log|] == log && (who + [j])[..|who|] == who;
  }

  ghost predicate Interleaved(vs: seq<StepView>, xs: seq<Exec>, log: seq<Entry>, who: seq<nat>) {
    && |xs| == |vs| && |who| == |log|
    && (forall m :: 0 <= m < |log| ==> who[m] < |vs| && log[m].call == vs[who[m]].def.Forward())
    && (forall i :: 0 <= i < |vs| ==> ExecSoFar(xs[i], vs[i], Own(log, who, i)))
  }

  lemma {:induction false} InterleaveOne(vs: seq<StepView>, xs: seq<Exec>, log: seq<Entry>, who: seq<nat>, j: nat,
                                         x: Exec, more: seq<Entry>)
    returns (who': seq<nat>)
    requires Interleaved(vs, xs, log, who) && j < |vs| && |more| <= 1
    requires forall e :: e in more ==> e.call == vs[j].def.Forward()
    requires ExecSoFar(x, vs[j], Own(log, who, j) + more)
    ensures Interleaved(vs, xs[j := x], log + more, who')
  {
    if more == [] {
      who' := who;
      assert log + more == log && Own(log, who, j) + more == Own(log, who, j);
    } else {
      who' := who + [j];
      assert more == [more[0]];
      forall i | 0 <= i < |vs| ensures ExecSoFar(xs[j := x][i], vs[i], Own(log + more, who', i)) {
        OwnAppend(log, who, more[0], j, i);
        assert i != j ==> Own(log, who, i) + [] == Own(log, who, i);
      }
    }
  }

  /** Every schedule interleaves the attempts each executor would make on its own. */
  lemma {:induction false} ScheduleTrace<S>(hs: Handlers<S>, w: World<S>, vs: seq<StepView>, schedule: seq<nat>)
    returns (forward: seq<Entry>, who: seq<nat>)
    requires AllPending(vs) && forall m :: 0 <= m < |schedule| ==> schedule[m] < |vs|
    ensures RunSchedule(hs, w, Starts(vs), schedule).0.log == w.log + forward
    ensures Interleaved(vs, RunSchedule(hs, w, Starts(vs), schedule).1, forward, who)
    decreases |schedule|
  {
    if schedule == [] {
      forward, who := [], [];
    } else {
      var j := schedule[|schedule| - 1];
      forward, who := ScheduleTrace(hs, w, vs, schedule[..|schedule| - 1]);
      var (w1, xs) := RunSchedule(hs, w, Starts(vs), schedule[..|schedule| - 1]);
      TurnSoFar(hs, w1, xs[j], vs[j], Own(forward, who, j));
      var (w2, x) := Turn(hs, w1, xs[j]);
      who := InterleaveOne(vs, xs, forward, who, j, x, Since(w1, w2));
      forward := forward + Since(w1, w2);
    }
  }

  /** Main result on the parallel trace: once every executor is done, each step is
      COMPLETED or FAILED after its own attempts, and only then the completed
      compensatable steps are undone, in reverse list order. */
  lemma {:induction false} ParallelTrace<S>(hs: Handlers<S>, w: World<S>, vs: seq<StepView>, schedule: seq<nat>,
                                            error: Option<string>)
    returns (done: seq<StepView>, r: WorkflowRun<S>, forward: seq<Entry>, who: seq<nat>, undos: seq<Entry>)
    requires AllPending(vs) && forall m :: 0 <= m < |schedule| ==> schedule[m] < |vs|
    requires forall i :: 0 <= i < |vs| ==> RunSchedule(hs, w, Starts(vs), schedule).1[i].done
    ensures var (w1, xs) := RunSchedule(hs, w, Starts(vs), schedule);
      done == Views(xs) && r == AfterGather(hs, w1, done, error)
    ensures r.world.log == w.log + forward + undos && r.error == error
    ensures |forward| == |who| && forall i :: 0 <= i < |vs| ==>
      Attempted(vs[i], done[i], Own(forward, who, i))
    ensures if exists i | 0 <= i < |vs| :: done[i].status == Failed
            then UndoPhase(done, r.views, EligibleBelow(done, |done|), AllReturned(undos), undos) &&
                 r.status == (if undos == [] then WfCompensating
                              else if AllReturned(undos) then WfCompensated else WfFailed)
            else undos == [] && r.views == done && r.status == WfCompleted
  {
    forward, who := ScheduleTrace(hs, w, vs, schedule);
    var (w1, xs) := RunSchedule(hs, w, Starts(vs), schedule);
    done := DoneIs(vs, xs, forward, who);
    r, undos := GatherTrace(hs, w1, done, error);
  }

  lemma {:induction false} DoneIs(vs: seq<StepView>, xs: seq<Exec>, forward: seq<Entry>, who: seq<nat>)
    returns (done: seq<StepView>)
    requires Interleaved(vs, xs, forward, who) && forall i :: 0 <= i < |vs| ==> xs[i].done
    ensures done == Views(xs) && |done| == |vs|
    ensures |forward| == |who| && forall i :: 0 <= i < |vs| ==>
      Attempted(vs[i], done[i], Own(forward, who, i))
  {
    done := Views(xs);
  }

  lemma {:induction false} GatherTrace<S>(hs: Handlers<S>, w: World<S>, done: seq<StepView>, error: Option<string>)
    returns (r: WorkflowRun<S>, undos: seq<Entry>)
    ensures r == AfterGather(hs, w, done, error) && r.error == error && r.world.log == w.log + undos
    ensures if exists i | 0 <= i < |done| :: done[i].status == Failed
            then UndoPhase(done, r.views, EligibleBelow(done, |done|), AllReturned(undos), undos) &&
                 r.status == (if undos == [] then WfCompensating
                              else if AllReturned(undos) then WfCompensated else WfFailed)
            else undos == [] && r.views == done && r.status == WfCompleted
  {
    if exists i | 0 <= i < |done| :: done[i].status == Failed {
      r, undos := GatheredUndone(hs, w, done, error);
    } else {
      r, undos := AfterGather(hs, w, done, error), [];
    }
  }

  lemma {:induction false} GatheredUndone<S>(hs: Handlers<S>, w: World<S>, done: seq<StepView>, error: Option<string>)
    returns (r: WorkflowRun<S>, undos: seq<Entry>)
    requires exists i | 0 <= i < |done| :: done[i].status == Failed
    ensures r == AfterGather(hs, w, done, error) && r.error == error && r.world.log == w.log + undos
    ensures UndoPhase(done, r.views, EligibleBelow(done, |done|), AllReturned(undos), undos)
    ensures r.status == if undos == [] then WfCompensating else if AllReturned(undos) then WfCompensated else WfFailed
  {
    var all;
    r, all, undos := CompensateUnfolded(hs, w, done, error);
    FailureShows(done, r.views, EligibleBelow(done, |done|), all, undos);
  }

  /** Each step has one effect on the bridges, effects of different steps commute,
      and compensations undo them. */
  ghost predicate Commuting<S(!new)>(hs: Handlers<S>, vs: seq<StepView>, eff: (nat, S) -> S) {
    && (forall i, s, log :: 0 <= i < |vs| ==>
          var t := Tried(hs, vs[i].def, s, log); t.world.state == if Succeeded(t.outcome) then eff(i, s) else s)
    && (forall i, s :: 0 <= i < |vs| ==>
          if vs[i].def.Compensatable() then Undoes(hs, vs[i].def, eff(i, s), s) else eff(i, s) == s)
    && (forall i, j, s :: 0 <= i < |vs| && 0 <= j < |vs| && i != j ==> eff(i, eff(j, s)) == eff(j, eff(i, s)))
  }

  /** The completed steps among the first `n` applied in list order. */
  ghost function Applied<S(!new)>(eff: (nat, S) -> S, vs: seq<StepView>, n: nat, s: S): S
    requires n <= |vs|
  {
    if n == 0 then s
    else if vs[n - 1].status == Completed then eff(n - 1, Applied(eff, vs, n - 1, s))
    else Applied(eff, vs, n - 1, s)
  }

  lemma {:induction false} AppliedSame<S(!new)>(eff: (nat, S) -> S, vs: seq<StepView>, us: seq<StepView>, n: nat, s: S)
    requires n <= |vs| && n <= |us|
    requires forall i :: 0 <= i < n ==> (vs[i].status == Completed <==> us[i].status == Completed)
    ensures Applied(eff, vs, n, s) == Applied(eff, us, n, s)
  {
    if n > 0 { AppliedSame(eff, vs, us, n - 1, s); }
  }

  /** A step that completes late may as well have taken its place in list order. */
  lemma {:induction false} LateCompletion<S(!new)>(hs: Handlers<S>, eff: (nat, S) -> S, vs: seq<StepView>,
                                            us: seq<StepView>, j: nat, n: nat, s: S)
    requires Commuting(hs, vs, eff) && j < n <= |vs| == |us|
    requires us[j].status == Completed && vs[j].status != Completed
    requires forall i :: 0 <= i < |vs| && i != j ==> us[i] == vs[i]
    ensures Applied(eff, us, n, s) == eff(j, Applied(eff, vs, n, s))
    decreases n
  {
    if j < n - 1 {
      LateCompletion(hs, eff, vs, us, j, n - 1, s);
    } else {
      AppliedSame(eff, vs, us, j, s);
    }
  }

  /** One turn keeps the state equal to the completed steps' effects in list order. */
  lemma {:induction false} TurnEffect<S(!new)>(hs: Handlers<S>, vs: seq<StepView>, eff: (nat, S) -> S, w: World<S>,
                                        xs: seq<Exec>, j: nat, s: S)
    requires AllPending(vs) && Commuting(hs, vs, eff) && |xs| == |vs| && j < |vs|
    requires w.state == Applied(eff, Views(xs), |vs|, s)
    requires forall i :: 0 <= i < |vs| ==>
      xs[i].view.def == vs[i].def && (!xs[i].done ==> xs[i].view.status != Completed)
    ensures Turn(hs, w, xs[j]).0.state == Applied(eff, Views(xs[j := Turn(hs, w, xs[j]).1]), |vs|, s)
    ensures var x := Turn(hs, w, xs[j]).1; x.view.def == vs[j].def && (!x.done ==> x.view.status != Completed)
  {
    var (w1, x) := Turn(hs, w, xs[j]);
    var before, after := Views(xs), Views(xs[j := x]);
    if !xs[j].done && x.view.status == Completed {
      assert w1 == Tried(hs, vs[j].def, w.state, w.log).world;
      assert Commuting(hs, before, eff);
      LateCompletion(hs, eff, before, after, j, |vs|, s);
    } else {
      assert w1 == w || w1 == Tried(hs, vs[j].def, w.state, w.log).world;
      AppliedSame(eff, before, after, |vs|, s);
    }
  }

  lemma {:induction false} ScheduleEffect<S(!new)>(hs: Handlers<S>, w: World<S>, vs: seq<StepView>,
                                            eff: (nat, S) -> S, schedule: seq<nat>)
    requires AllPending(vs) && Commuting(hs, vs, eff) && forall m :: 0 <= m < |schedule| ==> schedule[m] < |vs|
    ensures var (w1, xs) := RunSchedule(hs, w, Starts(vs), schedule);
      && w1.state == Applied(eff, Views(xs), |vs|, w.state)
      && (forall i :: 0 <= i < |vs| ==> xs[i].view.def == vs[i].def && (!xs[i].done ==> xs[i].view.status != Completed))
    decreases |schedule|
  {
    if schedule == [] {
      AppliedNone(eff, vs, |vs|, w.state);
    } else {
      ScheduleEffect(hs, w, vs, eff, schedule[..|schedule| - 1]);
      var (w1, xs) := RunSchedule(hs, w, Starts(vs), schedule[..|schedule| - 1]);
      TurnEffect(hs, vs, eff, w1, xs, schedule[|schedule| - 1], w.state);
    }
  }

  lemma {:induction false} AppliedNone<S(!new)>(eff: (nat, S) -> S, vs: seq<StepView>, n: nat, s: S)
    requires n <= |vs| && AllPending(vs)
    ensures Applied(eff, Views(Starts(vs)), n, s) == s
  {
    if n > 0 { AppliedNone(eff, vs, n - 1, s); }
  }

  /** Main result: with commuting steps, compensation restores the bridges after
      every interleaving too. */
  lemma {:induction false} ParallelCompensatedMeansRestored<S(!new)>(hs: Handlers<S>, w: World<S>,
                                                              vs: seq<StepView>, eff: (nat, S) -> S,
                                                  schedule: seq<nat>, error: Option<string>)
    requires AllPending(vs) && Commuting(hs, vs, eff) && forall m :: 0 <= m < |schedule| ==> schedule[m] < |vs|
    ensures var (w1, xs) := RunSchedule(hs, w, Starts(vs), schedule);
            var r := AfterGather(hs, w1, Views(xs), error);
            r.status == WfCompensated || r.status == WfCompensating ==> r.world.state == w.state
  {
    ScheduleEffect(hs, w, vs, eff, schedule);
    var (w1, xs) := RunSchedule(hs, w, Starts(vs), schedule);
    var us := Views(xs);
    var states := seq(|us| + 1, i requires 0 <= i <= |us| => Applied(eff, us, i, w.state));
    assert Ladder(hs, us, |us|, states);
    CompensateRestores(hs, w1, us, states, error);
  }
}
