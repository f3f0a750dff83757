/** What the logged outcomes of a sequential run make of the workflow and of every field of its
    steps: the outcomes alone decide, in the terms of the answers themselves. */
module SagaVerdicts {
  import opened Sequences
  import opened Wrappers
  import opened Saga
  import opened SagaTheorems

  function Flat(logs: seq<seq<Entry>>): seq<Entry>
    decreases |logs|
  {
    if logs == [] then [] else Flat(logs[..|logs| - 1]) + logs[|logs| - 1]
  }

  /** The steps tried, each with its own attempts, all but perhaps the last of them COMPLETED;
      the steps after them are as they were. */
  ghost predicate Tried(vs: seq<StepView>, mid: seq<StepView>, own: seq<seq<Entry>>) {
    && |own| <= |vs| == |mid|
    && (forall i :: 0 <= i < |own| ==> Attempted(vs[i], mid[i], own[i]))
    && (forall i :: 0 <= i < |own| - 1 ==> mid[i].status == Completed)
    && (forall i :: |own| <= i < |vs| ==> mid[i] == vs[i])
  }

  /** The last step tried is the one that failed; without one, every step was tried. */
  ghost predicate Stopped(mid: seq<StepView>, own: seq<seq<Entry>>, failed: Option<nat>, n: nat) {
    && |own| <= |mid|
    && match failed
       case None => |own| == n && (own != [] ==> mid[|own| - 1].status == Completed)
       case Some(f) => |own| == f + 1 <= n && mid[f].status == Failed
  }

  lemma {:induction false} PrefixVerdict<S>(hs: Handlers<S>, w: World<S>, vs: seq<StepView>, n: nat)
    returns (own: seq<seq<Entry>>)
    requires n <= |vs|
    ensures Verdicts(w, vs, Prefix(hs, w, vs, n), own, n)
    decreases n
  {
    if n == 0 {
      own := [];
    } else {
      own := PrefixVerdict(hs, w, vs, n - 1);
      if Prefix(hs, w, vs, n - 1).failed.None? {
        own := StepOn(hs, w, vs, n, Prefix(hs, w, vs, n - 1), own);
      }
    }
  }

  ghost predicate Verdicts<S>(w: World<S>, vs: seq<StepView>, p: Progress<S>, own: seq<seq<Entry>>, n: nat) {
    p.world.log == w.log + Flat(own) && Tried(vs, p.views, own) && Stopped(p.views, own, p.failed, n)
  }

  lemma {:induction false} StepOn<S>(hs: Handlers<S>, w: World<S>, vs: seq<StepView>, n: nat, q: Progress<S>,
                                     before: seq<seq<Entry>>)
    returns (own: seq<seq<Entry>>)
    requires 0 < n <= |vs| && Prefix(hs, w, vs, n - 1) == q && q.failed.None?
    requires Verdicts(w, vs, q, before, n - 1)
    ensures Verdicts(w, vs, Prefix(hs, w, vs, n), own, n)
  {
    var (w1, x) := RunStep(hs, q.world, Start(q.views[n - 1]));
    StepTrace(hs, q.world, q.views[n - 1]);
    var more := Since(q.world, w1);
    PrefixNext(hs, w, vs, n, q, w1, x.view);
    OneMoreStep(vs, q.views, before, x.view, more);
    Associates(w.log, Flat(before), more);
    own := before + [more];
  }

  lemma {:induction false} OneMoreStep(vs: seq<StepView>, mid: seq<StepView>, own: seq<seq<Entry>>, after: StepView,
                                       more: seq<Entry>)
    requires Tried(vs, mid, own) && Stopped(mid, own, None, |own|) && |own| < |vs|
    requires Attempted(vs[|own|], after, more)
    ensures Tried(vs, mid[|own| := after], own + [more]) && Flat(own + [more]) == Flat(own) + more
    ensures after.status == Completed || after.status == Failed
  {
    AttemptedCalls(vs[|own|], after, more);
    assert (own + [more])[..|own|] == own;
  }

  /** Main result on the trace, for every dispatcher behaviour: steps 0..k in order, each with the
      fields its own outcomes call for; then, if the last of them failed, one undo per step that
      completed and has a compensation, last step first; and the workflow's status and error. */
  lemma {:induction false} ExecuteTrace<S>(hs: Handlers<S>, w: World<S>, vs: seq<StepView>, error: Option<string>)
    returns (r: WorkflowRun<S>, own: seq<seq<Entry>>, mid: seq<StepView>, undone: seq<nat>, undos: seq<Entry>)
    ensures r == Execute(hs, w, vs, error) && r.world.log == w.log + Flat(own) + undos && Tried(vs, mid, own)
    ensures if own == [] || mid[|own| - 1].status == Completed
            then |own| == |vs| && undos == [] && r.views == mid && r.status == WfCompleted && r.error == error
            else
              && mid[|own| - 1].status == Failed && r.error == mid[|own| - 1].error
              && Undid(mid, r.views, undone, undos)
              && r.status == if undos == [] then WfCompensating
                             else if AllReturned(undos) then WfCompensated else WfFailed
  {
    var p := Prefix(hs, w, vs, |vs|);
    own := PrefixVerdict(hs, w, vs, |vs|);
    mid := p.views;
    ExecuteIs(hs, w, vs, error, p);
    if p.failed.None? {
      r, undone, undos := Conclude(hs, p, error), [], [];
    } else {
      r, undone, undos := UndoVerdict(hs, p.world, mid, mid[p.failed.value].error);
    }
  }

  /** The steps that completed and have a compensation, last first, each undone by its entry;
      every other step as it was. */
  ghost predicate Undid(mid: seq<StepView>, us: seq<StepView>, undone: seq<nat>, undos: seq<Entry>) {
    && |us| == |mid| && |undos| == |undone|
    && (forall i: nat :: i in undone <==>
          i < |mid| && mid[i].status == Completed &&
          mid[i].def.compensationAction.Some? && mid[i].def.compensationAction.value != "")
    && (forall a, b :: 0 <= a < b < |undone| ==> undone[b] < undone[a])
    && (forall m :: 0 <= m < |undone| ==> undone[m] < |mid| && UndoneBy(mid[undone[m]], us[undone[m]], undos[m]))
    && (forall i: nat :: i < |mid| && i !in undone ==> us[i] == mid[i])
  }

  lemma {:induction false} UndoVerdict<S>(hs: Handlers<S>, w: World<S>, mid: seq<StepView>, error: Option<string>)
    returns (r: WorkflowRun<S>, undone: seq<nat>, undos: seq<Entry>)
    ensures r == CompensateWorkflow(hs, w, mid, error) && r.error == error && r.world.log == w.log + undos
    ensures Undid(mid, r.views, undone, undos)
    ensures r.status == if undos == [] then WfCompensating else if AllReturned(undos) then WfCompensated else WfFailed
  {
    undone := EligibleBelow(mid, |mid|);
    EligibleIsExact(mid, |mid|);
    var all;
    r, all, undos := CompensateUnfolded(hs, w, mid, error);
  }

  /** The statuses spelled out for one step: FAILED exactly when every attempt it was allowed got no
      answer in time, an exception, no dictionary, or an error that is not simulated. */
  lemma {:induction false} StepVerdict<S>(hs: Handlers<S>, w: World<S>, v: StepView) returns (own: seq<Entry>)
    requires 0 <= v.def.maxRetries
    ensures var (w1, x) := RunStep(hs, w, Start(v)); var u := x.view;
      && w1.log == w.log + own && 1 <= |own| <= v.def.maxRetries + 1
      && (forall m :: 0 <= m < |own| ==> own[m].call == Call(v.def.bridge, v.def.action, v.def.payload))
      && (forall m :: 0 <= m < |own| - 1 ==>
            var o := own[m].outcome;
            o.Returned? ==> o.response.NotADict? || (o.response.error != "" && !o.response.simulated))
      && var last := own[|own| - 1].outcome;
         if last.Returned? && last.response.Dict? && (last.response.error == "" || last.response.simulated)
         then u == v.(status := Completed, result := Some(last.response), retries := |own| - 1)
         else
           && |own| == v.def.maxRetries + 1 && u.error.Some?
           && u == v.(status := Failed, error := u.error, retries := v.def.maxRetries)
           && u.error.value == match last {
                case TimedOut => "Step " + v.def.name + " timed out after " + v.def.timeoutSeconds + "s"
                case Raised(message) => message
                case Returned(NotADict(kind)) => "'" + kind + "' object has no attribute 'get'"
                case Returned(Dict(error, _, _)) => error
              }
  {
    StepTrace(hs, w, v);
    own := Since(w, RunStep(hs, w, Start(v)).0);
  }

  /** Without a handler for its bridge a step completes at its first attempt, with a simulated
      answer that carries its payload, and the bridges stay as they are. */
  lemma {:induction false} SimulatedSucceeds<S>(hs: Handlers<S>, w: World<S>, v: StepView)
    requires v.def.bridge !in hs && 0 <= v.def.maxRetries
    ensures var (w1, x) := RunStep(hs, w, Start(v)); var answer := Dict("", true, v.def.payload);
      && x.view == v.(status := Completed, result := Some(answer), retries := 0)
      && w1 == World(w.state, w.log + [Entry(Call(v.def.bridge, v.def.action, v.def.payload), Returned(answer))])
  {
    var (w1, x1) := Turn(hs, w, Start(v));
    assert x1.done;
  }

  /** An answer that reports an error fails the step, and with it the workflow. */
  lemma {:induction false} DeniedFails() returns (hs: Handlers<int>, v: StepView)
    ensures v.status == Pending && v.def.maxRetries == 0
    ensures forall w: World<int>, call: Call :: call.bridge == Nexus ==>
      Dispatch(hs, w, call).outcome == Returned(Dict("denied", false, ""))
    ensures var r := Execute(hs, World(0, []), [v], None);
      r.views[0].status == Failed && r.status == WfCompensating && r.error == Some("denied")
  {
    var h: Handler<int> := (s, log, action, payload) => Reply(s, Returned(Dict("denied", false, "")));
    hs := map[Nexus := h];
    v := StepView(StepDef("a", Nexus, "act", "", None, "", 0, "30.0"), Pending, None, None, 0);
    var w, vs := World(0, []), [v];
    var d := Dispatch(hs, w, v.def.Forward());
    var x := Turn(hs, w, Start(v)).1;
    assert x.done && x.view.status == Failed && x.view.error == Some("denied");
    assert Prefix(hs, w, vs, 0) == Progress(w, vs, None);
    PrefixNext(hs, w, vs, 1, Progress(w, vs, None), d.world, x.view);
    assert vs[0 := x.view] == [x.view] && EligibleBelow([x.view], 0) == [];
    assert Prefix(hs, w, vs, |vs|) == Progress(d.world, [x.view], Some(0));
  }
}
