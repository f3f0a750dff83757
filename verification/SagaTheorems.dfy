/** What a saga run guarantees: the exact call trace, statuses determined by the
    trace, and restoration of the bridges by compensation, sequential and parallel. */
module SagaTheorems {
  import opened Wrappers
  import opened Saga

  ghost predicate AllPending(vs: seq<StepView>) {
    forall i :: 0 <= i < |vs| ==> vs[i].status == Pending
  }

  function Calls(log: seq<Entry>): seq<Call> {
    seq(|log|, i requires 0 <= i < |log| => log[i].call)
  }

  /** The entries logged between `w` and a later world. */
  function Since<S>(w: World<S>, later: World<S>): seq<Entry>
    requires w.log <= later.log
  {
    later.log[|w.log|..]
  }

  function Repeat(c: Call, n: nat): seq<Call> {
    seq(n, _ => c)
  }

  /** Attempts a finished step has made, read off its `retries` field. */
  function Tries(v: StepView): nat {
    if v.retries < 0 then 0 else v.retries + 1
  }

  function ForwardCalls(vs: seq<StepView>, n: nat): seq<Call>
    requires n <= |vs|
  {
    if n == 0 then [] else ForwardCalls(vs, n - 1) + Repeat(vs[n - 1].def.Forward(), Tries(vs[n - 1]))
  }

  /** The undo calls of the compensatable steps below `n`, last step first. */
  function UndoCalls(vs: seq<StepView>, n: nat): seq<Call>
    requires n <= |vs|
  {
    if n == 0 then []
    else (if vs[n - 1].def.Compensatable() then [vs[n - 1].def.Undo()] else []) + UndoCalls(vs, n - 1)
  }

  /** The attempt failed: no answer in time, an exception, an answer that is no dictionary, or one
      that reports an error and is not marked simulated. */
  ghost predicate Refused(o: Outcome) {
    match o
    case TimedOut => true
    case Raised(_) => true
    case Returned(NotADict(_)) => true
    case Returned(Dict(error, simulated, _)) => error != "" && !simulated
  }

  /** The text a failed attempt leaves behind. */
  ghost predicate Explains(def: StepDef, o: Outcome, text: string) {
    match o
    case TimedOut => text == "Step " + def.name + " timed out after " + def.timeoutSeconds + "s"
    case Raised(message) => text == message
    case Returned(Dict(error, _, _)) => text == error
    case Returned(NotADict(kind)) => text == "'" + kind + "' object has no attribute 'get'"
  }

  ghost predicate AreAttempts(def: StepDef, log: seq<Entry>, failures: nat) {
    && failures <= |log|
    && (forall m :: 0 <= m < |log| ==> log[m].call == Call(def.bridge, def.action, def.payload))
    && (forall m :: 0 <= m < failures ==> Refused(log[m].outcome))
  }

  /** The error text after these attempts, all failed. */
  ghost predicate LastComplaint(def: StepDef, log: seq<Entry>, error: Option<string>) {
    if log == [] then error == None else error.Some? && Explains(def, log[|log| - 1].outcome, error.value)
  }

  /** What the logged outcomes make of a step: FAILED when all `maxRetries + 1` of them fail, and
      otherwise COMPLETED by the first that does not, with that answer as its result. */
  ghost predicate Attempted(before: StepView, after: StepView, log: seq<Entry>) {
    var def, allowed := before.def, if before.def.maxRetries < 0 then 0 else before.def.maxRetries + 1;
    && |log| <= allowed
    && if forall m :: 0 <= m < |log| ==> Refused(log[m].outcome) then
         && |log| == allowed && AreAttempts(def, log, |log|) && LastComplaint(def, log, after.error)
         && after == before.(status := Failed, error := after.error, retries := def.maxRetries)
       else
         && AreAttempts(def, log, |log| - 1) && log[|log| - 1].outcome.Returned?
         && after == before.(status := Completed, result := Some(log[|log| - 1].outcome.response),
                             retries := |log| - 1)
  }

  /** One executor somewhere in its run, with the attempts it has made. */
  ghost predicate ExecSoFar(x: Exec, v: StepView, own: seq<Entry>) {
    if x.done then Attempted(v, x.view, own)
    else
      && x.view == v.(status := x.view.status)
      && |own| == x.attempt && (x.attempt == 0 || x.attempt <= v.def.maxRetries)
      && AreAttempts(v.def, own, |own|) && LastComplaint(v.def, own, x.lastError)
  }

  lemma {:induction false} SucceededIs(o: Outcome, def: StepDef)
    ensures Succeeded(o) <==> !Refused(o)
    ensures Refused(o) ==> Explains(def, o, FailureText(def, o))
  {
  }

  lemma {:induction false} OneMoreAttempt(def: StepDef, own: seq<Entry>, o: Outcome)
    requires AreAttempts(def, own, |own|)
    ensures var more := own + [Entry(Call(def.bridge, def.action, def.payload), o)];
      && AreAttempts(def, more, |own|) && (Refused(o) ==> AreAttempts(def, more, |more|))
      && more[|own|].outcome == o
  {
  }

  lemma {:induction false} TurnSoFar<S>(hs: Handlers<S>, w: World<S>, x: Exec, v: StepView, own: seq<Entry>)
    requires ExecSoFar(x, v, own)
    ensures var (w1, x1) := Turn(hs, w, x);
      w.log <= w1.log && |Since(w, w1)| <= 1 && ExecSoFar(x1, v, own + Since(w, w1)) &&
      forall e :: e in Since(w, w1) ==> e.call == v.def.Forward()
  {
    var (w1, x1) := Turn(hs, w, x);
    if !x.done && x.attempt <= v.def.maxRetries {
      var d := Dispatch(hs, w, v.def.Forward());
      assert Since(w, w1) == [Entry(v.def.Forward(), d.outcome)];
      SucceededIs(d.outcome, v.def);
      OneMoreAttempt(v.def, own, d.outcome);
    } else {
      assert Since(w, w1) == [] && own + [] == own;
    }
  }

  lemma {:induction false} RunStepTrace<S>(hs: Handlers<S>, w: World<S>, x: Exec, v: StepView, tried: seq<Entry>)
    requires ExecSoFar(x, v, tried)
    ensures w.log <= RunStep(hs, w, x).0.log
    ensures var (w1, x1) := RunStep(hs, w, x); x1.done && Attempted(v, x1.view, tried + Since(w, w1))
    decreases !x.done, x.view.def.maxRetries - x.attempt
  {
    if x.done {
      assert tried + Since(w, w) == tried;
    } else {
      var (w1, x1) := Turn(hs, w, x);
      TurnSoFar(hs, w, x, v, tried);
      if x.view.def.maxRetries >= x.attempt {
        RunStepTrace(hs, w1, x1, v, tried + Since(w, w1));
        var w2 := RunStep(hs, w1, x1).0;
        SinceTwice(w, w1, w2);
        assert tried + Since(w, w1) + Since(w1, w2) == tried + (Since(w, w1) + Since(w1, w2));
      }
    }
  }

  /** The step's calls, as many as its `retries` field says. */
  lemma {:induction false} AttemptedCalls(v: StepView, after: StepView, log: seq<Entry>)
    requires Attempted(v, after, log)
    ensures Calls(log) == Repeat(v.def.Forward(), Tries(after)) && after.def == v.def
    ensures after.status == Completed ==> 0 <= after.retries <= after.def.maxRetries
    ensures after.status == Failed ==> after.retries == after.def.maxRetries
    ensures after.status == Completed || after.status == Failed
  {
    forall m | 0 <= m < |log| ensures log[m].call == v.def.Forward() {
    }
  }

  /** A step run on its own: its fields are what the outcomes of its logged attempts make of it. */
  lemma {:induction false} StepTrace<S>(hs: Handlers<S>, w: World<S>, v: StepView)
    ensures w.log <= RunStep(hs, w, Start(v)).0.log
    ensures var (w1, x1) := RunStep(hs, w, Start(v)); Attempted(v, x1.view, Since(w, w1))
  {
    RunStepTrace(hs, w, Start(v), v, []);
    var w1 := RunStep(hs, w, Start(v)).0;
    assert [] + Since(w, w1) == Since(w, w1);
  }

  lemma {:induction false} CallsAppend(a: seq<Entry>, b: seq<Entry>)
    ensures Calls(a + b) == Calls(a) + Calls(b)
  {
  }

  lemma {:induction false} ForwardCallsSame(vs: seq<StepView>, us: seq<StepView>, n: nat)
    requires n <= |vs| && n <= |us|
    requires forall i :: 0 <= i < n ==> vs[i].def == us[i].def && vs[i].retries == us[i].retries
    ensures ForwardCalls(vs, n) == ForwardCalls(us, n)
  {
    if n > 0 { ForwardCallsSame(vs, us, n - 1); }
  }

  /** The forward phase: steps 0..k in order, each tried until its last attempt,
      and every later step untouched. */
  ghost predicate ForwardPhase(vs: seq<StepView>, us: seq<StepView>, failed: Option<nat>, n: nat, log: seq<Entry>) {
    && |us| == |vs| && n <= |vs|
    && (failed.Some? ==> failed.value < n)
    && var started := if failed.Some? then failed.value + 1 else n;
    && Calls(log) == ForwardCalls(us, started)
    && (forall i :: 0 <= i < |vs| ==> us[i].def == vs[i].def)
    && (forall i :: 0 <= i < started && failed != Some(i) ==>
      us[i].status == Completed && 0 <= us[i].retries <= us[i].def.maxRetries)
    && (forall i :: started <= i < |vs| ==> us[i] == vs[i])
    && (failed.Some? ==>
      us[failed.value].status == Failed && us[failed.value].retries == us[failed.value].def.maxRetries)
  }

  lemma {:induction false} PrefixTrace<S>(hs: Handlers<S>, w: World<S>, vs: seq<StepView>, n: nat)
    requires n <= |vs|
    ensures w.log <= Prefix(hs, w, vs, n).world.log
    ensures var p := Prefix(hs, w, vs, n); ForwardPhase(vs, p.views, p.failed, n, Since(w, p.world))
  {
    if n == 0 {
      assert Since(w, w) == [];
    } else {
      PrefixTrace(hs, w, vs, n - 1);
      var q := Prefix(hs, w, vs, n - 1);
      if q.failed.Some? {
        PrefixIdle(vs, q.views, q.failed, n, Since(w, q.world));
      } else {
        var (w1, x) := RunStep(hs, q.world, Start(q.views[n - 1]));
        StepTrace(hs, q.world, q.views[n - 1]);
        SinceTwice(w, q.world, w1);
        PrefixStep(vs, q.views, n, Since(w, q.world), x.view, Since(q.world, w1));
      }
    }
  }

  lemma {:induction false} SinceTwice<S>(w: World<S>, mid: World<S>, later: World<S>)
    requires w.log <= mid.log <= later.log
    ensures Since(w, later) == Since(w, mid) + Since(mid, later)
  {
  }

  lemma {:induction false} PrefixIdle(vs: seq<StepView>, us: seq<StepView>, failed: Option<nat>, n: nat,
                                      log: seq<Entry>)
    requires 0 < n <= |vs| && failed.Some? && ForwardPhase(vs, us, failed, n - 1, log)
    ensures ForwardPhase(vs, us, failed, n, log)
  {
  }

  lemma {:induction false} PrefixStep(vs: seq<StepView>, us: seq<StepView>, n: nat, log: seq<Entry>, v: StepView,
                                      steps: seq<Entry>)
    requires 0 < n <= |vs| && ForwardPhase(vs, us, None, n - 1, log)
    requires Attempted(us[n - 1], v, steps)
    ensures ForwardPhase(vs, us[n - 1 := v], if v.status == Failed then Some(n - 1) else None, n, log + steps)
  {
    AttemptedCalls(us[n - 1], v, steps);
    CallsAppend(log, steps);
    ForwardCallsSame(us, us[n - 1 := v], n - 1);
  }

  // ---------------------------------------------------------------- compensation trace

  /** The entry calls the step's compensation. The step ends COMPENSATED with its answer when that
      returned, whatever it says, and is left COMPENSATING otherwise. */
  ghost predicate UndoneBy(before: StepView, after: StepView, e: Entry) {
    var def := before.def;
    && def.compensationAction.Some? && def.compensationAction.value != ""
    && e.call == Call(def.bridge, def.compensationAction.value, def.compensationPayload)
    && after == match e.outcome {
         case Returned(answer) => before.(status := Compensated, result := Some(answer))
         case Raised(_) => before.(status := Compensating)
         case TimedOut => before.(status := Compensating)
       }
  }

  /** One undo per listed step, in list order of `todo`; a step ends COMPENSATED
      exactly when its undo returned, and the others are left alone. */
  ghost predicate UndoPhase(vs: seq<StepView>, us: seq<StepView>, todo: seq<nat>, all: bool, log: seq<Entry>) {
    && |us| == |vs| && |log| == |todo|
    && (forall m :: 0 <= m < |todo| ==> todo[m] < |vs| && UndoneBy(vs[todo[m]], us[todo[m]], log[m]))
    && (forall i: nat :: i < |vs| && i !in todo ==> us[i] == vs[i])
    && (all <==> forall m :: 0 <= m < |log| ==> log[m].outcome.Returned?)
  }

  lemma {:induction false} UndosAppend<S>(hs: Handlers<S>, w: World<S>, vs: seq<StepView>, todo: seq<nat>)
    requires forall m :: 0 <= m < |todo| ==> todo[m] < |vs| && vs[todo[m]].def.Compensatable()
    ensures w.log <= CompensateEach(hs, w, vs, todo).world.log
    decreases |todo|
  {
    if todo != [] {
      var d := Dispatch(hs, w, vs[todo[0]].def.Undo());
      UndosAppend(hs, d.world, vs[todo[0] := AfterUndo(vs[todo[0]], d.outcome)], todo[1..]);
    }
  }

  lemma {:induction false} CompensateTrace<S>(hs: Handlers<S>, w: World<S>, vs: seq<StepView>, todo: seq<nat>)
    requires forall m :: 0 <= m < |todo| ==> todo[m] < |vs| && vs[todo[m]].def.Compensatable()
    requires forall a, b :: 0 <= a < b < |todo| ==> todo[a] != todo[b]
    ensures w.log <= CompensateEach(hs, w, vs, todo).world.log
    ensures var c := CompensateEach(hs, w, vs, todo); UndoPhase(vs, c.views, todo, c.all, Since(w, c.world))
    decreases |todo|
  {
    UndosAppend(hs, w, vs, todo);
    if todo != [] {
      var call := vs[todo[0]].def.Undo();
      var d := Dispatch(hs, w, call);
      var us := vs[todo[0] := AfterUndo(vs[todo[0]], d.outcome)];
      var c := CompensateEach(hs, d.world, us, todo[1..]);
      CompensateTrace(hs, d.world, us, todo[1..]);
      SinceNext(w, call, d, c.world);
      UndoStep(vs, us, c.views, todo, c.all, Since(d.world, c.world), Entry(call, d.outcome));
    }
  }

  lemma {:induction false} SinceNext<S>(w: World<S>, call: Call, d: Dispatched<S>, later: World<S>)
    requires d.world.log == w.log + [Entry(call, d.outcome)] && d.world.log <= later.log
    ensures Since(w, later) == [Entry(call, d.outcome)] + Since(d.world, later)
  {
  }

  lemma {:induction false} UndoStep(vs: seq<StepView>, mid: seq<StepView>, us: seq<StepView>, todo: seq<nat>,
                                    all: bool, log: seq<Entry>, e: Entry)
    requires todo != [] && todo[0] < |vs| && vs[todo[0]].def.Compensatable() && e.call == vs[todo[0]].def.Undo()
    requires forall a, b :: 0 <= a < b < |todo| ==> todo[a] != todo[b]
    requires mid == vs[todo[0] := AfterUndo(vs[todo[0]], e.outcome)]
    requires UndoPhase(mid, us, todo[1..], all, log)
    ensures UndoPhase(vs, us, todo, all && e.outcome.Returned?, [e] + log)
  {
    var entries := [e] + log;
    assert todo[0] !in todo[1..] by {
      assert forall a :: 0 <= a < |todo[1..]| ==> todo[1..][a] == todo[a + 1];
    }
    forall m | 0 <= m < |todo|
      ensures todo[m] < |vs| && vs[todo[m]].def.Compensatable()
      ensures entries[m].call == vs[todo[m]].def.Undo()
      ensures us[todo[m]] == AfterUndo(vs[todo[m]], entries[m].outcome)
    {
      if m > 0 { assert todo[m] == todo[1..][m - 1]; }
    }
    forall i: nat | i < |vs| && i !in todo ensures us[i] == vs[i] {
      assert i !in todo[1..];
      assert i != todo[0];
    }
    if forall m :: 0 <= m < |entries| ==> entries[m].outcome.Returned? {
      assert entries[0] == e;
      forall m | 0 <= m < |log| ensures log[m].outcome.Returned? { assert entries[m + 1] == log[m]; }
    }
  }

  lemma {:induction false} EligibleSame(vs: seq<StepView>, us: seq<StepView>, n: nat)
    requires n <= |vs| && n <= |us| && forall i :: 0 <= i < n ==> vs[i] == us[i]
    ensures EligibleBelow(vs, n) == EligibleBelow(us, n)
  {
    if n > 0 { EligibleSame(vs, us, n - 1); }
  }

  lemma {:induction false} EligibleStops(us: seq<StepView>, f: nat, n: nat)
    requires f <= n <= |us| && forall i :: f <= i < n ==> us[i].status != Completed
    ensures EligibleBelow(us, n) == EligibleBelow(us, f)
    decreases n
  {
    if f < n { EligibleStops(us, f, n - 1); }
  }

  lemma {:induction false} UndoCallsOfEligible(vs: seq<StepView>, us: seq<StepView>, n: nat, m: nat)
    requires n <= |us| && n <= |vs| && forall i :: 0 <= i < n ==> us[i].def == vs[i].def && us[i].status == Completed
    ensures |UndoCalls(vs, n)| == |EligibleBelow(us, n)|
    ensures m < |EligibleBelow(us, n)| ==> var i := EligibleBelow(us, n)[m];
      i < n && us[i].def.Compensatable() && UndoCalls(vs, n)[m] == us[i].def.Undo()
    decreases n
  {
    if n > 0 {
      UndoCallsOfEligible(vs, us, n - 1, if us[n - 1].Eligible() && m > 0 then m - 1 else m);
    }
  }

  ghost predicate AllReturned(log: seq<Entry>) {
    forall m :: 0 <= m < |log| ==> log[m].outcome.Returned?
  }

  /** How a step that completed before the failure ends. */
  ghost predicate StepEnds(before: StepView, after: StepView) {
    && after.def == before.def && 0 <= after.retries <= after.def.maxRetries
    && (before.def.Compensatable() ==> after.status == Compensated || after.status == Compensating)
    && (!before.def.Compensatable() ==> after.status == Completed)
  }

  /** The final fields of the steps of a run whose step `f` failed. */
  ghost predicate FailedSteps(vs: seq<StepView>, us: seq<StepView>, f: nat) {
    && f < |vs| == |us|
    && (forall i :: 0 <= i < f ==> StepEnds(vs[i], us[i]))
    && us[f].def == vs[f].def && us[f].status == Failed && us[f].retries == us[f].def.maxRetries
    && (forall i :: f < i < |vs| ==> us[i] == vs[i])
  }

  /** Everything the log and the final fields say about such a run. */
  ghost predicate FailedRun(vs: seq<StepView>, us: seq<StepView>, status: WorkflowStatus, f: nat,
                            forward: seq<Entry>, undos: seq<Entry>)
  {
    && FailedSteps(vs, us, f)
    && Calls(forward) == ForwardCalls(us, f + 1)
    && Calls(undos) == UndoCalls(vs, f)
    && status == (if undos == [] then WfCompensating else if AllReturned(undos) then WfCompensated else WfFailed)
    && (AllReturned(undos) <==> forall i :: 0 <= i < f ==> us[i].status != Compensating)
  }

  /** The calls of a run, for every dispatcher behaviour: steps 0..k in
      order, then one undo per completed compensatable step in reverse. */
  lemma {:induction false} CallTrace<S>(hs: Handlers<S>, w: World<S>, vs: seq<StepView>, error: Option<string>)
    returns (r: WorkflowRun<S>, failed: Option<nat>, forward: seq<Entry>, undos: seq<Entry>)
    requires AllPending(vs)
    ensures r == Execute(hs, w, vs, error) && r.world.log == w.log + forward + undos
    ensures failed.None? ==> r.status == WfCompleted && undos == [] && ForwardPhase(vs, r.views, None, |vs|, forward)
    ensures failed.Some? ==> FailedRun(vs, r.views, r.status, failed.value, forward, undos)
  {
    PrefixTrace(hs, w, vs, |vs|);
    r, failed, forward, undos := ConcludeTrace(hs, w, vs, Prefix(hs, w, vs, |vs|), error);
  }

  lemma {:induction false} ConcludeTrace<S>(hs: Handlers<S>, w: World<S>, vs: seq<StepView>, p: Progress<S>,
                                            error: Option<string>)
    returns (r: WorkflowRun<S>, failed: Option<nat>, forward: seq<Entry>, undos: seq<Entry>)
    requires AllPending(vs) && w.log <= p.world.log && ForwardPhase(vs, p.views, p.failed, |vs|, Since(w, p.world))
    ensures r == Conclude(hs, p, error) && r.world.log == w.log + forward + undos
    ensures failed.None? ==> r.status == WfCompleted && undos == [] && ForwardPhase(vs, r.views, None, |vs|, forward)
    ensures failed.Some? ==> FailedRun(vs, r.views, r.status, failed.value, forward, undos)
  {
    failed, forward := p.failed, Since(w, p.world);
    if failed.None? {
      r, undos := Conclude(hs, p, error), [];
    } else {
      r, undos := ConcludeFailed(hs, w, vs, p, error, forward);
    }
  }

  lemma {:induction false} ConcludeFailed<S>(hs: Handlers<S>, w: World<S>, vs: seq<StepView>, p: Progress<S>,
                                             error: Option<string>, forward: seq<Entry>)
    returns (r: WorkflowRun<S>, undos: seq<Entry>)
    requires AllPending(vs) && p.world.log == w.log + forward && p.failed.Some?
    requires ForwardPhase(vs, p.views, p.failed, |vs|, forward)
    ensures r == Conclude(hs, p, error) && r.world.log == w.log + forward + undos
    ensures FailedRun(vs, r.views, r.status, p.failed.value, forward, undos)
  {
    r, undos := CompensationTrace(hs, p.world, vs, p.views, p.failed.value, forward, p.views[p.failed.value].error);
  }

  lemma {:induction false} CompensationTrace<S>(hs: Handlers<S>, w: World<S>, vs: seq<StepView>, mid: seq<StepView>,
                                                f: nat,
                             forward: seq<Entry>, error: Option<string>) returns (r: WorkflowRun<S>, undos: seq<Entry>)
    requires AllPending(vs) && ForwardPhase(vs, mid, Some(f), |vs|, forward)
    ensures r == CompensateWorkflow(hs, w, mid, error) && r.world.log == w.log + undos
    ensures FailedRun(vs, r.views, r.status, f, forward, undos)
  {
    EligibleStops(mid, f, |mid|);
    var all;
    r, all, undos := CompensateUnfolded(hs, w, mid, error);
    EndsFollow(vs, mid, r.views, f, forward, all, undos);
  }

  lemma {:induction false} CompensateUnfolded<S>(hs: Handlers<S>, w: World<S>, mid: seq<StepView>,
                                                 error: Option<string>)
    returns (r: WorkflowRun<S>, all: bool, undos: seq<Entry>)
    ensures r == CompensateWorkflow(hs, w, mid, error) && r.error == error
    ensures r.world.log == w.log + undos && r.status == Verdict(EligibleBelow(mid, |mid|) == [], all)
    ensures UndoPhase(mid, r.views, EligibleBelow(mid, |mid|), all, undos)
  {
    var todo := EligibleBelow(mid, |mid|);
    EligibleIsExact(mid, |mid|);
    CompensateTrace(hs, w, mid, todo);
    r, all := WorkflowOfEach(hs, w, mid, error, todo);
    undos := Since(w, r.world);
  }

  lemma {:induction false} WorkflowOfEach<S>(hs: Handlers<S>, w: World<S>, mid: seq<StepView>, error: Option<string>,
                                             todo: seq<nat>)
    returns (r: WorkflowRun<S>, all: bool)
    requires todo == EligibleBelow(mid, |mid|)
    requires forall m :: 0 <= m < |todo| ==> todo[m] < |mid| && mid[todo[m]].def.Compensatable()
    ensures var c := CompensateEach(hs, w, mid, todo);
      && r == CompensateWorkflow(hs, w, mid, error) && all == c.all
      && r == WorkflowRun(c.world, c.views, Verdict(todo == [], all), error)
  {
    r, all := CompensateWorkflow(hs, w, mid, error), CompensateEach(hs, w, mid, todo).all;
  }

  function Verdict(nothing: bool, all: bool): WorkflowStatus {
    if nothing then WfCompensating else if all then WfCompensated else WfFailed
  }

  lemma {:induction false} UndosGiveCalls(vs: seq<StepView>, mid: seq<StepView>, f: nat, todo: seq<nat>,
                                          undos: seq<Entry>, us: seq<StepView>, all: bool)
    requires f <= |vs| && f <= |mid| && forall i :: 0 <= i < f ==> mid[i].def == vs[i].def && mid[i].status == Completed
    requires todo == EligibleBelow(mid, f) && UndoPhase(mid, us, todo, all, undos)
    ensures Calls(undos) == UndoCalls(vs, f)
  {
    UndoCallsOfEligible(vs, mid, f, 0);
    forall m | 0 <= m < |todo| ensures Calls(undos)[m] == UndoCalls(vs, f)[m] {
      UndoCallsOfEligible(vs, mid, f, m);
    }
  }

  /** What the undo phase leaves in one step. */
  lemma {:induction false} EndOf(mid: seq<StepView>, us: seq<StepView>, todo: seq<nat>, all: bool,
                                 undos: seq<Entry>, i: nat)
    requires UndoPhase(mid, us, todo, all, undos) && i < |mid|
    ensures us[i].def == mid[i].def && us[i].retries == mid[i].retries
    ensures i !in todo ==> us[i] == mid[i]
    ensures i in todo ==> us[i].status == Compensated || (us[i].status == Compensating && !all)
  {
    if i in todo { var m :| 0 <= m < |todo| && todo[m] == i; }
  }

  lemma {:induction false} EndsFollow(vs: seq<StepView>, mid: seq<StepView>, us: seq<StepView>, f: nat,
                                      forward: seq<Entry>, all: bool, undos: seq<Entry>)
    requires AllPending(vs) && ForwardPhase(vs, mid, Some(f), |vs|, forward)
    requires UndoPhase(mid, us, EligibleBelow(mid, f), all, undos)
    ensures FailedRun(vs, us, Verdict(EligibleBelow(mid, f) == [], all), f, forward, undos)
  {
    UndosGiveCalls(vs, mid, f, EligibleBelow(mid, f), undos, us, all);
    StepsFollow(vs, mid, us, f, forward, all, undos);
    RaisedShows(vs, mid, us, f, all, undos);
  }

  lemma {:induction false} StepsFollow(vs: seq<StepView>, mid: seq<StepView>, us: seq<StepView>, f: nat,
                                       forward: seq<Entry>, all: bool, undos: seq<Entry>)
    requires AllPending(vs) && ForwardPhase(vs, mid, Some(f), |vs|, forward)
    requires UndoPhase(mid, us, EligibleBelow(mid, f), all, undos)
    ensures FailedSteps(vs, us, f) && Calls(forward) == ForwardCalls(us, f + 1)
    ensures forall i :: 0 <= i < f ==> us[i].status == Compensating ==> !all
  {
    EndsAll(vs, mid, us, f, all, undos);
    ForwardStays(vs, mid, us, f, forward);
  }

  lemma {:induction false} ForwardStays(vs: seq<StepView>, mid: seq<StepView>, us: seq<StepView>, f: nat,
                                        forward: seq<Entry>)
    requires ForwardPhase(vs, mid, Some(f), |vs|, forward) && |us| == |mid|
    requires forall i :: 0 <= i < |vs| ==>
      us[i].def == mid[i].def && us[i].retries == mid[i].retries && (f <= i ==> us[i] == mid[i])
    requires forall i :: 0 <= i < f ==> StepEnds(vs[i], us[i])
    ensures FailedSteps(vs, us, f) && Calls(forward) == ForwardCalls(us, f + 1)
  {
    ForwardCallsSame(us, mid, f + 1);
  }

  lemma {:induction false} RaisedShows(vs: seq<StepView>, mid: seq<StepView>, us: seq<StepView>, f: nat, all: bool,
                                       undos: seq<Entry>)
    requires f <= |mid| == |us| && UndoPhase(mid, us, EligibleBelow(mid, f), all, undos)
    requires forall i :: 0 <= i < f ==> us[i].status == Compensating ==> !all
    ensures all <==> AllReturned(undos)
    ensures AllReturned(undos) <==> forall i :: 0 <= i < f ==> us[i].status != Compensating
    ensures EligibleBelow(mid, f) == [] <==> undos == []
  {
    EligibleIsExact(mid, f);
    FailureShows(mid, us, EligibleBelow(mid, f), all, undos);
  }

  lemma {:induction false} EndsAll(vs: seq<StepView>, mid: seq<StepView>, us: seq<StepView>, f: nat, all: bool,
                                   undos: seq<Entry>)
    requires AllPending(vs) && f <= |mid| == |vs| && UndoPhase(mid, us, EligibleBelow(mid, f), all, undos)
    requires forall i :: 0 <= i < |vs| ==> mid[i].def == vs[i].def
    requires forall i :: 0 <= i < f ==> mid[i].status == Completed && 0 <= mid[i].retries <= mid[i].def.maxRetries
    ensures |us| == |mid|
    ensures forall i :: 0 <= i < |vs| ==>
      us[i].def == mid[i].def && us[i].retries == mid[i].retries && (f <= i ==> us[i] == mid[i])
    ensures forall i :: 0 <= i < f ==> StepEnds(vs[i], us[i]) && (us[i].status == Compensating ==> !all)
  {
    EligibleIsExact(mid, f);
    forall i: nat | i < |vs|
      ensures us[i].def == mid[i].def && us[i].retries == mid[i].retries && (f <= i ==> us[i] == mid[i])
      ensures i < f ==> StepEnds(vs[i], us[i]) && (us[i].status == Compensating ==> !all)
    {
      EndOf(mid, us, EligibleBelow(mid, f), all, undos, i);
    }
  }

  lemma {:induction false} FailureShows(mid: seq<StepView>, us: seq<StepView>, todo: seq<nat>, all: bool,
                                        undos: seq<Entry>)
    requires UndoPhase(mid, us, todo, all, undos)
    ensures all <==> AllReturned(undos)
    ensures !all ==> exists m :: 0 <= m < |todo| && us[todo[m]].status == Compensating
  {
    if !all {
      var m :| 0 <= m < |undos| && !undos[m].outcome.Returned?;
      assert us[todo[m]].status == Compensating;
    }
  }
}
