/** The saga orchestrator (Dimensionals/cross_bridge_orchestrator.py): data,
    the dispatcher, and the specification functions of a run. The bridges are an
    abstract state `S`; a handler answers from that state and from everything
    dispatched so far, so quantifying over handlers quantifies over every
    behaviour the bridges can have. */
module Saga {
  import opened Wrappers

  datatype Bridge = Infinity | Nexus | Hive
  datatype StepStatus = Pending | Running | Completed | Failed | Compensated | Compensating
  datatype WorkflowStatus = WfPending | WfRunning | WfCompleted | WfFailed | WfCompensating | WfCompensated

  datatype Call = Call(bridge: Bridge, action: string, payload: string)

  /** What a handler returns. An `error` of "" stands for a missing or falsy entry; `kind` is the
      type of an answer that is no dictionary. */
  datatype Response = Dict(error: string, simulated: bool, body: string) | NotADict(kind: string)
  datatype Outcome = Returned(response: Response) | Raised(message: string) | TimedOut

  datatype Entry = Entry(call: Call, outcome: Outcome)
  datatype Reply<S> = Reply(state: S, outcome: Outcome)
  type Handler<!S> = (S, seq<Entry>, string, string) -> Reply<S>
  type Handlers<!S> = map<Bridge, Handler<S>>

  /** The bridges together with the log of everything dispatched to them. */
  datatype World<S> = World(state: S, log: seq<Entry>)

  datatype StepDef = StepDef(name: string, bridge: Bridge, action: string, payload: string,
                             compensationAction: Option<string>, compensationPayload: string, maxRetries: int,
                             timeoutSeconds: string)
  {
    predicate Compensatable() {
      compensationAction.Some? && compensationAction.value != ""
    }

    function Forward(): Call {
      Call(bridge, action, payload)
    }

    function Undo(): Call
      requires Compensatable()
    {
      Call(bridge, compensationAction.value, compensationPayload)
    }
  }

  /** The fields of one step at one moment. */
  datatype StepView = StepView(def: StepDef, status: StepStatus, result: Option<Response>,
                               error: Option<string>, retries: int)
  {
    predicate Eligible() {
      status == Completed && def.Compensatable()
    }
  }

  // ---------------------------------------------------------------- dispatcher

  datatype Dispatched<S> = Dispatched(world: World<S>, outcome: Outcome)

  function Dispatch<S>(hs: Handlers<S>, w: World<S>, call: Call): Dispatched<S> {
    var reply :=
      if call.bridge in hs then hs[call.bridge](w.state, w.log, call.action, call.payload)
      else Reply(w.state, Returned(Dict("", true, call.payload)));
    Dispatched(World(reply.state, w.log + [Entry(call, reply.outcome)]), reply.outcome)
  }

  /** An error entry fails the attempt unless the answer is marked simulated. */
  predicate Succeeded(o: Outcome) {
    o.Returned? && o.response.Dict? && (o.response.error == "" || o.response.simulated)
  }

  function FailureText(def: StepDef, o: Outcome): string {
    match o
    case TimedOut => "Step " + def.name + " timed out after " + def.timeoutSeconds + "s"
    case Raised(message) => message
    case Returned(Dict(error, _, _)) => error
    case Returned(NotADict(kind)) => "'" + kind + "' object has no attribute 'get'"
  }

  // ---------------------------------------------------------------- step executor

  /** A step executor between two of its dispatches. */
  datatype Exec = Exec(view: StepView, attempt: nat, lastError: Option<string>, done: bool)

  function Start(v: StepView): Exec {
    Exec(v, 0, None, false)
  }

  function GiveUp(x: Exec): Exec {
    x.(view := x.view.(status := Failed, error := x.lastError, retries := x.view.def.maxRetries), done := true)
  }

  /** One resumption of the executor: at most one dispatch. */
  function Turn<S>(hs: Handlers<S>, w: World<S>, x: Exec): (r: (World<S>, Exec)) {
    if x.done then (w, x)
    else if x.view.def.maxRetries < x.attempt then (w, GiveUp(x))
    else
      var d := Dispatch(hs, w, x.view.def.Forward());
      if Succeeded(d.outcome) then
        var view := x.view.(status := Completed, result := Some(d.outcome.response), retries := x.attempt);
        (d.world, x.(view := view, done := true))
      else
        var error := Some(FailureText(x.view.def, d.outcome));
        var next := Exec(x.view.(status := Running), x.attempt + 1, error, false);
        (d.world, if x.view.def.maxRetries < next.attempt then GiveUp(next) else next)
  }

  /** Turns until the executor returns: StepExecutor.execute run on its own. */
  function RunStep<S>(hs: Handlers<S>, w: World<S>, x: Exec): (World<S>, Exec)
    decreases !x.done, x.view.def.maxRetries - x.attempt
  {
    if x.done then (w, x)
    else
      var (w1, x1) := Turn(hs, w, x);
      if x.view.def.maxRetries < x.attempt then (w1, x1) else RunStep(hs, w1, x1)
  }

  // ---------------------------------------------------------------- compensation

  /** Indices below `n` of the completed compensatable steps, last first. */
  function EligibleBelow(vs: seq<StepView>, n: nat): seq<nat>
    requires n <= |vs|
  {
    if n == 0 then []
    else if vs[n - 1].Eligible() then [n - 1] + EligibleBelow(vs, n - 1)
    else EligibleBelow(vs, n - 1)
  }

  datatype Compensation<S> = Compensation(world: World<S>, views: seq<StepView>, all: bool)

  function AfterUndo(v: StepView, o: Outcome): StepView {
    if o.Returned? then v.(status := Compensated, result := Some(o.response)) else v.(status := Compensating)
  }

  function CompensateEach<S>(hs: Handlers<S>, w: World<S>, vs: seq<StepView>, todo: seq<nat>): (r: Compensation<S>)
    requires forall m :: 0 <= m < |todo| ==> todo[m] < |vs| && vs[todo[m]].def.Compensatable()
    ensures |r.views| == |vs|
    decreases |todo|
  {
    if todo == [] then Compensation(w, vs, true)
    else
      var d := Dispatch(hs, w, vs[todo[0]].def.Undo());
      var rest := CompensateEach(hs, d.world, vs[todo[0] := AfterUndo(vs[todo[0]], d.outcome)], todo[1..]);
      rest.(all := rest.all && d.outcome.Returned?)
  }

  // ---------------------------------------------------------------- workflow

  datatype WorkflowRun<S> = WorkflowRun(world: World<S>, views: seq<StepView>, status: WorkflowStatus,
    error: Option<string>)

  function CompensateWorkflow<S>(hs: Handlers<S>, w: World<S>, vs: seq<StepView>,
                                 error: Option<string>): WorkflowRun<S> {
    EligibleIsExact(vs, |vs|);
    var todo := EligibleBelow(vs, |vs|);
    if todo == [] then WorkflowRun(w, vs, WfCompensating, error)
    else
      var c := CompensateEach(hs, w, vs, todo);
      WorkflowRun(c.world, c.views, if c.all then WfCompensated else WfFailed, error)
  }

  datatype Progress<S> = Progress(world: World<S>, views: seq<StepView>, failed: Option<nat>)

  /** The sequential loop after its first `n` iterations; it stops at a failed step. */
  function Prefix<S>(hs: Handlers<S>, w: World<S>, vs: seq<StepView>, n: nat): (p: Progress<S>)
    requires n <= |vs|
    ensures |p.views| == |vs|
  {
    if n == 0 then Progress(w, vs, None)
    else
      var p := Prefix(hs, w, vs, n - 1);
      if p.failed.Some? then p
      else
        var (w1, x) := RunStep(hs, p.world, Start(p.views[n - 1]));
        Progress(w1, p.views[n - 1 := x.view], if x.view.status == Failed then Some(n - 1) else None)
  }

  /** CrossBridgeOrchestrator.execute. */
  function Execute<S>(hs: Handlers<S>, w: World<S>, vs: seq<StepView>, error: Option<string>): WorkflowRun<S> {
    PrefixStops(hs, w, vs, |vs|);
    Conclude(hs, Prefix(hs, w, vs, |vs|), error)
  }

  /** What execute does once its loop over the steps has ended. */
  function Conclude<S>(hs: Handlers<S>, p: Progress<S>, error: Option<string>): WorkflowRun<S>
    requires p.failed.Some? ==> p.failed.value < |p.views|
  {
    if p.failed.None? then WorkflowRun(p.world, p.views, WfCompleted, error)
    else CompensateWorkflow(hs, p.world, p.views, p.views[p.failed.value].error)
  }

  /** A schedule of the parallel executors: whose turn it was, in order. */
  function RunSchedule<S>(hs: Handlers<S>, w: World<S>, xs: seq<Exec>, schedule: seq<nat>): (r: (World<S>, seq<Exec>))
    requires forall m :: 0 <= m < |schedule| ==> schedule[m] < |xs|
    ensures |r.1| == |xs|
    decreases |schedule|
  {
    if schedule == [] then (w, xs)
    else
      var (w1, xs1) := RunSchedule(hs, w, xs, schedule[..|schedule| - 1]);
      var i := schedule[|schedule| - 1];
      var (w2, x) := Turn(hs, w1, xs1[i]);
      (w2, xs1[i := x])
  }

  function Starts(vs: seq<StepView>): (xs: seq<Exec>)
    ensures |xs| == |vs|
  {
    seq(|vs|, i requires 0 <= i < |vs| => Start(vs[i]))
  }

  function Views(xs: seq<Exec>): (vs: seq<StepView>)
    ensures |vs| == |xs|
  {
    seq(|xs|, i requires 0 <= i < |xs| => xs[i].view)
  }

  /** CrossBridgeOrchestrator.execute_parallel after the gather of all executors. */
  function AfterGather<S>(hs: Handlers<S>, w: World<S>, vs: seq<StepView>, error: Option<string>): WorkflowRun<S> {
    if exists i | 0 <= i < |vs| :: vs[i].status == Failed then CompensateWorkflow(hs, w, vs, error)
    else WorkflowRun(w, vs, WfCompleted, error)
  }

  // ---------------------------------------------------------------- basic facts

  /** The compensation list holds exactly the completed compensatable steps, in
      strictly descending list order. */
  lemma {:induction false} EligibleIsExact(vs: seq<StepView>, n: nat)
    requires n <= |vs|
    ensures forall i: nat :: i in EligibleBelow(vs, n) <==>
      i < n && vs[i].status == Completed &&
      vs[i].def.compensationAction.Some? && vs[i].def.compensationAction.value != ""
    ensures forall m :: 0 <= m < |EligibleBelow(vs, n)| ==>
      EligibleBelow(vs, n)[m] < n && vs[EligibleBelow(vs, n)[m]].Eligible()
    ensures forall a, b :: 0 <= a < b < |EligibleBelow(vs, n)| ==> EligibleBelow(vs, n)[b] < EligibleBelow(vs, n)[a]
  {
    if n > 0 { EligibleIsExact(vs, n - 1); }
  }

  lemma {:induction false} PrefixStops<S>(hs: Handlers<S>, w: World<S>, vs: seq<StepView>, n: nat)
    requires n <= |vs|
    ensures Prefix(hs, w, vs, n).failed.Some? ==> Prefix(hs, w, vs, n).failed.value < n
  {
    if n > 0 { PrefixStops(hs, w, vs, n - 1); }
  }

  /** One more turn of the loop over the steps, after turns that none failed. */
  lemma {:induction false} PrefixNext<S>(hs: Handlers<S>, w: World<S>, vs: seq<StepView>, n: nat, q: Progress<S>,
                                         w1: World<S>, v: StepView)
    requires 0 < n <= |vs| && Prefix(hs, w, vs, n - 1) == q && q.failed.None?
    requires RunStep(hs, q.world, Start(q.views[n - 1])).0 == w1
      && RunStep(hs, q.world, Start(q.views[n - 1])).1.view == v
    ensures Prefix(hs, w, vs, n) == Progress(w1, q.views[n - 1 := v], if v.status == Failed then Some(n - 1) else None)
  {
  }

  lemma {:induction false} ExecuteIs<S>(hs: Handlers<S>, w: World<S>, vs: seq<StepView>, error: Option<string>,
      p: Progress<S>)
    requires p == Prefix(hs, w, vs, |vs|)
    ensures p.failed.Some? ==> p.failed.value < |p.views|
    ensures Execute(hs, w, vs, error) == Conclude(hs, p, error)
  {
    PrefixStops(hs, w, vs, |vs|);
  }
}
