/** The orchestrator's classes: steps and workflows updated in place, each method
    proved against the specification functions of module Saga. */
module SagaOrchestrator {
  import opened Wrappers
  import opened Saga

  class Step {
    const def: StepDef
    var status: StepStatus
    var result: Option<Response>
    var error: Option<string>
    var retries: int

    constructor (def: StepDef)
      ensures this.def == def && View() == StepView(def, Pending, None, None, 0)
    {
      this.def := def;
      status, result, error, retries := Pending, None, None, 0;
    }

    function View(): StepView
      reads this
    {
      StepView(def, status, result, error, retries)
    }
  }

  function ViewsOf(steps: seq<Step>): (vs: seq<StepView>)
    reads steps
    ensures |vs| == |steps|
    ensures forall i :: 0 <= i < |steps| ==> vs[i] == steps[i].View()
  {
    seq(|steps|, i requires 0 <= i < |steps| reads steps => steps[i].View())
  }

  ghost predicate Distinct(steps: seq<Step>) {
    forall i, j :: 0 <= i < j < |steps| ==> steps[i] != steps[j]
  }

  class Workflow {
    const id: string
    const steps: seq<Step>
    var status: WorkflowStatus
    var error: Option<string>

    constructor (id: string, steps: seq<Step>)
      ensures this.id == id && this.steps == steps && status == WfPending && error == None
    {
      this.id, this.steps := id, steps;
      status, error := WfPending, None;
    }
  }

  class BridgeDispatcher<S> {
    var handlers: Handlers<S>
    var world: World<S>

    constructor (state: S)
      ensures handlers == map[] && world == World(state, [])
    {
      handlers := map[];
      world := World(state, []);
    }

    method RegisterHandler(bridge: Bridge, handler: Handler<S>)
      modifies this`handlers
      ensures handlers == old(handlers)[bridge := handler]
    {
      handlers := handlers[bridge := handler];
    }

    method UnregisterHandler(bridge: Bridge)
      modifies this`handlers
      ensures handlers == old(handlers) - {bridge}
    {
      handlers := handlers - {bridge};
    }

    method Send(call: Call) returns (outcome: Outcome)
      modifies this`world
      ensures Dispatched(world, outcome) == Dispatch(handlers, old(world), call)
    {
      if call.bridge !in handlers {
        outcome := Returned(Dict("", true, call.payload));
        world := world.(log := world.log + [Entry(call, outcome)]);
      } else {
        var reply := handlers[call.bridge](world.state, world.log, call.action, call.payload);
        outcome := reply.outcome;
        world := World(reply.state, world.log + [Entry(call, outcome)]);
      }
    }
  }

  class StepExecutor<S> {
    const dispatcher: BridgeDispatcher<S>

    constructor (dispatcher: BridgeDispatcher<S>)
      ensures this.dispatcher == dispatcher
    {
      this.dispatcher := dispatcher;
    }

    method Execute(step: Step)
      modifies step, dispatcher`world
      ensures var (w, x) := RunStep(dispatcher.handlers, old(dispatcher.world), Start(old(step.View())));
              dispatcher.world == w && step.View() == x.view && x.done
    {
      ghost var hs := dispatcher.handlers;
      StatusIsOverwritten(hs, dispatcher.world, Start(step.View()));
      step.status := Running;
      var lastError: Option<string> := None;
      var attempt := 0;
      while attempt < step.def.maxRetries + 1
        invariant RunStep(hs, old(dispatcher.world), Start(old(step.View()))) ==
                  RunStep(hs, dispatcher.world, Exec(step.View(), attempt, lastError, false))
        invariant step.status == Running
      {
        var outcome := dispatcher.Send(step.def.Forward());
        if Succeeded(outcome) {
          step.status := Completed;
          step.result := Some(outcome.response);
          step.retries := attempt;
          return;
        }
        lastError := Some(FailureText(step.def, outcome));
        attempt := attempt + 1;
      }
      step.status := Failed;
      step.error := lastError;
      step.retries := step.def.maxRetries;
    }

    /** The same coroutine, resumed once: it runs up to its next dispatch. */
    method Resume(step: Step, attempt: nat, lastError: Option<string>)
      returns (attempt': nat, lastError': Option<string>, done: bool)
      modifies step, dispatcher`world
      ensures (dispatcher.world, Exec(step.View(), attempt', lastError', done)) ==
              Turn(dispatcher.handlers, old(dispatcher.world), Exec(old(step.View()), attempt, lastError, false))
    {
      attempt', lastError', done := attempt, lastError, true;
      if attempt' <= step.def.maxRetries {
        step.status := Running;
        var outcome := dispatcher.Send(step.def.Forward());
        if Succeeded(outcome) {
          step.status := Completed;
          step.result := Some(outcome.response);
          step.retries := attempt;
          return;
        }
        lastError' := Some(FailureText(step.def, outcome));
        attempt' := attempt + 1;
      }
      if step.def.maxRetries < attempt' {
        step.status := Failed;
        step.error := lastError';
        step.retries := step.def.maxRetries;
      } else {
        done := false;
      }
    }
  }

  class CompensationManager<S> {
    const dispatcher: BridgeDispatcher<S>

    constructor (dispatcher: BridgeDispatcher<S>)
      ensures this.dispatcher == dispatcher
    {
      this.dispatcher := dispatcher;
    }

    /** Lists the completed compensatable steps, then undoes them in that order. */
    method Compensate(workflow: Workflow)
      requires Distinct(workflow.steps)
      modifies workflow`status, workflow.steps, dispatcher`world
      ensures WorkflowRun(dispatcher.world, ViewsOf(workflow.steps), workflow.status, workflow.error) ==
              CompensateWorkflow(dispatcher.handlers, old(dispatcher.world), old(ViewsOf(workflow.steps)),
                workflow.error)
    {
      var steps := workflow.steps;
      ghost var views := ViewsOf(steps);
      workflow.status := WfCompensating;
      assert ViewsOf(steps) == views;
      var todo := ListCompensatable(steps);
      if todo == [] {
        return;
      }
      EligibleIsExact(views, |steps|);
      var all := RunUndos(steps, todo);
      ghost var after := ViewsOf(steps);
      workflow.status := if all then WfCompensated else WfFailed;
      assert ViewsOf(steps) == after;
    }

    method ListCompensatable(steps: seq<Step>) returns (todo: seq<nat>)
      ensures todo == EligibleBelow(ViewsOf(steps), |steps|)
    {
      ghost var views := ViewsOf(steps);
      todo := [];
      var n := |steps|;
      while n > 0
        invariant 0 <= n <= |steps|
        invariant EligibleBelow(views, |steps|) == todo + EligibleBelow(views, n)
      {
        n := n - 1;
        if steps[n].status == Completed && steps[n].def.Compensatable() {
          todo := todo + [n];
        }
      }
    }

    method RunUndos(steps: seq<Step>, todo: seq<nat>) returns (all: bool)
      requires Distinct(steps)
      requires forall m :: 0 <= m < |todo| ==> todo[m] < |steps| && steps[todo[m]].def.Compensatable()
      modifies steps, dispatcher`world
      ensures Compensation(dispatcher.world, ViewsOf(steps), all) ==
              CompensateEach(dispatcher.handlers, old(dispatcher.world), old(ViewsOf(steps)), todo)
    {
      ghost var hs := dispatcher.handlers;
      all := true;
      for m := 0 to |todo|
        invariant CompensateEach(hs, old(dispatcher.world), old(ViewsOf(steps)), todo) ==
                  var rest := CompensateEach(hs, dispatcher.world, ViewsOf(steps), todo[m..]);
                  rest.(all := rest.all && all)
      {
        var step := steps[todo[m]];
        ghost var before, w := ViewsOf(steps), dispatcher.world;
        step.status := Compensating;
        var outcome := dispatcher.Send(step.def.Undo());
        if outcome.Returned? {
          step.status := Compensated;
          step.result := Some(outcome.response);
        } else {
          all := false;
        }
        assert ViewsOf(steps) == before[todo[m] := AfterUndo(before[todo[m]], outcome)];
        assert todo[m..][1..] == todo[m + 1..];
      }
    }
  }

  class CrossBridgeOrchestrator<S> {
    const dispatcher: BridgeDispatcher<S>
    const executor: StepExecutor<S>
    const compensation: CompensationManager<S>
    var workflows: map<string, Workflow>

    ghost predicate Wired() {
      executor.dispatcher == dispatcher && compensation.dispatcher == dispatcher
    }

    constructor (state: S)
      ensures Wired() && workflows == map[] && fresh(dispatcher)
      ensures dispatcher.handlers == map[] && dispatcher.world == World(state, [])
    {
      var d := new BridgeDispatcher<S>(state);
      dispatcher := d;
      executor := new StepExecutor<S>(d);
      compensation := new CompensationManager<S>(d);
      workflows := map[];
    }

    method Run(workflow: Workflow)
      requires Wired() && Distinct(workflow.steps)
      modifies this`workflows, workflow, workflow.steps, dispatcher`world
      ensures workflows == old(workflows)[workflow.id := workflow]
      ensures WorkflowRun(dispatcher.world, ViewsOf(workflow.steps), workflow.status, workflow.error) ==
              Saga.Execute(dispatcher.handlers, old(dispatcher.world), old(ViewsOf(workflow.steps)),
                old(workflow.error))
    {
      workflows := workflows[workflow.id := workflow];
      workflow.status := WfRunning;
      var steps := workflow.steps;
      assert ViewsOf(steps) == old(ViewsOf(workflow.steps));
      var failed := RunSteps(steps);
      ghost var after := ViewsOf(steps);
      if failed.Some? {
        workflow.error := steps[failed.value].error;
        assert ViewsOf(steps) == after;
        compensation.Compensate(workflow);
      } else {
        workflow.status := WfCompleted;
      }
    }

    /** The loop over the steps, left at the first one that fails. */
    method RunSteps(steps: seq<Step>) returns (failed: Option<nat>)
      requires Wired() && Distinct(steps)
      modifies steps, dispatcher`world
      ensures Progress(dispatcher.world, ViewsOf(steps), failed) ==
              Prefix(dispatcher.handlers, old(dispatcher.world), old(ViewsOf(steps)), |steps|)
      ensures failed.Some? ==> failed.value < |steps|
    {
      ghost var hs, w, vs := dispatcher.handlers, dispatcher.world, ViewsOf(steps);
      for i := 0 to |steps|
        invariant Prefix(hs, w, vs, i) == Progress(dispatcher.world, ViewsOf(steps), None)
      {
        TakeStep(steps, i, w, vs);
        if steps[i].status == Failed {
          PrefixStaysFailed(hs, w, vs, i + 1, |steps|);
          return Some(i);
        }
      }
      return None;
    }

    /** One turn of the loop. */
    method TakeStep(steps: seq<Step>, i: nat, ghost w: World<S>, ghost vs: seq<StepView>)
      requires Wired() && Distinct(steps) && i < |steps| == |vs|
      requires Prefix(dispatcher.handlers, w, vs, i) == Progress(dispatcher.world, ViewsOf(steps), None)
      modifies steps[i], dispatcher`world
      ensures Prefix(dispatcher.handlers, w, vs, i + 1) ==
              Progress(dispatcher.world, ViewsOf(steps), if steps[i].status == Failed then Some(i) else None)
    {
      ghost var before, world := ViewsOf(steps), dispatcher.world;
      assert before[i] == steps[i].View();
      executor.Execute(steps[i]);
      assert ViewsOf(steps) == before[i := steps[i].View()];
      PrefixNext(dispatcher.handlers, w, vs, i + 1, Progress(world, before, None), dispatcher.world, steps[i].View());
    }

    /** `asyncio.gather` lets the executors take their turns in any order: the
        next one is chosen nondeterministically, and `schedule` records the choice. */
    method RunParallel(workflow: Workflow) returns (ghost schedule: seq<nat>, finished: seq<Exec>)
      requires Wired() && Distinct(workflow.steps)
      modifies this`workflows, workflow, workflow.steps, dispatcher`world
      ensures workflows == old(workflows)[workflow.id := workflow]
      ensures |finished| == |workflow.steps| && forall i :: 0 <= i < |finished| ==> finished[i].done
      ensures forall m :: 0 <= m < |schedule| ==> schedule[m] < |workflow.steps|
      ensures var (w, xs) :=
        RunSchedule(dispatcher.handlers, old(dispatcher.world), Starts(old(ViewsOf(workflow.steps))), schedule);
              finished == xs &&
              WorkflowRun(dispatcher.world, ViewsOf(workflow.steps), workflow.status, workflow.error) ==
              AfterGather(dispatcher.handlers, w, Views(xs), old(workflow.error))
    {
      workflows := workflows[workflow.id := workflow];
      workflow.status := WfRunning;
      var steps := workflow.steps;
      assert ViewsOf(steps) == old(ViewsOf(workflow.steps));
      schedule, finished := Gather(steps);
      Conclude(workflow);
    }

    /** The part of `execute_parallel` after the gather. */
    method Conclude(workflow: Workflow)
      requires Wired() && Distinct(workflow.steps)
      modifies workflow, workflow.steps, dispatcher`world
      ensures WorkflowRun(dispatcher.world, ViewsOf(workflow.steps), workflow.status, workflow.error) ==
              AfterGather(dispatcher.handlers, old(dispatcher.world), old(ViewsOf(workflow.steps)), old(workflow.error))
    {
      var steps := workflow.steps;
      var failed := AnyFailed(steps);
      if failed {
        compensation.Compensate(workflow);
      } else {
        workflow.status := WfCompleted;
        assert ViewsOf(steps) == old(ViewsOf(workflow.steps));
      }
    }

    method AnyFailed(steps: seq<Step>) returns (failed: bool)
      ensures failed <==> exists i | 0 <= i < |steps| :: ViewsOf(steps)[i].status == Failed
    {
      failed := false;
      for i := 0 to |steps|
        invariant failed <==> exists j | 0 <= j < i :: ViewsOf(steps)[j].status == Failed
      {
        assert ViewsOf(steps)[i].status == steps[i].status;
        if steps[i].status == Failed {
          failed := true;
        }
      }
    }

    method Gather(steps: seq<Step>) returns (ghost schedule: seq<nat>, tasks: seq<Exec>)
      requires Wired() && Distinct(steps)
      modifies steps, dispatcher`world
      ensures forall m :: 0 <= m < |schedule| ==> schedule[m] < |steps|
      ensures |tasks| == |steps| && forall i :: 0 <= i < |tasks| ==> tasks[i].done
      ensures Views(tasks) == ViewsOf(steps)
      ensures (dispatcher.world, tasks) ==
              RunSchedule(dispatcher.handlers, old(dispatcher.world), Starts(old(ViewsOf(steps))), schedule)
    {
      ghost var hs, w, xs := dispatcher.handlers, dispatcher.world, Starts(ViewsOf(steps));
      schedule := [];
      tasks := Starts(ViewsOf(steps));
      while exists i | 0 <= i < |tasks| :: !tasks[i].done
        invariant |tasks| == |steps|
        invariant forall m :: 0 <= m < |schedule| ==> schedule[m] < |steps|
        invariant Views(tasks) == ViewsOf(steps)
        invariant (dispatcher.world, tasks) == RunSchedule(hs, w, xs, schedule)
        decreases Work(tasks)
      {
        var i :| 0 <= i < |tasks| && !tasks[i].done;
        tasks := TakeTurn(steps, tasks, i, w, xs, schedule);
        schedule := schedule + [i];
      }
    }

    /** One turn of one executor, after the turns in `schedule`. */
    method TakeTurn(steps: seq<Step>, tasks: seq<Exec>, i: nat, ghost w: World<S>, ghost xs: seq<Exec>,
                    ghost schedule: seq<nat>)
      returns (tasks': seq<Exec>)
      requires Wired() && Distinct(steps) && Views(tasks) == ViewsOf(steps) && i < |steps| == |xs| && !tasks[i].done
      requires forall m :: 0 <= m < |schedule| ==> schedule[m] < |xs|
      requires RunSchedule(dispatcher.handlers, w, xs, schedule) == (dispatcher.world, tasks)
      modifies steps[i], dispatcher`world
      ensures Views(tasks') == ViewsOf(steps) && Work(tasks') < Work(tasks)
      ensures RunSchedule(dispatcher.handlers, w, xs, schedule + [i]) == (dispatcher.world, tasks')
    {
      ScheduleGrows(dispatcher.handlers, w, xs, schedule, i, dispatcher.world, tasks);
      TurnWorks(dispatcher.handlers, dispatcher.world, tasks, i);
      tasks' := Advance(steps, tasks, i);
    }

    method Advance(steps: seq<Step>, tasks: seq<Exec>, i: nat) returns (tasks': seq<Exec>)
      requires Wired() && Distinct(steps) && Views(tasks) == ViewsOf(steps) && i < |steps| && !tasks[i].done
      modifies steps[i], dispatcher`world
      ensures Views(tasks') == ViewsOf(steps)
      ensures var (w, x) := Turn(dispatcher.handlers, old(dispatcher.world), tasks[i]);
              dispatcher.world == w && tasks' == tasks[i := x]
    {
      ghost var before := ViewsOf(steps);
      assert Views(tasks)[i] == steps[i].View();
      var attempt, error, done := executor.Resume(steps[i], tasks[i].attempt, tasks[i].lastError);
      tasks' := tasks[i := Exec(steps[i].View(), attempt, error, done)];
      assert ViewsOf(steps) == before[i := steps[i].View()];
    }
  }

  /** Turns an executor may still take. */
  ghost function Remaining(x: Exec): nat {
    if x.done then 0 else if x.attempt <= x.view.def.maxRetries then x.view.def.maxRetries + 2 - x.attempt else 1
  }

  ghost function Work(xs: seq<Exec>): nat {
    if xs == [] then 0 else Remaining(xs[|xs| - 1]) + Work(xs[..|xs| - 1])
  }

  lemma {:induction false} WorkOfUpdate(xs: seq<Exec>, i: nat, x: Exec)
    requires i < |xs|
    ensures Work(xs[i := x]) == Work(xs) - Remaining(xs[i]) + Remaining(x)
  {
    if i == |xs| - 1 {
      assert xs[i := x][..i] == xs[..i];
    } else {
      assert xs[i := x][..|xs| - 1] == xs[..|xs| - 1][i := x];
      WorkOfUpdate(xs[..|xs| - 1], i, x);
    }
  }

  lemma {:induction false} TurnWorks<S>(hs: Handlers<S>, w: World<S>, xs: seq<Exec>, i: nat)
    requires i < |xs| && !xs[i].done
    ensures Work(xs[i := Turn(hs, w, xs[i]).1]) < Work(xs)
  {
    WorkOfUpdate(xs, i, Turn(hs, w, xs[i]).1);
  }

  lemma {:induction false} ScheduleGrows<S>(hs: Handlers<S>, w: World<S>, xs: seq<Exec>, schedule: seq<nat>, i: nat,
                                            w1: World<S>, xs1: seq<Exec>)
    requires i < |xs| && forall m :: 0 <= m < |schedule| ==> schedule[m] < |xs|
    requires RunSchedule(hs, w, xs, schedule) == (w1, xs1)
    ensures RunSchedule(hs, w, xs, schedule + [i]) == (Turn(hs, w1, xs1[i]).0, xs1[i := Turn(hs, w1, xs1[i]).1])
  {
    assert (schedule + [i])[..|schedule|] == schedule;
  }

  lemma {:induction false} StatusIsOverwritten<S>(hs: Handlers<S>, w: World<S>, x: Exec)
    requires !x.done
    ensures RunStep(hs, w, x) == RunStep(hs, w, x.(view := x.view.(status := Running)))
  {
  }

  lemma {:induction false} PrefixStaysFailed<S>(hs: Handlers<S>, w: World<S>, vs: seq<StepView>, m: nat, n: nat)
    requires m <= n <= |vs| && Prefix(hs, w, vs, m).failed.Some?
    ensures Prefix(hs, w, vs, n) == Prefix(hs, w, vs, m)
    decreases n
  {
    if m < n { PrefixStaysFailed(hs, w, vs, m, n - 1); }
  }
}
