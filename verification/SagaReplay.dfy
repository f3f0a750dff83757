/** The log of a run determines everything else about it: replaying the logged
    outcomes, with no bridges at all, reproduces the final fields and the log. */
module SagaReplay {
  import opened Sequences
  import opened Wrappers
  import opened Saga
  import opened SagaTheorems

  /** A handler that plays back the outcomes of a logged run. */
  const PLAYER: Handler<seq<Entry>> :=
    (tape: seq<Entry>, log, action, payload) =>
      if tape == [] then Reply([], TimedOut) else Reply(tape[1..], tape[0].outcome)

  const PLAYBACK: Handlers<seq<Entry>> := map[Infinity := PLAYER, Nexus := PLAYER, Hive := PLAYER]

  lemma {:induction false} PlayOne(e: Entry, log: seq<Entry>, rest: seq<Entry>, past: seq<Entry>)
    ensures Dispatch(PLAYBACK, World([e] + log + rest, past), e.call)
      == Dispatched(World(log + rest, past + [e]), e.outcome)
  {
    assert ([e] + log + rest)[1..] == log + rest;
    assert e.call.bridge in PLAYBACK && PLAYBACK[e.call.bridge] == PLAYER by {
      match e.call.bridge case Infinity => case Nexus => case Hive =>
    }
  }

  lemma {:induction false} PlayStep<S>(hs: Handlers<S>, w: World<S>, x: Exec, rest: seq<Entry>, past: seq<Entry>)
    ensures w.log <= RunStep(hs, w, x).0.log
    ensures var (w1, x1) := RunStep(hs, w, x);
            RunStep(PLAYBACK, World(Since(w, w1) + rest, past), x) == (World(rest, past + Since(w, w1)), x1)
    decreases !x.done, x.view.def.maxRetries - x.attempt
  {
    var (w1, x1) := RunStep(hs, w, x);
    if x.done || x.view.def.maxRetries < x.attempt {
      assert Since(w, w1) + rest == rest && past + Since(w, w1) == past;
    } else {
      var call := x.view.def.Forward();
      var d := Dispatch(hs, w, call);
      var (w2, x2) := Turn(hs, w, x);
      var e := Entry(call, d.outcome);
      PlayStep(hs, w2, x2, rest, past + [e]);
      SinceNext(w, call, d, w1);
      PlayOne(e, Since(w2, w1), rest, past);
      assert past + [e] + Since(w2, w1) == past + Since(w, w1);
    }
  }

  lemma {:induction false} PlayPrefix<S>(hs: Handlers<S>, w: World<S>, vs: seq<StepView>, n: nat, rest: seq<Entry>,
                                         past: seq<Entry>)
    requires n <= |vs|
    ensures w.log <= Prefix(hs, w, vs, n).world.log
    ensures var p := Prefix(hs, w, vs, n); var log := Since(w, p.world);
            Prefix(PLAYBACK, World(log + rest, past), vs, n) == Progress(World(rest, past + log), p.views, p.failed)
    decreases n, 2
  {
    if n == 0 {
      assert Since(w, w) + rest == rest && past + Since(w, w) == past;
    } else if Prefix(hs, w, vs, n - 1).failed.None? {
      PlayLast(hs, w, vs, n, Prefix(hs, w, vs, n - 1), rest, past);
    } else {
      PlayPrefix(hs, w, vs, n - 1, rest, past);
      FailedStays(hs, w, vs, n);
      FailedStays(PLAYBACK, World(Since(w, Prefix(hs, w, vs, n - 1).world) + rest, past), vs, n);
    }
  }

  lemma {:induction false} FailedStays<S>(hs: Handlers<S>, w: World<S>, vs: seq<StepView>, n: nat)
    requires 0 < n <= |vs| && Prefix(hs, w, vs, n - 1).failed.Some?
    ensures Prefix(hs, w, vs, n) == Prefix(hs, w, vs, n - 1)
  {
  }

  /** One more step, after a prefix that did not fail. */
  lemma {:induction false} PlayLast<S>(hs: Handlers<S>, w: World<S>, vs: seq<StepView>, n: nat, q: Progress<S>,
                                       rest: seq<Entry>, past: seq<Entry>)
    requires 0 < n <= |vs| && Prefix(hs, w, vs, n - 1) == q && q.failed.None?
    ensures w.log <= Prefix(hs, w, vs, n).world.log
    ensures var p := Prefix(hs, w, vs, n); var log := Since(w, p.world);
            Prefix(PLAYBACK, World(log + rest, past), vs, n) == Progress(World(rest, past + log), p.views, p.failed)
    decreases n, 1
  {
    LogGrows(hs, w, vs, n - 1);
    var (w1, x) := RunStep(hs, q.world, Start(q.views[n - 1]));
    PrefixNext(hs, w, vs, n, q, w1, x.view);
    PlayNext(hs, w, vs, n, q, w1, x, rest, past);
  }

  lemma {:induction false} LogGrows<S>(hs: Handlers<S>, w: World<S>, vs: seq<StepView>, n: nat)
    requires n <= |vs|
    ensures w.log <= Prefix(hs, w, vs, n).world.log
  {
    PrefixTrace(hs, w, vs, n);
  }

  lemma {:induction false} PlayNext<S>(hs: Handlers<S>, w: World<S>, vs: seq<StepView>, n: nat, q: Progress<S>,
                                       w1: World<S>, x: Exec, rest: seq<Entry>, past: seq<Entry>)
    requires 0 < n <= |vs| && Prefix(hs, w, vs, n - 1) == q && q.failed.None? && w.log <= q.world.log
    requires RunStep(hs, q.world, Start(q.views[n - 1])) == (w1, x)
    ensures w.log <= w1.log
    ensures Prefix(PLAYBACK, World(Since(w, w1) + rest, past), vs, n) ==
            Progress(World(rest, past + Since(w, w1)), q.views[n - 1 := x.view],
              if x.view.status == Failed then Some(n - 1) else None)
    decreases n, 0
  {
    var a := Since(w, q.world);
    PlayStep(hs, q.world, Start(q.views[n - 1]), rest, past + a);
    var b := Since(q.world, w1);
    PlayPrefix(hs, w, vs, n - 1, b + rest, past);
    SinceTwice(w, q.world, w1);
    Associates(a, b, rest);
    Associates(past, a, b);
    PrefixNext(PLAYBACK, World(a + (b + rest), past), vs, n,
               Progress(World(b + rest, past + a), q.views, None), World(rest, past + a + b), x.view);
  }

  lemma {:induction false} PlayUndos<S>(hs: Handlers<S>, w: World<S>, vs: seq<StepView>, todo: seq<nat>,
                                        rest: seq<Entry>, past: seq<Entry>)
    requires forall m :: 0 <= m < |todo| ==> todo[m] < |vs| && vs[todo[m]].def.Compensatable()
    ensures w.log <= CompensateEach(hs, w, vs, todo).world.log
    ensures var c := CompensateEach(hs, w, vs, todo); var log := Since(w, c.world);
            CompensateEach(PLAYBACK, World(log + rest, past), vs, todo)
              == Compensation(World(rest, past + log), c.views, c.all)
    decreases |todo|
  {
    UndosAppend(hs, w, vs, todo);
    var c := CompensateEach(hs, w, vs, todo);
    if todo == [] {
      assert Since(w, w) + rest == rest && past + Since(w, w) == past;
    } else {
      var call := vs[todo[0]].def.Undo();
      var d := Dispatch(hs, w, call);
      var us := vs[todo[0] := AfterUndo(vs[todo[0]], d.outcome)];
      PlayUndos(hs, d.world, us, todo[1..], rest, past + [Entry(call, d.outcome)]);
      UndosAppend(hs, d.world, us, todo[1..]);
      PlayOneMore(hs, w, call, d, c.world, rest, past);
    }
  }

  /** Playing back one logged outcome before the rest of a log. */
  lemma {:induction false} PlayOneMore<S>(hs: Handlers<S>, w: World<S>, call: Call, d: Dispatched<S>,
                                          last: World<S>, rest: seq<Entry>, past: seq<Entry>)
    requires d == Dispatch(hs, w, call) && d.world.log <= last.log
    ensures w.log <= last.log
    ensures var e, log := Entry(call, d.outcome), Since(d.world, last);
      && past + [e] + log == past + Since(w, last)
      && Dispatch(PLAYBACK, World(Since(w, last) + rest, past), call)
        == Dispatched(World(log + rest, past + [e]), d.outcome)
  {
    var e, log := Entry(call, d.outcome), Since(d.world, last);
    SinceNext(w, call, d, last);
    PlayOne(e, log, rest, past);
    Associates(past, [e], log);
  }

  lemma {:induction false} PlayCompensation<S>(hs: Handlers<S>, w: World<S>, vs: seq<StepView>,
                                               error: Option<string>, past: seq<Entry>)
    returns (r: WorkflowRun<S>, log: seq<Entry>)
    ensures r == CompensateWorkflow(hs, w, vs, error) && r.world.log == w.log + log
    ensures CompensateWorkflow(PLAYBACK, World(log, past), vs, error) ==
            WorkflowRun(World([], past + log), r.views, r.status, r.error)
  {
    var todo := EligibleBelow(vs, |vs|);
    EligibleIsExact(vs, |vs|);
    UndosAppend(hs, w, vs, todo);
    r, log := CompensateWorkflow(hs, w, vs, error), Since(w, CompensateEach(hs, w, vs, todo).world);
    PlayUndos(hs, w, vs, todo, [], past);
    assert log + [] == log;
    if todo == [] { assert log == [] && past + log == past; }
  }

  lemma {:induction false} PlayConclude<S>(hs: Handlers<S>, p: Progress<S>, error: Option<string>, past: seq<Entry>)
    returns (r: WorkflowRun<S>, log: seq<Entry>)
    requires p.failed.Some? ==> p.failed.value < |p.views|
    ensures r == Conclude(hs, p, error) && r.world.log == p.world.log + log
    ensures Conclude(PLAYBACK, Progress(World(log, past), p.views, p.failed), error) ==
            WorkflowRun(World([], past + log), r.views, r.status, r.error)
  {
    if p.failed.None? {
      r, log := Conclude(hs, p, error), [];
      assert past + [] == past;
    } else {
      r, log := PlayCompensation(hs, p.world, p.views, p.views[p.failed.value].error, past);
    }
  }

  /** Main result: any two runs with the same log end with the same fields,
      because both end like this playback of the log. */
  lemma {:induction false} LogDeterminesRun<S>(hs: Handlers<S>, w: World<S>, vs: seq<StepView>, error: Option<string>)
    ensures w.log <= Execute(hs, w, vs, error).world.log
    ensures var r := Execute(hs, w, vs, error); var log := Since(w, r.world);
            Execute(PLAYBACK, World(log, []), vs, error) == WorkflowRun(World([], log), r.views, r.status, r.error)
  {
    var p := Prefix(hs, w, vs, |vs|);
    LogGrows(hs, w, vs, |vs|);
    ExecuteIs(hs, w, vs, error, p);
    var a := Since(w, p.world);
    var r, b := PlayConclude(hs, p, error, a);
    PlayPrefix(hs, w, vs, |vs|, b, []);
    JoinsLogs(w, p.world, r.world, b);
    ExecuteIs(PLAYBACK, World(a + b, []), vs, error, Progress(World(b, a), p.views, p.failed));
  }

  lemma {:induction false} JoinsLogs<S>(w: World<S>, mid: World<S>, last: World<S>, b: seq<Entry>)
    requires w.log <= mid.log && last.log == mid.log + b
    ensures w.log <= last.log && Since(w, last) == Since(w, mid) + b && [] + Since(w, mid) == Since(w, mid)
  {
  }

  /** A step without retries is done after one turn. */
  lemma {:induction false} FirstTurn<S>(hs: Handlers<S>, w: World<S>, v: StepView) returns (x: Exec)
    requires v.def.maxRetries == 0
    ensures RunStep(hs, w, Start(v)) == (Dispatch(hs, w, v.def.Forward()).world, x)
    ensures x == Turn(hs, w, Start(v)).1
  {
    x := Turn(hs, w, Start(v)).1;
  }

  /** Restoration needs its assumption that failed attempts change nothing: an
      attempt that takes effect and then times out is never undone, yet the
      workflow ends COMPENSATED. */
  lemma {:induction false} TimedOutEffectIsKept() returns (hs: Handlers<int>, vs: seq<StepView>)
    ensures AllPending(vs) && forall i :: 0 <= i < |vs| ==> vs[i].def.Compensatable()
    ensures forall i, s, log1, log2 :: 0 <= i < |vs| ==>
      var t := Dispatch(hs, World(s, log1), vs[i].def.Forward());
      Succeeded(t.outcome) ==> Dispatch(hs, World(t.world.state, log2), vs[i].def.Undo()).world.state == s
    ensures var r := Execute(hs, World(0, []), vs, None); r.status == WfCompensated && r.world.state != 0
  {
    var h: Handler<int> := (s, log, action, payload) =>
      if action == "reserve" then Reply(s + 1, Returned(Dict("", false, "")))
      else if action == "release" then Reply(s - 1, Returned(Dict("", false, "")))
      else Reply(s + 10, TimedOut);
    hs := map[Nexus := h];
    var reserve := StepDef("first", Nexus, "reserve", "", Some("release"), "", 0, "30.0");
    var charge := StepDef("second", Nexus, "charge", "", Some("refund"), "", 0, "30.0");
    var first, second := StepView(reserve, Pending, None, None, 0), StepView(charge, Pending, None, None, 0);
    vs := [first, second];
    var w := World(0, []);
    var d1 := Dispatch(hs, w, first.def.Forward());
    var x1 := FirstTurn(hs, w, first);
    assert Prefix(hs, w, vs, 0) == Progress(w, vs, None);
    assert Prefix(hs, w, vs, 1) == Progress(d1.world, [x1.view, second], None);
    var d2 := Dispatch(hs, d1.world, second.def.Forward());
    var x2 := FirstTurn(hs, d1.world, second);
    var us := [x1.view, x2.view];
    assert Prefix(hs, w, vs, 2) == Progress(d2.world, us, Some(1));
    assert EligibleBelow(us, 0) == [];
    assert EligibleBelow(us, 1) == [0];
    assert EligibleBelow(us, 2) == [0];
    var d3 := Dispatch(hs, d2.world, first.def.Undo());
    var vs3 := us[0 := AfterUndo(us[0], d3.outcome)];
    assert CompensateEach(hs, d3.world, vs3, []) == Compensation(d3.world, vs3, true);
    assert CompensateEach(hs, d2.world, us, [0]).world.state == 10 && CompensateEach(hs, d2.world, us, [0]).all;
  }
}
