/** The degraded-bot detector of scripts/bot_health_watchdog.py, `detect_degraded_bots`. */
module Watchdog {
  import opened Sequences
  import opened Wrappers

  datatype CheckRun = CheckRun(number: int, name: string, conclusion: Option<string>, summary: string)

  /** `_is_degraded_for_bot`, which may be any test of a bot and a run. */
  type Test = (string, CheckRun) -> bool

  /** The first of one PR's runs that carries the bot's name. */
  function RunOf(bot: string, runs: seq<CheckRun>): (r: Option<CheckRun>)
    ensures r.Some? <==> exists run :: run in runs && run.name == bot
    ensures r.Some? ==>
      exists k :: 0 <= k < |runs| && runs[k] == r.value && r.value.name == bot && EarlierAreOthers(bot, runs, k)
  {
    if runs == [] then None else if runs[0].name == bot then Some(runs[0]) else RunOf(bot, runs[1..])
  }

  ghost predicate EarlierAreOthers(bot: string, runs: seq<CheckRun>, k: nat)
    requires k <= |runs|
  {
    forall j :: 0 <= j < k ==> runs[j].name != bot
  }

  function Evidence(bot: string, runs: seq<CheckRun>): seq<CheckRun> {
    match RunOf(bot, runs)
    case None => []
    case Some(run) => [run]
  }

  /** The bot's run on each PR on which it ran, most recent first. */
  function Ran(bot: string, prs: seq<seq<CheckRun>>): seq<CheckRun> {
    if prs == [] then [] else Ran(bot, prs[..|prs| - 1]) + Evidence(bot, prs[|prs| - 1])
  }

  predicate AllDegraded(test: Test, bot: string, runs: seq<CheckRun>) {
    forall run :: run in runs ==> test(bot, run)
  }

  function Numbers(runs: seq<CheckRun>): (r: seq<int>)
    ensures |r| == |runs| && forall i :: 0 <= i < |r| ==> r[i] == runs[i].number
  {
    if runs == [] then [] else Numbers(runs[..|runs| - 1]) + [runs[|runs| - 1].number]
  }

  /** What the detector decides, from all the bot's runs. */
  predicate IsFlagged(test: Test, bot: string, prs: seq<seq<CheckRun>>, threshold: int) {
    var ran := Ran(bot, prs);
    ran != [] && |ran| >= threshold && AllDegraded(test, bot, ran)
  }

  /** What the two collections hold of one bot. */
  datatype Record = Record(streaking: bool, numbers: Option<seq<int>>)

  function RecordOf(bot: string, streaking: set<string>, findings: map<string, seq<int>>): Record {
    Record(bot in streaking, if bot in findings then Some(findings[bot]) else None)
  }

  /** One bot, one PR. */
  function Next(test: Test, bot: string, runs: seq<CheckRun>, r: Record): Record {
    var run := RunOf(bot, runs);
    if !r.streaking || run.None? then r
    else if test(bot, run.value) then
      r.(numbers := Some((if r.numbers.Some? then r.numbers.value else []) + [run.value.number]))
    else Record(false, None)
  }

  /** The record kept for one bot after the PRs seen so far. */
  ghost predicate Tracks(test: Test, known: set<string>, bot: string, seen: seq<seq<CheckRun>>, r: Record) {
    var ran := Ran(bot, seen);
    && (r.streaking <==> bot in known && AllDegraded(test, bot, ran))
    && r.numbers == if r.streaking && ran != [] then Some(Numbers(ran)) else None
  }

  lemma {:induction false} SeesOneMore(bot: string, prs: seq<seq<CheckRun>>, i: nat)
    requires i < |prs|
    ensures Ran(bot, prs[..i + 1]) == Ran(bot, prs[..i]) + Evidence(bot, prs[i])
    ensures RunOf(bot, prs[i]).Some? ==>
      Numbers(Ran(bot, prs[..i + 1])) == Numbers(Ran(bot, prs[..i])) + [RunOf(bot, prs[i]).value.number]
  {
    assert prs[..i + 1][..i] == prs[..i];
    if RunOf(bot, prs[i]).Some? {
      var ran := Ran(bot, prs[..i + 1]);
      assert ran[..|ran| - 1] == Ran(bot, prs[..i]);
    }
  }

  lemma {:induction false} TracksNext(test: Test, known: set<string>, bot: string, prs: seq<seq<CheckRun>>, i: nat,
                                      r: Record)
    requires i < |prs| && Tracks(test, known, bot, prs[..i], r)
    ensures Tracks(test, known, bot, prs[..i + 1], Next(test, bot, prs[i], r))
  {
    SeesOneMore(bot, prs, i);
    if RunOf(bot, prs[i]).Some? {
      var run, ran, now := RunOf(bot, prs[i]).value, Ran(bot, prs[..i]), Ran(bot, prs[..i + 1]);
      assert now == ran + [run] && now[|ran|] == run;
      assert AllDegraded(test, bot, now) <==> AllDegraded(test, bot, ran) && test(bot, run);
    } else {
      assert Ran(bot, prs[..i + 1]) == Ran(bot, prs[..i]);
    }
  }

  // ---------------------------------------------------------------- the order of the findings

  /** The first PR on which the bot ran. */
  function FirstRan(bot: string, prs: seq<seq<CheckRun>>): (i: nat)
    ensures i <= |prs| && (i < |prs| ==> RunOf(bot, prs[i]).Some?)
    ensures forall j :: 0 <= j < i ==> RunOf(bot, prs[j]).None?
  {
    if prs == [] || RunOf(bot, prs[0]).Some? then 0 else 1 + FirstRan(bot, prs[1..])
  }

  lemma {:induction false} FirstRanIs(bot: string, prs: seq<seq<CheckRun>>, i: nat)
    requires i < |prs| && Ran(bot, prs[..i]) == [] && RunOf(bot, prs[i]).Some?
    ensures FirstRan(bot, prs) == i
  {
    NotRanYet(bot, prs, i);
  }

  lemma {:induction false} NotRanYet(bot: string, prs: seq<seq<CheckRun>>, i: nat)
    requires i <= |prs| && Ran(bot, prs[..i]) == []
    ensures forall j :: 0 <= j < i ==> RunOf(bot, prs[j]).None?
    decreases i
  {
    if i > 0 {
      SeesOneMore(bot, prs, i - 1);
      NotRanYet(bot, prs, i - 1);
    }
  }

  /** The keys of the findings in the order they were put in, which is the order of their
      ranks, none above `n`. */
  ghost predicate Ranked(order: seq<string>, findings: map<string, seq<int>>, rank: string -> nat, n: nat) {
    && (forall bot :: bot in order <==> bot in findings)
    && (forall i, j :: 0 <= i < j < |order| ==> order[i] != order[j] && rank(order[i]) <= rank(order[j]))
    && (forall i :: 0 <= i < |order| ==> rank(order[i]) <= n)
  }

  lemma {:induction false} RankedDrops(order: seq<string>, findings: map<string, seq<int>>, rank: string -> nat, n: nat,
                                       bot: string)
    requires Ranked(order, findings, rank, n)
    ensures Ranked(Without(order, bot), findings - {bot}, rank, n)
    decreases |order|
  {
    WithoutKeeps(order, bot);
    WithoutIsOrdered(order, bot, rank);
    forall x | x in Without(order, bot) ensures x in order && rank(x) <= n {
    }
  }

  lemma {:induction false} WithoutIsOrdered(order: seq<string>, bot: string, rank: string -> nat)
    requires forall i, j :: 0 <= i < j < |order| ==> order[i] != order[j] && rank(order[i]) <= rank(order[j])
    ensures var r := Without(order, bot);
      && (forall x :: x in r ==> x in order)
      && (forall i, j :: 0 <= i < j < |r| ==> r[i] != r[j] && rank(r[i]) <= rank(r[j]))
    decreases |order|
  {
    if order != [] {
      WithoutIsOrdered(order[1..], bot, rank);
      var rest := Without(order[1..], bot);
      forall j | 0 <= j < |rest| ensures order[0] != rest[j] && rank(order[0]) <= rank(rest[j]) {
        assert rest[j] in order[1..];
      }
    }
  }

  datatype Finding = Finding(bot: string, numbers: seq<int>)

  /** The findings long enough, in this order. */
  function Listed(order: seq<string>, findings: map<string, seq<int>>, threshold: int): seq<Finding>
    requires forall bot :: bot in order ==> bot in findings
  {
    if order == [] then []
    else
      (if |findings[order[0]]| >= threshold then [Finding(order[0], findings[order[0]])] else [])
      + Listed(order[1..], findings, threshold)
  }

  lemma {:induction false} ListedIs(order: seq<string>, findings: map<string, seq<int>>, threshold: int,
      rank: string -> nat)
    requires forall bot :: bot in order ==> bot in findings
    requires forall i, j :: 0 <= i < j < |order| ==> order[i] != order[j] && rank(order[i]) <= rank(order[j])
    ensures var r := Listed(order, findings, threshold);
      && (forall f :: f in r <==> f.bot in order && f.numbers == findings[f.bot] && |f.numbers| >= threshold)
      && (forall i, j :: 0 <= i < j < |r| ==> r[i].bot != r[j].bot && rank(r[i].bot) <= rank(r[j].bot))
    decreases |order|
  {
    if order != [] {
      ListedIs(order[1..], findings, threshold, rank);
      var rest := Listed(order[1..], findings, threshold);
      forall j | 0 <= j < |rest| ensures order[0] != rest[j].bot && rank(order[0]) <= rank(rest[j].bot) {
        assert rest[j] in rest && rest[j].bot in order[1..];
      }
    }
  }

  /** The findings, in the order of the first PR each bot ran on. Bots that share it come in any
      order: the source walks a set. */
  method DetectDegradedBots(prs: seq<seq<CheckRun>>, known: set<string>, threshold: int, test: Test)
    returns (flagged: seq<Finding>)
    ensures forall f :: f in flagged <==>
      f.bot in known && IsFlagged(test, f.bot, prs, threshold) && f.numbers == Numbers(Ran(f.bot, prs))
    ensures forall i, j :: 0 <= i < j < |flagged| ==>
      flagged[i].bot != flagged[j].bot && FirstRan(flagged[i].bot, prs) <= FirstRan(flagged[j].bot, prs)
  {
    var findings: map<string, seq<int>> := map[];
    var order: seq<string> := [];
    var streaking := known;
    ghost var rank := (bot: string) => FirstRan(bot, prs);
    for i := 0 to |prs|
      invariant forall bot :: Tracks(test, known, bot, prs[..i], RecordOf(bot, streaking, findings))
      invariant Ranked(order, findings, rank, i)
    {
      ghost var before := (streaking, findings);
      forall bot | bot in streaking && bot !in findings && RunOf(bot, prs[i]).Some? ensures rank(bot) == i {
        assert Tracks(test, known, bot, prs[..i], RecordOf(bot, streaking, findings));
        FirstRanIs(bot, prs, i);
      }
      streaking, findings, order := ReadOne(prs[i], test, streaking, findings, order, rank, i);
      forall bot ensures Tracks(test, known, bot, prs[..i + 1], RecordOf(bot, streaking, findings)) {
        TracksNext(test, known, bot, prs, i, RecordOf(bot, before.0, before.1));
      }
    }
    assert prs[..|prs|] == prs;
    flagged := Listed(order, findings, threshold);
    ListedIs(order, findings, threshold, rank);
    FindingsAreFlagged(test, known, prs, threshold, streaking, findings);
  }

  lemma {:induction false} FindingsAreFlagged(test: Test, known: set<string>, prs: seq<seq<CheckRun>>, threshold: int,
                                              streaking: set<string>, findings: map<string, seq<int>>)
    requires forall bot :: Tracks(test, known, bot, prs, RecordOf(bot, streaking, findings))
    ensures forall bot :: bot in findings && |findings[bot]| >= threshold <==>
      bot in known && IsFlagged(test, bot, prs, threshold)
    ensures forall bot :: bot in findings ==> findings[bot] == Numbers(Ran(bot, prs))
  {
    forall bot
      ensures bot in findings && |findings[bot]| >= threshold <==> bot in known && IsFlagged(test, bot, prs, threshold)
      ensures bot in findings ==> findings[bot] == Numbers(Ran(bot, prs))
    {
      assert Tracks(test, known, bot, prs, RecordOf(bot, streaking, findings));
    }
  }

  /** The inner loop, over the bots still streaking. */
  method ReadOne(runs: seq<CheckRun>, test: Test, streaking0: set<string>, findings0: map<string, seq<int>>,
                 order0: seq<string>, ghost rank: string -> nat, ghost n: nat)
    returns (streaking: set<string>, findings: map<string, seq<int>>, order: seq<string>)
    requires Ranked(order0, findings0, rank, n)
    requires forall bot :: bot in streaking0 && bot !in findings0 && RunOf(bot, runs).Some? ==> rank(bot) == n
    ensures Ranked(order, findings, rank, n + 1)
    ensures forall bot ::
      RecordOf(bot, streaking, findings) == Next(test, bot, runs, RecordOf(bot, streaking0, findings0))
  {
    streaking, findings, order := streaking0, findings0, order0;
    var todo := streaking;
    while todo != {}
      invariant todo <= streaking && Ranked(order, findings, rank, n)
      invariant forall bot ::
        var r := RecordOf(bot, streaking0, findings0);
        RecordOf(bot, streaking, findings) == if bot in todo then r else Next(test, bot, runs, r)
      decreases |todo|
    {
      var bot :| bot in todo;
      todo := todo - {bot};
      streaking, findings, order := ReadBot(bot, runs, test, streaking, findings, order, rank, n);
    }
  }

  /** One turn of the inner loop. */
  method ReadBot(bot: string, runs: seq<CheckRun>, test: Test, streaking0: set<string>,
                 findings0: map<string, seq<int>>, order0: seq<string>, ghost rank: string -> nat, ghost n: nat)
    returns (streaking: set<string>, findings: map<string, seq<int>>, order: seq<string>)
    requires Ranked(order0, findings0, rank, n) && bot in streaking0
    requires bot !in findings0 && RunOf(bot, runs).Some? ==> rank(bot) == n
    ensures Ranked(order, findings, rank, n)
    ensures streaking0 - {bot} <= streaking
    ensures forall b ::
      var r := RecordOf(b, streaking0, findings0);
      RecordOf(b, streaking, findings) == if b == bot then Next(test, b, runs, r) else r
  {
    streaking, findings, order := streaking0, findings0, order0;
    var run := RunOf(bot, runs);
    if run.Some? {
      if test(bot, run.value) {
        if bot !in findings {
          findings, order := findings[bot := []], order + [bot];
        }
        findings := findings[bot := findings[bot] + [run.value.number]];
      } else {
        streaking := streaking - {bot};
        RankedDrops(order, findings, rank, n, bot);
        findings, order := findings - {bot}, Without(order, bot);
      }
    }
  }

  // ---------------------------------------------------------------- what the decision means

  /** The documented rule: the `threshold` most recent runs are all degraded. */
  predicate LeadingStreak(test: Test, bot: string, prs: seq<seq<CheckRun>>, threshold: int) {
    var ran := Ran(bot, prs);
    1 <= |ran| && threshold <= |ran| && AllDegraded(test, bot, ran[..if threshold < 0 then 0 else threshold])
  }

  /** A flagged bot meets the documented rule; one that meets it is flagged exactly
      when no older run was healthy. */
  lemma {:induction false} FlaggedIsStreakAndNoOlderRecovery(test: Test, bot: string, prs: seq<seq<CheckRun>>,
                                                             threshold: int)
    ensures var ran, n := Ran(bot, prs), if threshold < 0 then 0 else threshold;
      IsFlagged(test, bot, prs, threshold) <==>
        LeadingStreak(test, bot, prs, threshold) && AllDegraded(test, bot, ran[n..])
  {
    var ran, n := Ran(bot, prs), if threshold < 0 then 0 else threshold;
    if n <= |ran| {
      forall run | run in ran ensures run in ran[..n] || run in ran[n..] {
        var k :| 0 <= k < |ran| && ran[k] == run;
        assert k < n ==> ran[..n][k] == run;
        assert k >= n ==> ran[n..][k - n] == run;
      }
    }
  }

  lemma {:induction false} RanConcat(bot: string, a: seq<seq<CheckRun>>, b: seq<seq<CheckRun>>)
    ensures Ran(bot, a + b) == Ran(bot, a) + Ran(bot, b)
    decreases |b|
  {
    if b == [] {
      assert a + b == a;
    } else {
      assert (a + b)[..|a + b| - 1] == a + b[..|b| - 1];
      RanConcat(bot, a, b[..|b| - 1]);
    }
  }

  lemma {:induction false} RanWithoutSilent(bot: string, a: seq<seq<CheckRun>>, silent: seq<seq<CheckRun>>,
                                            b: seq<seq<CheckRun>>)
    requires forall runs :: runs in silent ==> RunOf(bot, runs).None?
    ensures Ran(bot, a + silent + b) == Ran(bot, a + b)
  {
    RanConcat(bot, a + silent, b);
    RanConcat(bot, a, silent);
    RanConcat(bot, a, b);
    SilentIsEmpty(bot, silent);
    assert Ran(bot, a) + [] == Ran(bot, a);
  }

  /** PRs on which a bot did not run change nothing for it, wherever they stand. */
  lemma {:induction false} SilentPrsDoNotCount(test: Test, bot: string, a: seq<seq<CheckRun>>,
                                               silent: seq<seq<CheckRun>>, b: seq<seq<CheckRun>>, threshold: int)
    requires forall runs :: runs in silent ==> RunOf(bot, runs).None?
    ensures IsFlagged(test, bot, a + silent + b, threshold) <==> IsFlagged(test, bot, a + b, threshold)
  {
    RanWithoutSilent(bot, a, silent, b);
  }

  lemma {:induction false} SilentIsEmpty(bot: string, silent: seq<seq<CheckRun>>)
    requires forall runs :: runs in silent ==> RunOf(bot, runs).None?
    ensures Ran(bot, silent) == []
    decreases |silent|
  {
    if silent != [] {
      assert silent[|silent| - 1] in silent;
      SilentIsEmpty(bot, silent[..|silent| - 1]);
    }
  }

  /** A run on an older PR can clear a bot but never flag a different streak: adding older PRs
      keeps a bot flagged only if they show it degraded throughout. */
  lemma {:induction false} OlderPrsOnlyClear(test: Test, bot: string, prs: seq<seq<CheckRun>>,
                                             older: seq<seq<CheckRun>>, threshold: int)
    requires IsFlagged(test, bot, prs, threshold)
    ensures IsFlagged(test, bot, prs + older, threshold) <==> AllDegraded(test, bot, Ran(bot, older))
  {
    RanConcat(bot, prs, older);
    assert forall run :: run in Ran(bot, older) ==> run in Ran(bot, prs) + Ran(bot, older);
  }

  /** `at` are the PRs on which the bot ran, and `ran` the first of its runs on each. */
  ghost predicate AreFirstRuns(bot: string, prs: seq<seq<CheckRun>>, at: seq<nat>, ran: seq<CheckRun>) {
    && |at| == |ran| && (forall a, b :: 0 <= a < b < |at| ==> at[a] < at[b])
    && (forall m :: 0 <= m < |at| ==> at[m] < |prs| && IsFirstRun(bot, prs[at[m]], ran[m]))
    && (forall i :: 0 <= i < |prs| && i !in at ==> forall run :: run in prs[i] ==> run.name != bot)
  }

  /** The runs that count, without the detector's own terms: one for each PR on which the bot ran,
      most recent first, and of those on one PR the first. */
  lemma {:induction false} RanIs(bot: string, prs: seq<seq<CheckRun>>) returns (at: seq<nat>)
    ensures AreFirstRuns(bot, prs, at, Ran(bot, prs))
    decreases |prs|
  {
    if prs == [] {
      at := [];
    } else {
      var n := |prs| - 1;
      at := RanIs(bot, prs[..n]);
      assert prs == prs[..n] + [prs[n]];
      OneMorePr(bot, prs[..n], prs[n], at, Ran(bot, prs[..n]));
      if RunOf(bot, prs[n]).Some? { at := at + [n]; }
    }
  }

  lemma {:induction false} OneMorePr(bot: string, prs: seq<seq<CheckRun>>, runs: seq<CheckRun>, at: seq<nat>,
                                     ran: seq<CheckRun>)
    requires AreFirstRuns(bot, prs, at, ran)
    ensures var more := if RunOf(bot, runs).Some? then at + [|prs|] else at;
      AreFirstRuns(bot, prs + [runs], more, ran + Evidence(bot, runs))
  {
    SilentPr(bot, prs, runs, at, ran);
    if RunOf(bot, runs).Some? {
      FirstRunOf(bot, runs);
      CountedPr(bot, prs, runs, at, ran, RunOf(bot, runs).value);
    }
  }

  lemma {:induction false} FirstRunOf(bot: string, runs: seq<CheckRun>)
    requires RunOf(bot, runs).Some?
    ensures IsFirstRun(bot, runs, RunOf(bot, runs).value)
  {
  }

  lemma {:induction false} SilentPr(bot: string, prs: seq<seq<CheckRun>>, runs: seq<CheckRun>, at: seq<nat>,
                                    ran: seq<CheckRun>)
    requires AreFirstRuns(bot, prs, at, ran)
    ensures RunOf(bot, runs).None? ==> AreFirstRuns(bot, prs + [runs], at, ran + [])
  {
    forall m | 0 <= m < |at| ensures IsFirstRun(bot, (prs + [runs])[at[m]], (ran + [])[m]) {
      assert (prs + [runs])[at[m]] == prs[at[m]];
    }
  }

  lemma {:induction false} CountedPr(bot: string, prs: seq<seq<CheckRun>>, runs: seq<CheckRun>, at: seq<nat>,
                                     ran: seq<CheckRun>, run: CheckRun)
    requires AreFirstRuns(bot, prs, at, ran) && IsFirstRun(bot, runs, run)
    ensures AreFirstRuns(bot, prs + [runs], at + [|prs|], ran + [run])
  {
    var all, more := prs + [runs], at + [|prs|];
    forall m | 0 <= m < |more| ensures more[m] < |all| && IsFirstRun(bot, all[more[m]], (ran + [run])[m]) {
      if m < |at| { assert all[more[m]] == prs[at[m]]; }
    }
    forall i: nat | i < |all| && i !in more ensures forall run: CheckRun :: run in all[i] ==> run.name != bot {
      assert more[|at|] == |prs| && i < |prs|;
      assert i !in at && all[i] == prs[i];
    }
  }

  ghost predicate IsFirstRun(bot: string, runs: seq<CheckRun>, run: CheckRun) {
    exists k :: 0 <= k < |runs| && runs[k] == run && run.name == bot && EarlierAreOthers(bot, runs, k)
  }
}
