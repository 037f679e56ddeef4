/** Running the end-to-end suite with retries (ci/e2e/run.py): when does a run count as passed? */
module RunBuild {
  import opened Basics

  datatype TestOutcome = TestOutcome(pass: bool, seconds: int, flaky: bool, notBooted: bool)

  /** A build activity in the log of one `nix build`, with the clock's reading as the line is parsed. */
  datatype LogLine = Start(id: nat, drv: string, time: int) | Stop(id: nat, time: int)

  /** What one attempt brings: nix's status, its log, and afterwards the tests whose output is missing. */
  datatype Attempt = Attempt(status: int, log: seq<LogLine>, missing: seq<string>)

  // -------------------------------------------------------------------- the build log

  datatype LogState = LogState(started: map<nat, (string, int)>, outcomes: map<string, TestOutcome>)

  function ReadLine(s: LogState, line: LogLine, drvs: map<string, string>): LogState
  {
    match line
    case Start(id, drv, time) => if drv in drvs then s.(started := s.started[id := (drvs[drv], time)]) else s
    case Stop(id, time) =>
      if id !in s.started then s
      else
        var (test, start) := s.started[id];
        LogState(s.started - {id}, s.outcomes[test := TestOutcome(true, time - start, false, false)])
  }

  function ReadLog(log: seq<LogLine>, drvs: map<string, string>): LogState
  {
    if log == [] then LogState(map[], map[])
    else ReadLine(ReadLog(log[..|log| - 1], drvs), log[|log| - 1], drvs)
  }

  const NOT_FINISHED := TestOutcome(false, 0, false, false)

  /** The tests with a build under way. */
  function Tests(started: map<nat, (string, int)>): set<string>
  {
    set id | id in started :: started[id].0
  }

  function FailAll(outcomes: map<string, TestOutcome>, tests: set<string>): map<string, TestOutcome>
  {
    (map t | t in tests :: NOT_FINISHED) + outcomes
  }

  /** What the log says of each test: a build that stopped is a pass, one that did not is a failure. */
  function OutcomesOf(log: seq<LogLine>, drvs: map<string, string>): map<string, TestOutcome>
  {
    FailAll(ReadLog(log, drvs).outcomes, Tests(ReadLog(log, drvs).started))
  }

  lemma FailOne(outcomes: map<string, TestOutcome>, tests: set<string>, t: string)
    ensures var sofar := FailAll(outcomes, tests);
      FailAll(outcomes, tests + {t}) == if t in sofar then sofar else sofar[t := NOT_FINISHED]
  {
  }

  /** `setdefault` for every build that never stopped. */
  method FailUnfinished(started: map<nat, (string, int)>, stopped: map<string, TestOutcome>)
    returns (outcomes: map<string, TestOutcome>)
    ensures outcomes == FailAll(stopped, Tests(started))
  {
    var left: set<nat> := started.Keys;
    ghost var done: set<string> := {};
    outcomes := stopped;
    while left != {}
      invariant left <= started.Keys
      invariant done == set id | id in started && id !in left :: started[id].0
      invariant outcomes == FailAll(stopped, done)
    {
      var id :| id in left;
      var test := started[id].0;
      FailOne(stopped, done, test);
      if test !in outcomes {
        outcomes := outcomes[test := NOT_FINISHED];
      }
      left, done := left - {id}, done + {test};
    }
    assert done == Tests(started);
  }

  /** `durations_from_internal_json`. */
  method DurationsFromLog(log: seq<LogLine>, drvs: map<string, string>) returns (outcomes: map<string, TestOutcome>)
    ensures outcomes == OutcomesOf(log, drvs)
  {
    var started: map<nat, (string, int)> := map[];
    outcomes := map[];
    for i := 0 to |log|
      invariant LogState(started, outcomes) == ReadLog(log[..i], drvs)
    {
      assert log[..i + 1][..i] == log[..i];
      match log[i]
      case Start(id, drv, time) =>
        if drv in drvs {
          started := started[id := (drvs[drv], time)];
        }
      case Stop(id, time) =>
        if id in started {
          var (test, start) := started[id];
          started := started - {id};
          outcomes := outcomes[test := TestOutcome(true, time - start, false, false)];
        }
    }
    assert log[..|log|] == log;
    outcomes := FailUnfinished(started, outcomes);
  }

  /** Line `i` starts a build of `test`. */
  ghost predicate Begins(log: seq<LogLine>, drvs: map<string, string>, i: nat, test: string)
    requires i < |log|
  {
    log[i].Start? && log[i].drv in drvs && drvs[log[i].drv] == test
  }

  /** The log shows a build of `test` being started. */
  ghost predicate Started(log: seq<LogLine>, drvs: map<string, string>, test: string)
  {
    exists i: nat :: i < |log| && Begins(log, drvs, i, test)
  }

  /** Line `j` starts another build under the id of line `i`. */
  ghost predicate Reuses(log: seq<LogLine>, drvs: map<string, string>, i: nat, j: nat)
    requires i < |log| && j < |log|
  {
    i < j && log[j].Start? && log[j].drv in drvs && log[j].id == log[i].id
  }

  /** Line `k` stops the build under the id of line `i`. */
  ghost predicate Stops(log: seq<LogLine>, i: nat, k: nat)
    requires i < |log| && k < |log|
  {
    i < k && log[k].Stop? && log[k].id == log[i].id
  }

  /** The id of line `i` is not given to another build before it is stopped. */
  ghost predicate Kept(log: seq<LogLine>, drvs: map<string, string>, i: nat)
    requires i < |log|
  {
    forall j: nat :: j < |log| && Reuses(log, drvs, i, j) ==> exists k: nat :: k < j && Stops(log, i, k)
  }

  /** Line `i` started the build of `test` now under way as `id`. */
  ghost predicate Opens(log: seq<LogLine>, drvs: map<string, string>, i: nat, id: nat, test: string)
    requires i < |log|
  {
    && Begins(log, drvs, i, test) && log[i].id == id
    && forall j: nat :: j < |log| ==> !Reuses(log, drvs, i, j)
  }

  ghost predicate HasOwnBuild(log: seq<LogLine>, drvs: map<string, string>, test: string)
  {
    exists i: nat :: i < |log| && Begins(log, drvs, i, test) && Kept(log, drvs, i)
  }

  lemma SamePrefix(log: seq<LogLine>, drvs: map<string, string>, i: nat)
    requires i < |log| - 1
    ensures var less := log[..|log| - 1];
      && (forall test :: Begins(less, drvs, i, test) <==> Begins(log, drvs, i, test))
      && (forall j: nat :: j < |less| ==> (Reuses(less, drvs, i, j) <==> Reuses(log, drvs, i, j)))
      && (forall k: nat :: k < |less| ==> (Stops(less, i, k) <==> Stops(log, i, k)))
  {
  }

  /** A build whose id was kept is on record: stopped, or still under way. */
  lemma {:induction false} KeptIsOnRecord(log: seq<LogLine>, drvs: map<string, string>, i: nat, test: string)
    requires i < |log| && Begins(log, drvs, i, test) && Kept(log, drvs, i)
    ensures var s := ReadLog(log, drvs);
      || test in s.outcomes
      || (log[i].id in s.started && s.started[log[i].id].0 == test && forall k: nat :: k < |log| ==> !Stops(log, i, k))
  {
    var n := |log| - 1;
    if i < n {
      SamePrefix(log, drvs, i);
      KeptBefore(log, drvs, i);
      KeptIsOnRecord(log[..n], drvs, i, test);
      if test !in ReadLog(log[..n], drvs).outcomes {
        assert !Reuses(log, drvs, i, n);
      }
    }
  }

  lemma KeptBefore(log: seq<LogLine>, drvs: map<string, string>, i: nat)
    requires i < |log| - 1 && Kept(log, drvs, i)
    ensures Kept(log[..|log| - 1], drvs, i)
  {
    var less := log[..|log| - 1];
    SamePrefix(log, drvs, i);
    forall j: nat | j < |less| && Reuses(less, drvs, i, j) ensures exists k: nat :: k < j && Stops(less, i, k) {
      assert Reuses(log, drvs, i, j);
      var k: nat :| k < j && Stops(log, i, k);
      assert Stops(less, i, k);
    }
  }

  /** Whatever is under way was opened by a line whose id is still its own. */
  lemma {:induction false} UnderWayIsOpen(log: seq<LogLine>, drvs: map<string, string>, id: nat) returns (i: nat)
    requires id in ReadLog(log, drvs).started
    ensures i < |log| && Opens(log, drvs, i, id, ReadLog(log, drvs).started[id].0)
  {
    var n := |log| - 1;
    if log[n].Start? && log[n].drv in drvs && log[n].id == id {
      i := n;
    } else {
      i := UnderWayIsOpen(log[..n], drvs, id);
      SamePrefix(log, drvs, i);
    }
  }

  /** Whatever has stopped was started by a line that kept its id, and it stays so. */
  lemma {:induction false} StoppedWasKept(log: seq<LogLine>, drvs: map<string, string>, test: string)
    returns (i: nat, k: nat)
    requires test in ReadLog(log, drvs).outcomes
    ensures i < |log| && k < |log| && Begins(log, drvs, i, test) && Stops(log, i, k)
    ensures forall j: nat :: j < k ==> !Reuses(log, drvs, i, j)
  {
    var n := |log| - 1;
    var before := ReadLog(log[..n], drvs);
    if log[n].Stop? && log[n].id in before.started && before.started[log[n].id].0 == test {
      i := UnderWayIsOpen(log[..n], drvs, log[n].id);
      k := n;
      SamePrefix(log, drvs, i);
    } else {
      i, k := StoppedWasKept(log[..n], drvs, test);
      SamePrefix(log, drvs, i);
    }
  }

  /**
   * A test has an outcome exactly when the log starts a build of it whose id is not given away before it
   * stops; a build whose id is given away is forgotten.
   */
  lemma OutcomeExactlyWhen(log: seq<LogLine>, drvs: map<string, string>, test: string)
    ensures test in OutcomesOf(log, drvs) <==> HasOwnBuild(log, drvs, test)
  {
    var s := ReadLog(log, drvs);
    if test in s.outcomes {
      var i, k := StoppedWasKept(log, drvs, test);
      forall j: nat | j < |log| && Reuses(log, drvs, i, j) ensures exists k: nat :: k < j && Stops(log, i, k) {
        assert k < j && Stops(log, i, k);
      }
      assert Begins(log, drvs, i, test) && Kept(log, drvs, i);
    } else if test in Tests(s.started) {
      var id :| id in s.started && s.started[id].0 == test;
      var i := UnderWayIsOpen(log, drvs, id);
      assert Begins(log, drvs, i, test) && Kept(log, drvs, i);
    }
    if HasOwnBuild(log, drvs, test) {
      var i: nat :| i < |log| && Begins(log, drvs, i, test) && Kept(log, drvs, i);
      KeptIsOnRecord(log, drvs, i, test);
    }
  }

  /** In particular, a test with an outcome had a build activity in that very log. */
  lemma OutcomeMeansActivity(log: seq<LogLine>, drvs: map<string, string>, test: string)
    requires test in OutcomesOf(log, drvs)
    ensures Started(log, drvs, test)
  {
    OutcomeExactlyWhen(log, drvs, test);
    var i: nat :| i < |log| && Begins(log, drvs, i, test) && Kept(log, drvs, i);
  }

  // --------------------------------------------------------------- what a build that stopped says

  /** Line `i` starts a build of `test` that line `k` stops: nothing in between takes or stops its id. */
  ghost predicate BuildOf(log: seq<LogLine>, drvs: map<string, string>, test: string, i: nat, k: nat)
  {
    && i < k < |log| && Begins(log, drvs, i, test) && Stops(log, i, k)
    && forall j: nat :: j < k ==> !Reuses(log, drvs, i, j) && !Stops(log, i, j)
  }

  /** The build of `test` that stops last. */
  ghost predicate LastBuild(log: seq<LogLine>, drvs: map<string, string>, test: string, i: nat, k: nat)
  {
    BuildOf(log, drvs, test, i, k) && forall a: nat, b: nat :: BuildOf(log, drvs, test, a, b) ==> b <= k
  }

  /** Line `i` starts a build of `test` that nothing after it takes the id of or stops. */
  ghost predicate StillOpen(log: seq<LogLine>, drvs: map<string, string>, test: string, i: nat)
  {
    && i < |log| && Begins(log, drvs, i, test)
    && forall j: nat :: j < |log| ==> !Reuses(log, drvs, i, j) && !Stops(log, i, j)
  }

  lemma {:induction false} OpenIsStarted(log: seq<LogLine>, drvs: map<string, string>, test: string, i: nat)
    requires StillOpen(log, drvs, test, i)
    ensures var started := ReadLog(log, drvs).started; log[i].id in started && started[log[i].id] == (test, log[i].time)
  {
    var n := |log| - 1;
    if i < n {
      SamePrefix(log, drvs, i);
      OpenIsStarted(log[..n], drvs, test, i);
      assert !Reuses(log, drvs, i, n) && !Stops(log, i, n);
    }
  }

  lemma {:induction false} StartedIsOpen(log: seq<LogLine>, drvs: map<string, string>, id: nat) returns (i: nat)
    requires id in ReadLog(log, drvs).started
    ensures var (test, time) := ReadLog(log, drvs).started[id];
      StillOpen(log, drvs, test, i) && log[i].id == id && log[i].time == time
  {
    var n := |log| - 1;
    if log[n].Start? && log[n].drv in drvs && log[n].id == id {
      i := n;
    } else {
      i := StartedIsOpen(log[..n], drvs, id);
      SamePrefix(log, drvs, i);
    }
  }

  /** A build that stops with the last line was open before it; any other stopped before. */
  lemma BuildBefore(log: seq<LogLine>, drvs: map<string, string>, test: string, i: nat, k: nat)
    requires log != [] && k < |log| && i < k
    ensures var less := log[..|log| - 1];
      BuildOf(log, drvs, test, i, k) <==>
        if k < |less| then BuildOf(less, drvs, test, i, k) else StillOpen(less, drvs, test, i) && Stops(log, i, k)
  {
    SamePrefix(log, drvs, i);
  }

  /** The last line stops a build of `test`, or the outcome of `test` is what it was. */
  lemma LastLine(log: seq<LogLine>, drvs: map<string, string>, test: string) returns (i: nat)
    requires log != []
    ensures var n := |log| - 1;
      var before, after := ReadLog(log[..n], drvs).outcomes, ReadLog(log, drvs).outcomes;
      && (BuildOf(log, drvs, test, i, n) ==>
            test in after && after[test] == TestOutcome(true, log[n].time - log[i].time, false, false))
      && (!BuildOf(log, drvs, test, i, n) ==>
            && (forall a: nat :: !BuildOf(log, drvs, test, a, n))
            && (test in after <==> test in before) && (test in after ==> after[test] == before[test]))
  {
    var n := |log| - 1;
    var s := ReadLog(log[..n], drvs);
    i := n;
    if log[n].Stop? && log[n].id in s.started && s.started[log[n].id].0 == test {
      i := StartedIsOpen(log[..n], drvs, log[n].id);
      BuildBefore(log, drvs, test, i, n);
    } else {
      forall a: nat ensures !BuildOf(log, drvs, test, a, n) {
        if BuildOf(log, drvs, test, a, n) {
          BuildBefore(log, drvs, test, a, n);
          OpenIsStarted(log[..n], drvs, test, a);
        }
      }
    }
  }

  /** Exactly what the log says of a test with a build that stopped: a pass as long as the one that stopped last. */
  lemma {:induction false} StoppedExactly(log: seq<LogLine>, drvs: map<string, string>, test: string)
    returns (i: nat, k: nat)
    ensures var outcomes := ReadLog(log, drvs).outcomes;
      if test in outcomes
      then LastBuild(log, drvs, test, i, k)
        && outcomes[test] == TestOutcome(true, log[k].time - log[i].time, false, false)
      else forall a: nat, b: nat :: !BuildOf(log, drvs, test, a, b)
  {
    i, k := 0, 0;
    if log != [] {
      var n := |log| - 1;
      i, k := StoppedExactly(log[..n], drvs, test);
      var last := LastLine(log, drvs, test);
      forall a: nat, b: nat | b < n
        ensures BuildOf(log, drvs, test, a, b) <==> BuildOf(log[..n], drvs, test, a, b)
      {
        if a < b {
          BuildBefore(log, drvs, test, a, b);
        }
      }
      if BuildOf(log, drvs, test, last, n) {
        i, k := last, n;
      }
    }
  }

  /** The seconds of a test in a log: those of the build that stopped last, and none without one. */
  ghost predicate IsSeconds(log: seq<LogLine>, drvs: map<string, string>, test: string, seconds: int)
  {
    && (forall i: nat, k: nat :: LastBuild(log, drvs, test, i, k) ==> seconds == log[k].time - log[i].time)
    && ((forall i: nat, k: nat :: !BuildOf(log, drvs, test, i, k)) ==> seconds == 0)
  }

  ghost predicate HasStopped(log: seq<LogLine>, drvs: map<string, string>, test: string)
  {
    exists i: nat, k: nat :: BuildOf(log, drvs, test, i, k)
  }

  /** What the log says of any test it says something of. */
  lemma OutcomeExactly(log: seq<LogLine>, drvs: map<string, string>, test: string)
    ensures test in OutcomesOf(log, drvs) ==>
      var o := OutcomesOf(log, drvs)[test];
      && (o.pass <==> HasStopped(log, drvs, test)) && !o.flaky && !o.notBooted
      && IsSeconds(log, drvs, test, o.seconds)
    ensures test !in OutcomesOf(log, drvs) ==> IsSeconds(log, drvs, test, 0)
  {
    var i, k := StoppedExactly(log, drvs, test);
    if test in ReadLog(log, drvs).outcomes {
      OneLastBuild(log, drvs, test, i, k);
    }
  }

  lemma OneLastBuild(log: seq<LogLine>, drvs: map<string, string>, test: string, i: nat, k: nat)
    requires LastBuild(log, drvs, test, i, k)
    ensures forall a: nat, b: nat :: LastBuild(log, drvs, test, a, b) ==> a == i && b == k
  {
    forall a: nat, b: nat | LastBuild(log, drvs, test, a, b) ensures a == i && b == k {
      assert BuildOf(log, drvs, test, a, b) && b == k;
      assert a < i ==> Reuses(log, drvs, a, i);
      assert i < a ==> Reuses(log, drvs, i, a);
    }
  }

  /** Two builds under one id: the first is forgotten, and its test counts as served from the store. */
  lemma ReusedIdHidesABuild(drvs: map<string, string>)
    requires "a.drv" in drvs && "b.drv" in drvs && drvs["a.drv"] != drvs["b.drv"]
    ensures var log := [Start(1, "a.drv", 0), Start(1, "b.drv", 0)];
      Started(log, drvs, drvs["a.drv"]) && drvs["a.drv"] !in OutcomesOf(log, drvs)
  {
    var log := [Start(1, "a.drv", 0), Start(1, "b.drv", 0)];
    assert Begins(log, drvs, 0, drvs["a.drv"]) && log[..1] == [log[0]] && [log[0]][..0] == [];
    var one := ReadLog([log[0]], drvs);
    assert one == ReadLine(ReadLog([], drvs), log[0], drvs);
    assert one == LogState(map[1 := (drvs["a.drv"], 0)], map[]);
    var two := ReadLog(log, drvs);
    assert two == ReadLine(one, log[1], drvs);
    assert two.started == map[1 := (drvs["b.drv"], 0)];
  }

  // ---------------------------------------------------------------------- the retries

  datatype RunState = RunState(outcomes: map<string, TestOutcome>, served: set<string>, failed: seq<string>)

  /** The derivations an attempt builds: those of the selected tests. */
  function Wanted(drvs: map<string, string>, selected: seq<string>): map<string, string>
  {
    map drv | drv in drvs && drvs[drv] in selected :: drvs[drv]
  }

  function Built(a: Attempt, drvs: map<string, string>, selected: seq<string>): map<string, TestOutcome>
  {
    OutcomesOf(a.log, Wanted(drvs, selected))
  }

  function MarkFailed(outcomes: map<string, TestOutcome>, failed: seq<string>): map<string, TestOutcome>
  {
    outcomes + map t | t in failed ::
      TestOutcome(false, if t in outcomes then outcomes[t].seconds else 0, false, false)
  }

  function FirstState(tests: seq<string>, drvs: map<string, string>, a: Attempt): RunState
  {
    var failed := if a.status != 0 then a.missing else [];
    var outcomes := MarkFailed(Built(a, drvs, tests), failed);
    RunState(outcomes, (set t | t in tests && t !in outcomes), failed)
  }

  function Those(xs: seq<string>, keep: set<string>): (r: seq<string>)
    ensures forall x :: x in r <==> x in xs && x in keep
  {
    if xs == [] then []
    else Those(xs[..|xs| - 1], keep) + if xs[|xs| - 1] in keep then [xs[|xs| - 1]] else []
  }

  function Elements(xs: seq<string>): set<string>
  {
    set x | x in xs
  }

  /** A pass on a retry, with the seconds of that retry. */
  function FlakyPass(built: map<string, TestOutcome>, test: string): TestOutcome
  {
    TestOutcome(true, if test in built then built[test].seconds else 0, true, false)
  }

  /** The given tests passed on a retry. */
  function PassAll(outcomes: map<string, TestOutcome>, built: map<string, TestOutcome>, passed: set<string>)
    : map<string, TestOutcome>
  {
    outcomes + (map t | t in passed :: FlakyPass(built, t))
  }

  /** Those of them that were not built were served. */
  function ServeAll(served: set<string>, built: map<string, TestOutcome>, passed: set<string>): set<string>
  {
    served + (set t | t in passed && t !in built)
  }

  lemma PassOne(
    outcomes: map<string, TestOutcome>, served: set<string>, built: map<string, TestOutcome>, passed: set<string>,
    t: string)
    ensures PassAll(outcomes, built, passed + {t}) == PassAll(outcomes, built, passed)[t := FlakyPass(built, t)]
    ensures ServeAll(served, built, passed + {t}) == ServeAll(served, built, passed) + if t in built then {} else {t}
  {
  }

  lemma OneMore(xs: seq<string>, i: nat, without: set<string>)
    requires i < |xs|
    ensures Elements(xs[..i + 1]) - without == (Elements(xs[..i]) - without) + if xs[i] in without then {} else {xs[i]}
  {
    assert xs[..i + 1] == xs[..i] + [xs[i]];
  }

  /** One retry of the failed tests; nothing happens when there are none. */
  function RetryState(s: RunState, drvs: map<string, string>, a: Attempt): RunState
  {
    if s.failed == [] then s
    else
      var built := Built(a, drvs, s.failed);
      var passed := Elements(s.failed) - Elements(a.missing);
      RunState(
        PassAll(s.outcomes, built, passed), ServeAll(s.served, built, passed),
        Those(s.failed, Elements(a.missing)))
  }

  /** The state after the first attempt and the given retries. */
  function StateAfter(tests: seq<string>, drvs: map<string, string>, first: Attempt, retries: seq<Attempt>): RunState
  {
    if retries == [] then FirstState(tests, drvs, first)
    else
      RetryState(StateAfter(tests, drvs, first, retries[..|retries| - 1]), drvs, retries[|retries| - 1])
  }

  function NotBooted(tests: seq<string>, s: RunState, requireBoot: bool): set<string>
  {
    if requireBoot then set t | t in tests && t in s.served else {}
  }

  /** The outcomes that are reported: with `requireBoot`, a served pass is a failure to boot. */
  function Reported(tests: seq<string>, s: RunState, requireBoot: bool): map<string, TestOutcome>
  {
    s.outcomes + map t | t in NotBooted(tests, s, requireBoot) :: TestOutcome(false, 0, false, true)
  }

  predicate AnyFlaky(outcomes: map<string, TestOutcome>)
  {
    exists t :: t in outcomes && outcomes[t].flaky
  }

  function ExitStatus(tests: seq<string>, s: RunState, status: int, requireBoot: bool): int
  {
    if tests == [] then 0
    else if status != 0 && s.failed == [] && !AnyFlaky(Reported(tests, s, requireBoot)) then status
    else if s.failed != [] || NotBooted(tests, s, requireBoot) != {} then 1
    else 0
  }

  /** The loop over the failed tests of one retry. */
  method Retry(s: RunState, drvs: map<string, string>, a: Attempt) returns (r: RunState)
    requires s.failed != []
    ensures r == RetryState(s, drvs, a)
  {
    var built := DurationsFromLog(a.log, Wanted(drvs, s.failed));
    var stillFailed := Elements(a.missing);
    var outcomes, served := s.outcomes, s.served;
    ghost var passed: set<string> := {};
    for i := 0 to |s.failed|
      invariant passed == Elements(s.failed[..i]) - stillFailed
      invariant outcomes == PassAll(s.outcomes, built, passed) && served == ServeAll(s.served, built, passed)
    {
      var test := s.failed[i];
      OneMore(s.failed, i, stillFailed);
      if test !in stillFailed {
        PassOne(s.outcomes, s.served, built, passed, test);
        passed := passed + {test};
        outcomes := outcomes[test := FlakyPass(built, test)];
        if test !in built {
          served := served + {test};
        }
      }
    }
    assert s.failed[..|s.failed|] == s.failed;
    r := RunState(outcomes, served, Those(s.failed, stillFailed));
  }

  /** `run_build`: build, retry what failed, and judge. */
  method Run(tests: seq<string>, drvs: map<string, string>, first: Attempt, retries: seq<Attempt>, requireBoot: bool)
    returns (code: int, outcomes: map<string, TestOutcome>)
    ensures code == ExitStatus(tests, StateAfter(tests, drvs, first, retries), first.status, requireBoot)
    ensures tests != [] ==> outcomes == Reported(tests, StateAfter(tests, drvs, first, retries), requireBoot)
  {
    if tests == [] {
      return 0, map[];
    }
    var built := DurationsFromLog(first.log, Wanted(drvs, tests));
    var failed := if first.status != 0 then first.missing else [];
    outcomes := MarkFailed(built, failed);
    var s := RunState(outcomes, (set t | t in tests && t !in outcomes), failed);
    for i := 0 to |retries|
      invariant s == StateAfter(tests, drvs, first, retries[..i])
    {
      assert retries[..i + 1][..i] == retries[..i];
      if s.failed == [] {
        StaysDone(tests, drvs, first, retries, i);
        break;
      }
      s := Retry(s, drvs, retries[i]);
    }
    assert retries[..|retries|] == retries;
    outcomes := Reported(tests, s, requireBoot);
    if first.status != 0 && s.failed == [] && !(exists t :: t in outcomes && outcomes[t].flaky) {
      code := first.status;
    } else {
      code := if s.failed != [] || NotBooted(tests, s, requireBoot) != {} then 1 else 0;
    }
  }

  /** Once nothing is failed, the remaining retries change nothing. */
  lemma {:induction false} StaysDone(
    tests: seq<string>, drvs: map<string, string>, first: Attempt, retries: seq<Attempt>, i: nat)
    requires i <= |retries| && StateAfter(tests, drvs, first, retries[..i]).failed == []
    ensures StateAfter(tests, drvs, first, retries) == StateAfter(tests, drvs, first, retries[..i])
    decreases |retries|
  {
    if i == |retries| {
      assert retries[..i] == retries;
    } else {
      var n := |retries| - 1;
      assert retries[..n][..i] == retries[..i];
      StaysDone(tests, drvs, first, retries[..n], i);
    }
  }

  // ------------------------------------------------------------------ what a pass means

  /** The tests attempt `k` set out to build; attempt 0 is the first. */
  ghost function Selected(
    tests: seq<string>, drvs: map<string, string>, first: Attempt, retries: seq<Attempt>, k: nat): seq<string>
    requires k <= |retries|
  {
    if k == 0 then tests else StateAfter(tests, drvs, first, retries[..k - 1]).failed
  }

  ghost function AttemptAt(first: Attempt, retries: seq<Attempt>, k: nat): Attempt
    requires k <= |retries|
  {
    if k == 0 then first else retries[k - 1]
  }

  /** `test` passed in attempt `k`: it was to be built then, and was not failed after it. */
  ghost predicate PassedIn(
    tests: seq<string>, drvs: map<string, string>, first: Attempt, retries: seq<Attempt>, test: string, k: nat)
    requires k <= |retries|
  {
    && test in Selected(tests, drvs, first, retries, k)
    && test !in StateAfter(tests, drvs, first, retries[..k]).failed
  }

  /** The log of attempt `k` shows a build of `test`. */
  ghost predicate BootedIn(
    tests: seq<string>, drvs: map<string, string>, first: Attempt, retries: seq<Attempt>, test: string, k: nat)
    requires k <= |retries|
  {
    Started(AttemptAt(first, retries, k).log, drvs, test)
  }

  /** The log of an attempt counts for the tests it selected only, and for each of them by its derivations. */
  lemma OnlySelectedCount(a: Attempt, drvs: map<string, string>, selected: seq<string>, test: string)
    ensures forall drv, name :: drv in Wanted(drvs, selected) && Wanted(drvs, selected)[drv] == name <==>
      drv in drvs && drvs[drv] == name && name in selected
    ensures test in Built(a, drvs, selected) <==> test in selected && HasOwnBuild(a.log, Wanted(drvs, selected), test)
  {
    var wanted := Wanted(drvs, selected);
    OutcomeExactlyWhen(a.log, wanted, test);
    if HasOwnBuild(a.log, wanted, test) {
      var i: nat :| i < |a.log| && Begins(a.log, wanted, i, test);
      assert wanted[a.log[i].drv] in selected;
    }
  }

  lemma WantedStarted(log: seq<LogLine>, drvs: map<string, string>, selected: seq<string>, test: string)
    requires test in OutcomesOf(log, Wanted(drvs, selected))
    ensures Started(log, drvs, test)
  {
    var wanted := Wanted(drvs, selected);
    OutcomeMeansActivity(log, wanted, test);
    var i: nat :| i < |log| && Begins(log, wanted, i, test);
    assert Begins(log, drvs, i, test);
  }

  /** What a retry makes of a test. */
  lemma RetryStanding(s: RunState, drvs: map<string, string>, a: Attempt, test: string)
    ensures var r := RetryState(s, drvs, a);
      && (test in s.served ==> test in r.served)
      && (test in r.failed ==> test in s.failed)
      && (test in s.failed && test !in r.failed && test !in r.served ==> test in Built(a, drvs, s.failed))
      && (test in s.failed && test !in r.failed && test !in Built(a, drvs, s.failed) ==> test in r.served)
  {
  }

  /** A test is still failed, was served, or passed in attempt `k`, which built it. */
  ghost predicate Standing(
    tests: seq<string>, drvs: map<string, string>, first: Attempt, retries: seq<Attempt>, test: string, k: nat)
    requires k <= |retries|
  {
    var s := StateAfter(tests, drvs, first, retries);
    || test in s.failed || test in s.served
    || (PassedIn(tests, drvs, first, retries, test, k) && BootedIn(tests, drvs, first, retries, test, k))
  }

  lemma FirstStanding(tests: seq<string>, drvs: map<string, string>, first: Attempt, test: string)
    requires test in tests
    ensures Standing(tests, drvs, first, [], test, 0)
  {
    var retries: seq<Attempt> := [];
    var s := StateAfter(tests, drvs, first, retries);
    assert retries[..0] == [];
    if test !in s.failed && test !in s.served {
      WantedStarted(first.log, drvs, tests, test);
    }
  }

  lemma PassedLast(tests: seq<string>, drvs: map<string, string>, first: Attempt, retries: seq<Attempt>, test: string)
    requires retries != []
    requires var before := StateAfter(tests, drvs, first, retries[..|retries| - 1]);
      test in before.failed && test in Built(retries[|retries| - 1], drvs, before.failed)
    requires test !in StateAfter(tests, drvs, first, retries).failed
    ensures PassedIn(tests, drvs, first, retries, test, |retries|)
    ensures BootedIn(tests, drvs, first, retries, test, |retries|)
  {
    var n := |retries| - 1;
    assert retries[..n + 1] == retries;
    WantedStarted(retries[n].log, drvs, StateAfter(tests, drvs, first, retries[..n]).failed, test);
  }

  lemma NextStanding(
    tests: seq<string>, drvs: map<string, string>, first: Attempt, retries: seq<Attempt>, test: string, k: nat)
    returns (next: nat)
    requires retries != [] && k < |retries| && Standing(tests, drvs, first, retries[..|retries| - 1], test, k)
    ensures next <= |retries| && Standing(tests, drvs, first, retries, test, next)
  {
    var n := |retries| - 1;
    var before, s := StateAfter(tests, drvs, first, retries[..n]), StateAfter(tests, drvs, first, retries);
    RetryStanding(before, drvs, retries[n], test);
    next := k;
    if test !in s.failed && test !in s.served {
      if test in before.failed {
        next := n + 1;
        PassedLast(tests, drvs, first, retries, test);
      } else {
        StandingCarries(tests, drvs, first, retries, n, test, k);
      }
    }
  }

  /** Every test has a standing, after any number of retries. */
  lemma {:induction false} EveryTestHasAStanding(
    tests: seq<string>, drvs: map<string, string>, first: Attempt, retries: seq<Attempt>, test: string)
    returns (k: nat)
    requires test in tests
    ensures k <= |retries| && Standing(tests, drvs, first, retries, test, k)
    decreases |retries|
  {
    if retries == [] {
      FirstStanding(tests, drvs, first, test);
      k := 0;
    } else {
      var before := EveryTestHasAStanding(tests, drvs, first, retries[..|retries| - 1], test);
      k := NextStanding(tests, drvs, first, retries, test, before);
    }
  }

  lemma StandingCarries(
    tests: seq<string>, drvs: map<string, string>, first: Attempt, retries: seq<Attempt>, n: nat, test: string, k: nat)
    requires k <= n <= |retries| && PassedIn(tests, drvs, first, retries[..n], test, k)
    ensures PassedIn(tests, drvs, first, retries, test, k)
    ensures BootedIn(tests, drvs, first, retries[..n], test, k) ==> BootedIn(tests, drvs, first, retries, test, k)
  {
    assert retries[..n][..k] == retries[..k];
    if k > 0 {
      assert retries[..n][..k - 1] == retries[..k - 1];
    }
  }

  /** Status 0 of a run that must boot every test: nothing is failed, and each test was built in the very
  attempt that passed it. */
  lemma ZeroMeansBooted(
    tests: seq<string>, drvs: map<string, string>, first: Attempt, retries: seq<Attempt>, test: string)
    returns (k: nat)
    requires test in tests
    requires ExitStatus(tests, StateAfter(tests, drvs, first, retries), first.status, true) == 0
    ensures StateAfter(tests, drvs, first, retries).failed == []
    ensures k <= |retries| && PassedIn(tests, drvs, first, retries, test, k)
    ensures BootedIn(tests, drvs, first, retries, test, k)
  {
    k := EveryTestHasAStanding(tests, drvs, first, retries, test);
    var s := StateAfter(tests, drvs, first, retries);
    assert s.failed == [] && NotBooted(tests, s, true) == {};
    assert test in s.served ==> test in NotBooted(tests, s, true);
  }

  /** A test passed without a build in the attempt that passed it. */
  ghost predicate ServedIn(
    tests: seq<string>, drvs: map<string, string>, first: Attempt, retries: seq<Attempt>, test: string, k: nat)
    requires k <= |retries|
  {
    && PassedIn(tests, drvs, first, retries, test, k)
    && test !in Built(AttemptAt(first, retries, k), drvs, Selected(tests, drvs, first, retries, k))
  }

  lemma {:induction false} ServedStays(
    tests: seq<string>, drvs: map<string, string>, first: Attempt, retries: seq<Attempt>, k: nat, test: string)
    requires k <= |retries| && test in StateAfter(tests, drvs, first, retries[..k]).served
    ensures test in StateAfter(tests, drvs, first, retries).served
    decreases |retries|
  {
    if k == |retries| {
      assert retries[..k] == retries;
    } else {
      var n := |retries| - 1;
      assert retries[..n][..k] == retries[..k];
      ServedStays(tests, drvs, first, retries[..n], k, test);
      RetryStanding(StateAfter(tests, drvs, first, retries[..n]), drvs, retries[n], test);
    }
  }

  /** A pass that was served from the store never leaves a run that must boot every test with status 0. */
  lemma ServedPassFails(
    tests: seq<string>, drvs: map<string, string>, first: Attempt, retries: seq<Attempt>, test: string, k: nat)
    requires test in tests && k <= |retries| && ServedIn(tests, drvs, first, retries, test, k)
    ensures ExitStatus(tests, StateAfter(tests, drvs, first, retries), first.status, true) != 0
  {
    if k == 0 {
      assert retries[..0] == [];
      assert test in StateAfter(tests, drvs, first, retries[..0]).served;
    } else {
      assert retries[..k][..k - 1] == retries[..k - 1] && retries[..k][k - 1] == retries[k - 1];
      assert test in StateAfter(tests, drvs, first, retries[..k]).served;
    }
    ServedStays(tests, drvs, first, retries, k, test);
    var s := StateAfter(tests, drvs, first, retries);
    assert test in NotBooted(tests, s, true);
  }

  /** Status 0 exactly when nothing is failed, nothing had to boot and did not, and nix either reported
  success or had its failure made good by a retry. */
  lemma ZeroExactlyWhen(tests: seq<string>, s: RunState, status: int, requireBoot: bool)
    ensures ExitStatus(tests, s, status, requireBoot) == 0 <==>
      || tests == []
      || (&& s.failed == [] && (requireBoot ==> forall t :: t in tests ==> t !in s.served)
          && (status == 0 || exists t :: t in s.outcomes && s.outcomes[t].flaky))
  {
    var reported := Reported(tests, s, requireBoot);
    if NotBooted(tests, s, requireBoot) == {} {
      assert reported == s.outcomes;
      assert requireBoot ==> forall t :: t in tests && t in s.served ==> t in NotBooted(tests, s, requireBoot);
    }
  }

  // ------------------------------------------------------- what a test that did not boot returns

  ghost predicate Flaky(outcomes: map<string, TestOutcome>, test: string)
  {
    test in outcomes && outcomes[test].flaky
  }

  lemma {:induction false} LogIsNeverFlaky(log: seq<LogLine>, drvs: map<string, string>, test: string)
    ensures !Flaky(ReadLog(log, drvs).outcomes, test)
  {
    if log != [] {
      LogIsNeverFlaky(log[..|log| - 1], drvs, test);
    }
  }

  lemma FirstIsNeverFlaky(tests: seq<string>, drvs: map<string, string>, first: Attempt, test: string)
    ensures !Flaky(FirstState(tests, drvs, first).outcomes, test)
  {
    LogIsNeverFlaky(first.log, Wanted(drvs, tests), test);
  }

  lemma RetryFlaky(s: RunState, drvs: map<string, string>, a: Attempt, test: string)
    ensures var r := RetryState(s, drvs, a);
      Flaky(r.outcomes, test) <==> Flaky(s.outcomes, test) || (test in s.failed && test !in r.failed)
  {
  }

  /** `test` passed in one of the retries. */
  ghost predicate PassedInRetry(
    tests: seq<string>, drvs: map<string, string>, first: Attempt, retries: seq<Attempt>, test: string)
  {
    exists k: nat :: 0 < k <= |retries| && PassedIn(tests, drvs, first, retries, test, k)
  }

  lemma PassedInRetryBefore(
    tests: seq<string>, drvs: map<string, string>, first: Attempt, retries: seq<Attempt>, test: string)
    requires retries != [] && PassedInRetry(tests, drvs, first, retries[..|retries| - 1], test)
    ensures PassedInRetry(tests, drvs, first, retries, test)
  {
    var less := retries[..|retries| - 1];
    var k: nat :| 0 < k <= |less| && PassedIn(tests, drvs, first, less, test, k);
    PassedInPrefix(tests, drvs, first, retries, test, k);
  }

  lemma PassedInRetrySince(
    tests: seq<string>, drvs: map<string, string>, first: Attempt, retries: seq<Attempt>, test: string)
    requires retries != [] && PassedInRetry(tests, drvs, first, retries, test)
    ensures PassedInRetry(tests, drvs, first, retries[..|retries| - 1], test)
         || PassedIn(tests, drvs, first, retries, test, |retries|)
  {
    var k: nat :| 0 < k <= |retries| && PassedIn(tests, drvs, first, retries, test, k);
    if k < |retries| {
      PassedInPrefix(tests, drvs, first, retries, test, k);
    }
  }

  lemma PassedInPrefix(
    tests: seq<string>, drvs: map<string, string>, first: Attempt, retries: seq<Attempt>, test: string, k: nat)
    requires 0 < k < |retries|
    ensures PassedIn(tests, drvs, first, retries, test, k)
       <==> PassedIn(tests, drvs, first, retries[..|retries| - 1], test, k)
  {
    var less := retries[..|retries| - 1];
    assert less[..k] == retries[..k] && less[..k - 1] == retries[..k - 1];
  }

  lemma PassedInLast(
    tests: seq<string>, drvs: map<string, string>, first: Attempt, retries: seq<Attempt>, test: string)
    requires retries != []
    ensures PassedIn(tests, drvs, first, retries, test, |retries|) <==>
      && test in StateAfter(tests, drvs, first, retries[..|retries| - 1]).failed
      && test !in StateAfter(tests, drvs, first, retries).failed
  {
    assert retries[..|retries|] == retries;
  }

  /** A pass is on record as flaky exactly when it came in a retry. */
  lemma {:induction false} FlakyExactlyWhen(
    tests: seq<string>, drvs: map<string, string>, first: Attempt, retries: seq<Attempt>, test: string)
    ensures Flaky(StateAfter(tests, drvs, first, retries).outcomes, test)
       <==> PassedInRetry(tests, drvs, first, retries, test)
    decreases |retries|
  {
    if retries == [] {
      FirstIsNeverFlaky(tests, drvs, first, test);
    } else {
      var n := |retries| - 1;
      FlakyExactlyWhen(tests, drvs, first, retries[..n], test);
      RetryFlaky(StateAfter(tests, drvs, first, retries[..n]), drvs, retries[n], test);
      PassedInLast(tests, drvs, first, retries, test);
      if PassedInRetry(tests, drvs, first, retries[..n], test) {
        PassedInRetryBefore(tests, drvs, first, retries, test);
      }
      if PassedInRetry(tests, drvs, first, retries, test) {
        PassedInRetrySince(tests, drvs, first, retries, test);
      }
    }
  }

  /** With a test that had to boot and did not, the status is the promised 1 exactly when nix reported 0 or 1, a
  test is still failed, or some test that did boot passed in a retry; else it is whatever nix returned. */
  lemma NotBootedGivesOneExactlyWhen(
    tests: seq<string>, drvs: map<string, string>, first: Attempt, retries: seq<Attempt>)
    requires NotBooted(tests, StateAfter(tests, drvs, first, retries), true) != {}
    ensures var s := StateAfter(tests, drvs, first, retries);
      ExitStatus(tests, s, first.status, true) == 1 <==>
        || first.status == 0 || first.status == 1 || s.failed != []
        || exists t :: PassedInRetry(tests, drvs, first, retries, t) && t !in NotBooted(tests, s, true)
  {
    var s := StateAfter(tests, drvs, first, retries);
    var reported := Reported(tests, s, true);
    forall t ensures Flaky(reported, t) <==>
      PassedInRetry(tests, drvs, first, retries, t) && t !in NotBooted(tests, s, true)
    {
      FlakyExactlyWhen(tests, drvs, first, retries, t);
    }
    assert AnyFlaky(reported) <==> exists t :: Flaky(reported, t);
  }

  /** A failed build of a test that was served: the status is nix's own. */
  lemma NotBootedKeepsNixStatus()
    ensures var tests, drvs, first := ["t"], map["t.drv" := "t"], Attempt(7, [], []);
      var s := StateAfter(tests, drvs, first, []);
      NotBooted(tests, s, true) == {"t"} && ExitStatus(tests, s, first.status, true) == 7
  {
    var tests, drvs, first := ["t"], map["t.drv" := "t"], Attempt(7, [], []);
    var s := StateAfter(tests, drvs, first, []);
    assert Built(first, drvs, tests) == map[];
    assert s.outcomes == map[] && tests[0] in s.served;
  }

  // ----------------------------------------------------------- what is reported, test by test

  /** As long as a test has not passed in a retry, its outcome is that of the first attempt. */
  lemma {:induction false} FirstOutcomeStays(
    tests: seq<string>, drvs: map<string, string>, first: Attempt, retries: seq<Attempt>, test: string)
    requires !PassedInRetry(tests, drvs, first, retries, test)
    ensures var was, now := FirstState(tests, drvs, first).outcomes, StateAfter(tests, drvs, first, retries).outcomes;
      (test in now <==> test in was) && (test in now ==> now[test] == was[test])
    decreases |retries|
  {
    if retries != [] {
      var n := |retries| - 1;
      if PassedInRetry(tests, drvs, first, retries[..n], test) {
        PassedInRetryBefore(tests, drvs, first, retries, test);
      }
      FirstOutcomeStays(tests, drvs, first, retries[..n], test);
      PassedInLast(tests, drvs, first, retries, test);
      RetryOutcome(StateAfter(tests, drvs, first, retries[..n]), drvs, retries[n], test);
    }
  }

  lemma RetryOutcome(s: RunState, drvs: map<string, string>, a: Attempt, test: string)
    ensures var r := RetryState(s, drvs, a);
      if test in s.failed && test !in r.failed
      then test in r.outcomes && r.outcomes[test] == FlakyPass(Built(a, drvs, s.failed), test)
      else (test in r.outcomes <==> test in s.outcomes) && (test in r.outcomes ==> r.outcomes[test] == s.outcomes[test])
  {
  }

  /** The test is not failed, and its outcome is `o`. */
  ghost predicate Settled(s: RunState, test: string, o: TestOutcome)
  {
    test !in s.failed && test in s.outcomes && s.outcomes[test] == o
  }

  lemma {:induction false} SettledStays(
    tests: seq<string>, drvs: map<string, string>, first: Attempt, retries: seq<Attempt>, k: nat, test: string,
    o: TestOutcome)
    requires k <= |retries| && Settled(StateAfter(tests, drvs, first, retries[..k]), test, o)
    ensures Settled(StateAfter(tests, drvs, first, retries), test, o)
    decreases |retries|
  {
    if k == |retries| {
      assert retries[..k] == retries;
    } else {
      var n := |retries| - 1;
      assert retries[..n][..k] == retries[..k];
      SettledStays(tests, drvs, first, retries[..n], k, test, o);
      OutcomeKept(StateAfter(tests, drvs, first, retries[..n]), drvs, retries[n], test);
    }
  }

  /** Once a test has passed in a retry, its outcome is that of the retry. */
  lemma RetryOutcomeStays(
    tests: seq<string>, drvs: map<string, string>, first: Attempt, retries: seq<Attempt>, test: string, k: nat)
    requires 0 < k <= |retries| && PassedIn(tests, drvs, first, retries, test, k)
    ensures var built := Built(retries[k - 1], drvs, Selected(tests, drvs, first, retries, k));
      Settled(StateAfter(tests, drvs, first, retries), test, FlakyPass(built, test))
  {
    var upTo := retries[..k];
    assert upTo[..k - 1] == retries[..k - 1] && upTo[k - 1] == retries[k - 1];
    var before := StateAfter(tests, drvs, first, retries[..k - 1]);
    RetryOutcome(before, drvs, retries[k - 1], test);
    SettledStays(tests, drvs, first, retries, k, test, FlakyPass(Built(retries[k - 1], drvs, before.failed), test));
  }

  lemma OutcomeKept(s: RunState, drvs: map<string, string>, a: Attempt, test: string)
    requires test !in s.failed
    ensures var r := RetryState(s, drvs, a);
      && test !in r.failed && (test in s.outcomes ==> test in r.outcomes && r.outcomes[test] == s.outcomes[test])
  {
    RetryStanding(s, drvs, a, test);
    RetryOutcome(s, drvs, a, test);
  }

  /** A test that did not boot is reported as that. */
  lemma ReportedNotBooted(tests: seq<string>, s: RunState, test: string)
    requires test in tests && test in s.served
    ensures test in Reported(tests, s, true) && Reported(tests, s, true)[test] == TestOutcome(false, 0, false, true)
  {
    assert test in NotBooted(tests, s, true);
  }

  /** A test that is still failed is reported as a failure, with the seconds of the first attempt. */
  lemma ReportedFailed(
    tests: seq<string>, drvs: map<string, string>, first: Attempt, retries: seq<Attempt>, requireBoot: bool,
    test: string)
    requires var s := StateAfter(tests, drvs, first, retries);
      test in s.failed && test !in NotBooted(tests, s, requireBoot)
    ensures var reported := Reported(tests, StateAfter(tests, drvs, first, retries), requireBoot);
      && test in reported && !reported[test].pass && !reported[test].flaky && !reported[test].notBooted
      && IsSeconds(first.log, Wanted(drvs, tests), test, reported[test].seconds)
  {
    if PassedInRetry(tests, drvs, first, retries, test) {
      var k: nat :| 0 < k <= |retries| && PassedIn(tests, drvs, first, retries, test, k);
      RetryOutcomeStays(tests, drvs, first, retries, test, k);
      assert false;
    }
    FailedStays(tests, drvs, first, retries, test);
    FirstOutcomeStays(tests, drvs, first, retries, test);
    OutcomeExactly(first.log, Wanted(drvs, tests), test);
  }

  lemma {:induction false} FailedStays(
    tests: seq<string>, drvs: map<string, string>, first: Attempt, retries: seq<Attempt>, test: string)
    requires test in StateAfter(tests, drvs, first, retries).failed
    ensures test in FirstState(tests, drvs, first).failed
    decreases |retries|
  {
    if retries != [] {
      var n := |retries| - 1;
      RetryStanding(StateAfter(tests, drvs, first, retries[..n]), drvs, retries[n], test);
      FailedStays(tests, drvs, first, retries[..n], test);
    }
  }

  /** A test that passed in a retry is reported as a flaky pass, with the seconds of that retry. */
  lemma ReportedFlaky(
    tests: seq<string>, drvs: map<string, string>, first: Attempt, retries: seq<Attempt>, requireBoot: bool,
    test: string, k: nat)
    requires 0 < k <= |retries| && PassedIn(tests, drvs, first, retries, test, k)
    requires test !in NotBooted(tests, StateAfter(tests, drvs, first, retries), requireBoot)
    ensures var reported := Reported(tests, StateAfter(tests, drvs, first, retries), requireBoot);
      && test in reported && reported[test].pass && reported[test].flaky && !reported[test].notBooted
      && IsSeconds(
           retries[k - 1].log, Wanted(drvs, Selected(tests, drvs, first, retries, k)), test, reported[test].seconds)
  {
    RetryOutcomeStays(tests, drvs, first, retries, test, k);
    OutcomeExactly(retries[k - 1].log, Wanted(drvs, Selected(tests, drvs, first, retries, k)), test);
  }

  /** Any other test is reported if the first attempt built it: as a pass if a build of it stopped, with its seconds. */
  lemma ReportedFirst(
    tests: seq<string>, drvs: map<string, string>, first: Attempt, retries: seq<Attempt>, requireBoot: bool,
    test: string)
    requires var s := StateAfter(tests, drvs, first, retries);
      test !in s.failed && test !in NotBooted(tests, s, requireBoot)
    requires !PassedInRetry(tests, drvs, first, retries, test)
    ensures var reported := Reported(tests, StateAfter(tests, drvs, first, retries), requireBoot);
      var wanted := Wanted(drvs, tests);
      && (test in reported <==> HasOwnBuild(first.log, wanted, test))
      && (test in reported ==>
            && (reported[test].pass <==> HasStopped(first.log, wanted, test))
            && !reported[test].flaky && !reported[test].notBooted
            && IsSeconds(first.log, wanted, test, reported[test].seconds))
  {
    NeverFailed(tests, drvs, first, retries, test);
    FirstOutcomeStays(tests, drvs, first, retries, test);
    OutcomeExactly(first.log, Wanted(drvs, tests), test);
    OutcomeExactlyWhen(first.log, Wanted(drvs, tests), test);
  }

  lemma {:induction false} NeverFailed(
    tests: seq<string>, drvs: map<string, string>, first: Attempt, retries: seq<Attempt>, test: string)
    requires test !in StateAfter(tests, drvs, first, retries).failed
    requires !PassedInRetry(tests, drvs, first, retries, test)
    ensures test !in FirstState(tests, drvs, first).failed
    decreases |retries|
  {
    if retries != [] {
      var n := |retries| - 1;
      if PassedInRetry(tests, drvs, first, retries[..n], test) {
        PassedInRetryBefore(tests, drvs, first, retries, test);
      }
      PassedInLast(tests, drvs, first, retries, test);
      NeverFailed(tests, drvs, first, retries[..n], test);
    }
  }

  /** What the status is: 1 for a test that is still failed, 0 or nix's own otherwise. */
  lemma StatusExactly(tests: seq<string>, s: RunState, status: int, requireBoot: bool)
    requires tests != []
    ensures s.failed != [] ==> ExitStatus(tests, s, status, requireBoot) == 1
    ensures s.failed == [] && NotBooted(tests, s, requireBoot) == {} ==>
      ExitStatus(tests, s, status, requireBoot) == if exists t :: Flaky(s.outcomes, t) then 0 else status
  {
    if NotBooted(tests, s, requireBoot) == {} {
      assert Reported(tests, s, requireBoot) == s.outcomes;
      if t :| t in s.outcomes && s.outcomes[t].flaky {
        assert Flaky(s.outcomes, t);
      }
    }
  }
}
