/** Checking and regenerating the shard weights (ci/e2e/plan.py). */
module Weights {
  import opened Basics
  import opened Names

  const MIN_WEIGHT := 5
  const TIMEOUT_HEADROOM := 2

  /** A value of the weight file: a whole number, or anything else. */
  datatype Raw = Whole(n: int) | NotWhole

  function Seconds(raw: Raw): Option<int>
  {
    if raw.Whole? && raw.n > 0 then Some(raw.n) else None
  }

  // ---------------------------------------------------------------------- validate

  datatype Problem =
    | NotSeconds(test: string)
    | StaleWeight(test: string)
    | Hung(test: string)
    | TooLong(test: string)
    | TooShort(test: string)
    | NoWeight(test: string)

  /** What makes a weight unusable. */
  function ErrorOf(raw: Raw, timeout: Option<int>, test: string): Option<Problem>
  {
    match Seconds(raw)
    case None => Some(NotSeconds(test))
    case Some(value) => if timeout.Some? && value >= timeout.value then Some(Hung(test)) else None
  }

  /** What is untidy about a weight that can be used or has no test. */
  function IssuesOf(raw: Raw, timeout: Option<int>, test: string): seq<Problem>
  {
    match Seconds(raw)
    case None => []
    case Some(value) =>
      if timeout.None? then [StaleWeight(test)]
      else
        (if value < timeout.value && value * TIMEOUT_HEADROOM > timeout.value then [TooLong(test)] else [])
        + (if value < MIN_WEIGHT then [TooShort(test)] else [])
  }

  function TimeoutOf(timeouts: map<string, int>, test: string): Option<int>
  {
    if test in timeouts then Some(timeouts[test]) else None
  }

  ghost predicate IsError(weights: map<string, Raw>, timeouts: map<string, int>, p: Problem)
  {
    p.test in weights && ErrorOf(weights[p.test], TimeoutOf(timeouts, p.test), p.test) == Some(p)
  }

  /** What is untidy about the weight of a test. */
  ghost predicate IsWeightIssue(weights: map<string, Raw>, timeouts: map<string, int>, p: Problem)
  {
    p.test in weights && p in IssuesOf(weights[p.test], TimeoutOf(timeouts, p.test), p.test)
  }

  ghost predicate IsIssue(weights: map<string, Raw>, timeouts: map<string, int>, p: Problem)
  {
    IsWeightIssue(weights, timeouts, p) || (p.NoWeight? && p.test in timeouts && p.test !in weights)
  }

  /** The errors of the given tests, in their order. */
  function ErrorsIn(weights: map<string, Raw>, timeouts: map<string, int>, tests: seq<string>): seq<Problem>
    requires forall t :: t in tests ==> t in weights
  {
    if tests == [] then []
    else
      var last := tests[|tests| - 1];
      var error := ErrorOf(weights[last], TimeoutOf(timeouts, last), last);
      ErrorsIn(weights, timeouts, tests[..|tests| - 1]) + if error.Some? then [error.value] else []
  }

  function IssuesIn(weights: map<string, Raw>, timeouts: map<string, int>, tests: seq<string>): seq<Problem>
    requires forall t :: t in tests ==> t in weights
  {
    if tests == [] then []
    else
      var last := tests[|tests| - 1];
      IssuesIn(weights, timeouts, tests[..|tests| - 1]) + IssuesOf(weights[last], TimeoutOf(timeouts, last), last)
  }

  function NoWeights(tests: seq<string>): (r: seq<Problem>)
    ensures |r| == |tests| && forall i :: 0 <= i < |r| ==> r[i] == NoWeight(tests[i])
  {
    seq(|tests|, i requires 0 <= i < |tests| => NoWeight(tests[i]))
  }

  lemma {:induction false} ErrorsHold(
    weights: map<string, Raw>, timeouts: map<string, int>, tests: seq<string>, p: Problem)
    requires forall t :: t in tests ==> t in weights
    ensures p in ErrorsIn(weights, timeouts, tests) <==> p.test in tests && IsError(weights, timeouts, p)
  {
    if tests != [] {
      ErrorsHold(weights, timeouts, tests[..|tests| - 1], p);
      assert tests == tests[..|tests| - 1] + [tests[|tests| - 1]];
    }
  }

  lemma {:induction false} IssuesHold(
    weights: map<string, Raw>, timeouts: map<string, int>, tests: seq<string>, p: Problem)
    requires forall t :: t in tests ==> t in weights
    ensures p in IssuesIn(weights, timeouts, tests) <==> p.test in tests && IsWeightIssue(weights, timeouts, p)
  {
    if tests != [] {
      IssuesHold(weights, timeouts, tests[..|tests| - 1], p);
      assert tests == tests[..|tests| - 1] + [tests[|tests| - 1]];
      var last := tests[|tests| - 1];
      assert p in IssuesOf(weights[last], TimeoutOf(timeouts, last), last) ==> p.test == last;
    }
  }

  lemma NoWeightsHold(tests: seq<string>, p: Problem)
    ensures p in NoWeights(tests) <==> p.NoWeight? && p.test in tests
  {
    if p.NoWeight? && p.test in tests {
      var i :| 0 <= i < |tests| && tests[i] == p.test;
      assert NoWeights(tests)[i] == p;
    }
  }

  /** The loop over the weights. */
  method CheckWeights(weights: map<string, Raw>, timeouts: map<string, int>)
    returns (errors: seq<Problem>, issues: seq<Problem>)
    ensures errors == ErrorsIn(weights, timeouts, Sorted(weights.Keys))
    ensures issues == IssuesIn(weights, timeouts, Sorted(weights.Keys))
  {
    errors, issues := [], [];
    var order := SortNames(weights.Keys);
    for i := 0 to |order|
      invariant forall t :: t in order[..i] ==> t in weights
      invariant errors == ErrorsIn(weights, timeouts, order[..i])
      invariant issues == IssuesIn(weights, timeouts, order[..i])
    {
      var test := order[i];
      assert test in order && order[..i + 1] == order[..i] + [test];
      var error := ErrorOf(weights[test], TimeoutOf(timeouts, test), test);
      if error.Some? {
        errors := errors + [error.value];
      }
      issues := issues + IssuesOf(weights[test], TimeoutOf(timeouts, test), test);
    }
    assert order[..|order|] == order;
  }

  /** `validate`: what it reports, each once, the weights in sorted order before the tests without one. */
  method Validate(weights: map<string, Raw>, timeouts: map<string, int>)
    returns (errors: seq<Problem>, issues: seq<Problem>)
    ensures errors == ErrorsIn(weights, timeouts, Sorted(weights.Keys))
    ensures issues
         == IssuesIn(weights, timeouts, Sorted(weights.Keys)) + NoWeights(Sorted(timeouts.Keys - weights.Keys))
    ensures forall p :: p in errors <==> IsError(weights, timeouts, p)
    ensures forall p :: p in issues <==> IsIssue(weights, timeouts, p)
  {
    errors, issues := CheckWeights(weights, timeouts);
    var missing := SortNames(timeouts.Keys - weights.Keys);
    for i := 0 to |missing|
      invariant issues == IssuesIn(weights, timeouts, Sorted(weights.Keys)) + NoWeights(missing[..i])
    {
      issues := issues + [NoWeight(missing[i])];
      assert NoWeights(missing[..i + 1]) == NoWeights(missing[..i]) + [NoWeight(missing[i])];
    }
    assert missing[..|missing|] == missing;
    ReportedExactly(weights, timeouts);
  }

  /** The errors are exactly the unusable weights; the issues the untidy ones and the tests without one. */
  lemma ReportedExactly(weights: map<string, Raw>, timeouts: map<string, int>)
    ensures forall p :: p in ErrorsIn(weights, timeouts, Sorted(weights.Keys)) <==> IsError(weights, timeouts, p)
    ensures forall p :: IsIssue(weights, timeouts, p) <==>
      p in IssuesIn(weights, timeouts, Sorted(weights.Keys)) + NoWeights(Sorted(timeouts.Keys - weights.Keys))
  {
    forall p
      ensures p in ErrorsIn(weights, timeouts, Sorted(weights.Keys)) <==> IsError(weights, timeouts, p)
      ensures IsIssue(weights, timeouts, p) <==>
        p in IssuesIn(weights, timeouts, Sorted(weights.Keys)) + NoWeights(Sorted(timeouts.Keys - weights.Keys))
    {
      ErrorsHold(weights, timeouts, Sorted(weights.Keys), p);
      IssuesHold(weights, timeouts, Sorted(weights.Keys), p);
      NoWeightsHold(Sorted(timeouts.Keys - weights.Keys), p);
    }
  }

  /** The weight of a test is `n` positive whole seconds. */
  ghost predicate Weighs(weights: map<string, Raw>, test: string, n: int)
  {
    test in weights && weights[test] == Whole(n) && n >= 1
  }

  /** What is an error: a weight that is no positive whole number, and one that reaches the timeout. */
  lemma ErrorsExactly(weights: map<string, Raw>, timeouts: map<string, int>, p: Problem)
    ensures IsError(weights, timeouts, p) <==>
      match p
      case NotSeconds(test) => test in weights && forall n :: !Weighs(weights, test, n)
      case Hung(test) => test in timeouts && exists n :: Weighs(weights, test, n) && n >= timeouts[test]
      case _ => false
  {
    if p.test in weights && weights[p.test].Whole? {
      assert weights[p.test].n >= 1 <==> Weighs(weights, p.test, weights[p.test].n);
    }
  }

  /** What is an issue: a weight of no leaf test, one over half the timeout but below it, one too short for a boot,
  and a leaf test without one. */
  lemma IssuesExactly(weights: map<string, Raw>, timeouts: map<string, int>, p: Problem)
    ensures IsIssue(weights, timeouts, p) <==>
      match p
      case StaleWeight(test) => test !in timeouts && exists n :: Weighs(weights, test, n)
      case TooLong(test) =>
        test in timeouts && exists n :: Weighs(weights, test, n) && n < timeouts[test] && 2 * n > timeouts[test]
      case TooShort(test) => test in timeouts && exists n :: Weighs(weights, test, n) && n < 5
      case NoWeight(test) => test in timeouts && test !in weights
      case _ => false
  {
    if p.test in weights && weights[p.test].Whole? {
      assert weights[p.test].n >= 1 <==> Weighs(weights, p.test, weights[p.test].n);
    }
  }

  // ------------------------------------------------------------------------- regen

  function UsableWeight(raw: Raw, timeout: int): Option<int>
  {
    match Seconds(raw)
    case None => None
    case Some(value) => if value < MIN_WEIGHT || value * TIMEOUT_HEADROOM > timeout then None else Some(value)
  }

  /** The new weight of a test: its median sample within half its timeout, or its old weight if usable. */
  function NewWeight(weights: map<string, Raw>, samples: map<string, seq<int>>, timeout: int, test: string): Option<int>
  {
    if test in samples && samples[test] != [] then
      var measured, cap := MedianInt(samples[test]), timeout / TIMEOUT_HEADROOM;
      Some(if measured > cap then cap else measured)
    else if test in weights then UsableWeight(weights[test], timeout)
    else None
  }

  function Get(result: map<string, int>, test: string): Option<int>
  {
    if test in result then Some(result[test]) else None
  }

  /** The regenerated weights: each leaf test has its new weight, if any, and nothing else has one. */
  ghost predicate IsRegen(
    weights: map<string, Raw>, samples: map<string, seq<int>>, timeouts: map<string, int>, result: map<string, int>)
  {
    forall test ::
      Get(result, test) == if test in timeouts then NewWeight(weights, samples, timeouts[test], test) else None
  }

  /** The new weights of the given tests. */
  function WeightsIn(
    weights: map<string, Raw>, samples: map<string, seq<int>>, timeouts: map<string, int>, tests: seq<string>)
    : map<string, int>
    requires forall t :: t in tests ==> t in timeouts
  {
    if tests == [] then map[]
    else
      var last := tests[|tests| - 1];
      var before := WeightsIn(weights, samples, timeouts, tests[..|tests| - 1]);
      var next := NewWeight(weights, samples, timeouts[last], last);
      if next.Some? then before[last := next.value] else before
  }

  lemma {:induction false} WeightsInHold(
    weights: map<string, Raw>, samples: map<string, seq<int>>, timeouts: map<string, int>, tests: seq<string>,
    test: string)
    requires forall t :: t in tests ==> t in timeouts
    ensures Get(WeightsIn(weights, samples, timeouts, tests), test)
         == if test in tests then NewWeight(weights, samples, timeouts[test], test) else None
  {
    if tests != [] {
      WeightsInHold(weights, samples, timeouts, tests[..|tests| - 1], test);
      assert tests == tests[..|tests| - 1] + [tests[|tests| - 1]];
    }
  }

  lemma WeightsInIsRegen(
    weights: map<string, Raw>, samples: map<string, seq<int>>, timeouts: map<string, int>, tests: seq<string>)
    requires Sorts(tests, timeouts.Keys)
    ensures IsRegen(weights, samples, timeouts, WeightsIn(weights, samples, timeouts, tests))
  {
    var result := WeightsIn(weights, samples, timeouts, tests);
    forall test ensures
      Get(result, test) == if test in timeouts then NewWeight(weights, samples, timeouts[test], test) else None
    {
      WeightsInHold(weights, samples, timeouts, tests, test);
    }
  }

  /** A judgement call: a median over the cap, an old weight that cannot be kept, no weight at all, and a weight of
  something that is not a leaf test. */
  datatype Note =
    | Clamped(test: string, measured: int, cap: int)
    | OldUnusable(test: string, previous: Raw)
    | NoHistory(test: string)
    | NotALeaf(test: string)

  function NotesOf(weights: map<string, Raw>, samples: map<string, seq<int>>, timeout: int, test: string): seq<Note>
  {
    if test in samples && samples[test] != [] then
      var measured, cap := MedianInt(samples[test]), timeout / TIMEOUT_HEADROOM;
      if measured > cap then [Clamped(test, measured, cap)] else []
    else if test in weights then
      if UsableWeight(weights[test], timeout).Some? then [] else [OldUnusable(test, weights[test])]
    else [NoHistory(test)]
  }

  /** The notes on the given tests, in their order. */
  function NotesIn(
    weights: map<string, Raw>, samples: map<string, seq<int>>, timeouts: map<string, int>, tests: seq<string>)
    : seq<Note>
    requires forall t :: t in tests ==> t in timeouts
  {
    if tests == [] then []
    else
      var last := tests[|tests| - 1];
      NotesIn(weights, samples, timeouts, tests[..|tests| - 1]) + NotesOf(weights, samples, timeouts[last], last)
  }

  function Strays(tests: seq<string>): (r: seq<Note>)
    ensures |r| == |tests| && forall i :: 0 <= i < |r| ==> r[i] == NotALeaf(tests[i])
  {
    seq(|tests|, i requires 0 <= i < |tests| => NotALeaf(tests[i]))
  }

  /** All the notes, in the order they are given. */
  ghost function AllNotes(weights: map<string, Raw>, samples: map<string, seq<int>>, timeouts: map<string, int>)
    : seq<Note>
  {
    NotesIn(weights, samples, timeouts, Sorted(timeouts.Keys)) + Strays(Sorted(weights.Keys - timeouts.Keys))
  }

  /** `regen`. */
  method Regen(weights: map<string, Raw>, samples: map<string, seq<int>>, timeouts: map<string, int>)
    returns (result: map<string, int>, notes: seq<Note>)
    ensures IsRegen(weights, samples, timeouts, result)
    ensures notes == AllNotes(weights, samples, timeouts)
  {
    var order := SortNames(timeouts.Keys);
    result, notes := RegenLeaves(weights, samples, timeouts, order);
    WeightsInIsRegen(weights, samples, timeouts, order);
    var strays := SortNames(weights.Keys - timeouts.Keys);
    for i := 0 to |strays|
      invariant notes == NotesIn(weights, samples, timeouts, order) + Strays(strays[..i])
    {
      notes := notes + [NotALeaf(strays[i])];
      assert Strays(strays[..i + 1]) == Strays(strays[..i]) + [NotALeaf(strays[i])];
    }
    assert strays[..|strays|] == strays;
  }

  /** The loop over the leaf tests. */
  method RegenLeaves(
    weights: map<string, Raw>, samples: map<string, seq<int>>, timeouts: map<string, int>, order: seq<string>)
    returns (result: map<string, int>, notes: seq<Note>)
    requires forall t :: t in order ==> t in timeouts
    ensures result == WeightsIn(weights, samples, timeouts, order)
    ensures notes == NotesIn(weights, samples, timeouts, order)
  {
    result, notes := map[], [];
    for i := 0 to |order|
      invariant forall t :: t in order[..i] ==> t in timeouts
      invariant result == WeightsIn(weights, samples, timeouts, order[..i])
      invariant notes == NotesIn(weights, samples, timeouts, order[..i])
    {
      var test := order[i];
      assert test in order && order[..i + 1] == order[..i] + [test];
      var next, more := RegenOne(weights, samples, timeouts[test], test);
      if next.Some? {
        result := result[test := next.value];
      }
      notes := notes + more;
    }
    assert order[..|order|] == order;
  }

  /** The body of that loop. */
  method RegenOne(weights: map<string, Raw>, samples: map<string, seq<int>>, timeout: int, test: string)
    returns (next: Option<int>, notes: seq<Note>)
    ensures next == NewWeight(weights, samples, timeout, test) && notes == NotesOf(weights, samples, timeout, test)
  {
    next, notes := None, [];
    var cap := timeout / TIMEOUT_HEADROOM;
    if test in samples && samples[test] != [] {
      var measured := MedianInt(samples[test]);
      if measured > cap {
        notes := [Clamped(test, measured, cap)];
        measured := cap;
      }
      next := Some(measured);
    } else if test in weights {
      next := UsableWeight(weights[test], timeout);
      if next.None? {
        notes := [OldUnusable(test, weights[test])];
      }
    } else {
      notes := [NoHistory(test)];
    }
  }

  /** What the new weight is: for a sampled test, the median, or the greatest weight that fits the timeout twice if
  the median does not; for any other, its old weight, if that is at least five seconds and fits twice. */
  lemma RegenExactly(
    weights: map<string, Raw>, samples: map<string, seq<int>>, timeouts: map<string, int>, result: map<string, int>,
    test: string)
    requires IsRegen(weights, samples, timeouts, result)
    ensures test in result ==> test in timeouts
    ensures test in timeouts && HasSamples(samples, test) ==>
      && test in result
      && if 2 * MedianInt(samples[test]) <= timeouts[test] then result[test] == MedianInt(samples[test])
         else 2 * result[test] <= timeouts[test] < 2 * (result[test] + 1)
    ensures test in timeouts && !HasSamples(samples, test) ==> forall n ::
      test in result && result[test] == n <==> Weighs(weights, test, n) && n >= 5 && 2 * n <= timeouts[test]
  {
    assert Get(result, test) == if test in timeouts then NewWeight(weights, samples, timeouts[test], test) else None;
  }

  // ---------------------------------------------------------- every judgement call is noted

  /** The new weight of the test is what was measured, or what it was. */
  ghost predicate Plain(
    weights: map<string, Raw>, samples: map<string, seq<int>>, result: map<string, int>, test: string)
  {
    && test in result
    && if HasSamples(samples, test) then result[test] == MedianInt(samples[test])
       else test in weights && weights[test] == Whole(result[test])
  }

  ghost predicate Noted(notes: seq<Note>, test: string)
  {
    exists i :: 0 <= i < |notes| && notes[i].test == test
  }

  lemma {:induction false} NotesHold(
    weights: map<string, Raw>, samples: map<string, seq<int>>, timeouts: map<string, int>, tests: seq<string>, n: Note)
    requires forall t :: t in tests ==> t in timeouts
    ensures n in NotesIn(weights, samples, timeouts, tests) <==>
      n.test in tests && n in NotesOf(weights, samples, timeouts[n.test], n.test)
  {
    if tests != [] {
      NotesHold(weights, samples, timeouts, tests[..|tests| - 1], n);
      assert tests == tests[..|tests| - 1] + [tests[|tests| - 1]];
      var last := tests[|tests| - 1];
      assert n in NotesOf(weights, samples, timeouts[last], last) ==> n.test == last;
    }
  }

  lemma StraysHold(tests: seq<string>, n: Note)
    ensures n in Strays(tests) <==> n.NotALeaf? && n.test in tests
  {
    if n.NotALeaf? && n.test in tests {
      var i :| 0 <= i < |tests| && tests[i] == n.test;
      assert Strays(tests)[i] == n;
    }
  }

  /** The old weight of a test cannot be kept. */
  ghost predicate CannotKeep(weights: map<string, Raw>, timeout: int, test: string)
  {
    test in weights && forall n :: Weighs(weights, test, n) ==> n < 5 || 2 * n > timeout
  }

  lemma CannotKeepExactly(weights: map<string, Raw>, timeout: int, test: string)
    requires test in weights
    ensures UsableWeight(weights[test], timeout).None? <==> CannotKeep(weights, timeout, test)
  {
    if weights[test].Whole? && weights[test].n >= 1 {
      assert Weighs(weights, test, weights[test].n);
    }
  }

  lemma NotesOfExactly(
    weights: map<string, Raw>, samples: map<string, seq<int>>, timeout: int, test: string, note: Note)
    ensures note in NotesOf(weights, samples, timeout, test) <==>
      match note
      case Clamped(name, measured, cap) =>
        && name == test && HasSamples(samples, test) && measured == MedianInt(samples[test])
        && 2 * cap <= timeout < 2 * (cap + 1) && 2 * measured > timeout
      case OldUnusable(name, previous) =>
        && name == test && !HasSamples(samples, test) && CannotKeep(weights, timeout, test) && weights[test] == previous
      case NoHistory(name) => name == test && !HasSamples(samples, test) && test !in weights
      case NotALeaf(name) => false
  {
    if test in weights {
      CannotKeepExactly(weights, timeout, test);
    }
  }

  /** Exactly which notes there are. */
  lemma NoteExactlyWhen(
    weights: map<string, Raw>, samples: map<string, seq<int>>, timeouts: map<string, int>, note: Note)
    ensures note in AllNotes(weights, samples, timeouts) <==>
      match note
      case Clamped(test, measured, cap) =>
        && test in timeouts && HasSamples(samples, test) && measured == MedianInt(samples[test])
        && 2 * cap <= timeouts[test] < 2 * (cap + 1) && 2 * measured > timeouts[test]
      case OldUnusable(test, previous) =>
        && test in timeouts && !HasSamples(samples, test)
        && CannotKeep(weights, timeouts[test], test) && weights[test] == previous
      case NoHistory(test) => test in timeouts && !HasSamples(samples, test) && test !in weights
      case NotALeaf(test) => test in weights && test !in timeouts
  {
    NotesHold(weights, samples, timeouts, Sorted(timeouts.Keys), note);
    StraysHold(Sorted(weights.Keys - timeouts.Keys), note);
    if note.test in timeouts {
      NotesOfExactly(weights, samples, timeouts[note.test], note.test, note);
    }
  }

  lemma NoteIsNamed(notes: seq<Note>, n: Note)
    requires n in notes
    ensures Noted(notes, n.test)
  {
    var i :| 0 <= i < |notes| && notes[i] == n;
  }

  lemma NotedAmong(
    weights: map<string, Raw>, samples: map<string, seq<int>>, timeouts: map<string, int>, test: string)
    ensures Noted(AllNotes(weights, samples, timeouts), test) <==>
      if test in timeouts then NotesOf(weights, samples, timeouts[test], test) != [] else test in weights
  {
    var notes := AllNotes(weights, samples, timeouts);
    if Noted(notes, test) {
      var i :| 0 <= i < |notes| && notes[i].test == test;
      assert notes[i] in notes;
      NotesHold(weights, samples, timeouts, Sorted(timeouts.Keys), notes[i]);
      StraysHold(Sorted(weights.Keys - timeouts.Keys), notes[i]);
    } else if test in timeouts && NotesOf(weights, samples, timeouts[test], test) != [] {
      var n := NotesOf(weights, samples, timeouts[test], test)[0];
      NotesHold(weights, samples, timeouts, Sorted(timeouts.Keys), n);
      NoteIsNamed(notes, n);
    } else if test !in timeouts && test in weights {
      StraysHold(Sorted(weights.Keys - timeouts.Keys), NotALeaf(test));
      NoteIsNamed(notes, NotALeaf(test));
    }
  }

  /** A test is noted exactly when its weight is neither what was measured nor what it was. */
  lemma NotedExactlyWhen(
    weights: map<string, Raw>, samples: map<string, seq<int>>, timeouts: map<string, int>, result: map<string, int>,
    test: string)
    requires IsRegen(weights, samples, timeouts, result) && (test in timeouts || test in weights)
    ensures Noted(AllNotes(weights, samples, timeouts), test) <==> !Plain(weights, samples, result, test)
  {
    NotedAmong(weights, samples, timeouts, test);
    assert Get(result, test) == if test in timeouts then NewWeight(weights, samples, timeouts[test], test) else None;
  }

  // ------------------------------------------------------------------- the two together

  function AsRaw(result: map<string, int>): map<string, Raw>
  {
    map test | test in result :: Whole(result[test])
  }

  /** Only samples of runs that can have booted a machine are collected. */
  ghost predicate Measured(samples: map<string, seq<int>>)
  {
    forall test, i :: test in samples && 0 <= i < |samples[test]| ==> samples[test][i] >= MIN_WEIGHT
  }

  ghost predicate HasSamples(samples: map<string, seq<int>>, test: string)
  {
    test in samples && samples[test] != []
  }

  /** Nothing to complain about but tests without a weight. */
  ghost predicate Tidy(weights: map<string, Raw>, timeouts: map<string, int>)
  {
    && (forall p :: !IsError(weights, timeouts, p))
    && (forall p :: IsIssue(weights, timeouts, p) ==> p.NoWeight?)
  }

  /** A weight in the range `validate` asks for. */
  predicate InRange(value: int, timeout: int)
  {
    MIN_WEIGHT <= value && value * TIMEOUT_HEADROOM <= timeout
  }

  lemma NewWeightInRange(weights: map<string, Raw>, samples: map<string, seq<int>>, timeout: int, test: string)
    requires Measured(samples) && NewWeight(weights, samples, timeout, test).Some?
    ensures InRange(NewWeight(weights, samples, timeout, test).value, timeout)
       <==> (HasSamples(samples, test) ==> timeout >= TIMEOUT_HEADROOM * MIN_WEIGHT)
  {
    if HasSamples(samples, test) {
      MedianAtLeast(samples[test], MIN_WEIGHT);
    }
  }

  lemma TidyExactlyWhenInRange(result: map<string, int>, timeouts: map<string, int>)
    requires forall test :: test in result ==> test in timeouts
    ensures Tidy(AsRaw(result), timeouts) <==> forall test :: test in result ==> InRange(result[test], timeouts[test])
  {
    var raws := AsRaw(result);
    if Tidy(raws, timeouts) {
      forall test | test in result ensures InRange(result[test], timeouts[test]) {
        assert !IsError(raws, timeouts, NotSeconds(test)) && !IsError(raws, timeouts, Hung(test));
        assert !IsIssue(raws, timeouts, TooLong(test)) && !IsIssue(raws, timeouts, TooShort(test));
      }
    }
  }

  /** Room for the least weight under half the timeout of every sampled test. */
  ghost predicate SampledTestsHaveRoom(samples: map<string, seq<int>>, timeouts: map<string, int>)
  {
    forall test :: test in timeouts && HasSamples(samples, test) ==> timeouts[test] >= TIMEOUT_HEADROOM * MIN_WEIGHT
  }

  /** A regenerated file passes its own check exactly when every sampled test has room for the least weight. */
  lemma RegenIsTidyExactlyWhen(
    weights: map<string, Raw>, samples: map<string, seq<int>>, timeouts: map<string, int>, result: map<string, int>)
    requires IsRegen(weights, samples, timeouts, result) && Measured(samples)
    ensures Tidy(AsRaw(result), timeouts) <==> SampledTestsHaveRoom(samples, timeouts)
  {
    forall test | test in result ensures test in timeouts {
      assert Get(result, test).Some?;
    }
    TidyExactlyWhenInRange(result, timeouts);
    forall test | test in result
      ensures InRange(result[test], timeouts[test])
         <==> (HasSamples(samples, test) ==> timeouts[test] >= TIMEOUT_HEADROOM * MIN_WEIGHT)
    {
      RegenInRange(weights, samples, timeouts, result, test);
    }
    forall test | test in timeouts && HasSamples(samples, test) ensures test in result {
      assert Get(result, test).Some?;
    }
  }

  lemma RegenInRange(
    weights: map<string, Raw>, samples: map<string, seq<int>>, timeouts: map<string, int>, result: map<string, int>,
    test: string)
    requires IsRegen(weights, samples, timeouts, result) && Measured(samples) && test in result
    ensures test in timeouts
    ensures InRange(result[test], timeouts[test])
       <==> (HasSamples(samples, test) ==> timeouts[test] >= TIMEOUT_HEADROOM * MIN_WEIGHT)
  {
    assert Get(result, test).Some?;
    NewWeightInRange(weights, samples, timeouts[test], test);
  }

  lemma RegenUnique(
    weights: map<string, Raw>, samples: map<string, seq<int>>, timeouts: map<string, int>,
    one: map<string, int>, two: map<string, int>)
    requires IsRegen(weights, samples, timeouts, one) && IsRegen(weights, samples, timeouts, two)
    ensures one == two
  {
    forall test ensures Get(one, test) == Get(two, test) {
    }
    SameEntries(one, two);
  }

  lemma SameEntries(one: map<string, int>, two: map<string, int>)
    requires forall test :: Get(one, test) == Get(two, test)
    ensures one == two
  {
    assert forall test :: test in one ==> Get(one, test).Some?;
    assert forall test :: test in two ==> Get(two, test).Some?;
  }

  lemma InRangeStays(result: map<string, int>, timeout: int, test: string)
    requires test in result
    ensures NewWeight(AsRaw(result), map[], timeout, test)
         == if InRange(result[test], timeout) then Some(result[test]) else None
  {
  }

  /** Regenerating without new samples leaves a regenerated file as it is under that same condition, and only then. */
  lemma RegenIsStableExactlyWhen(
    weights: map<string, Raw>, samples: map<string, seq<int>>, timeouts: map<string, int>,
    result: map<string, int>, again: map<string, int>)
    requires IsRegen(weights, samples, timeouts, result) && Measured(samples)
    requires IsRegen(AsRaw(result), map[], timeouts, again)
    ensures again == result <==> SampledTestsHaveRoom(samples, timeouts)
  {
    if SampledTestsHaveRoom(samples, timeouts) {
      RegenStays(weights, samples, timeouts, result, again);
    } else {
      var test :| test in timeouts && HasSamples(samples, test) && timeouts[test] < TIMEOUT_HEADROOM * MIN_WEIGHT;
      assert Get(result, test).Some?;
      RegenInRange(weights, samples, timeouts, result, test);
      InRangeStays(result, timeouts[test], test);
      assert Get(again, test).None?;
    }
  }

  lemma RegenStays(
    weights: map<string, Raw>, samples: map<string, seq<int>>, timeouts: map<string, int>,
    result: map<string, int>, again: map<string, int>)
    requires IsRegen(weights, samples, timeouts, result) && Measured(samples)
    requires SampledTestsHaveRoom(samples, timeouts)
    requires IsRegen(AsRaw(result), map[], timeouts, again)
    ensures again == result
  {
    forall test
      ensures Get(result, test)
           == if test in timeouts then NewWeight(AsRaw(result), map[], timeouts[test], test) else None
    {
      if test in timeouts && Get(result, test).Some? {
        RegenInRange(weights, samples, timeouts, result, test);
        InRangeStays(result, timeouts[test], test);
      }
    }
    RegenUnique(AsRaw(result), map[], timeouts, result, again);
  }

  /** Eight seconds are no room: five measured seconds are clamped to four, which `validate` calls too short, and
  the next regeneration drops them. */
  lemma ShortTimeoutIsUntidy()
    ensures var samples, timeouts, result := map["t" := [5]], map["t" := 8], map["t" := 4];
      && Measured(samples) && IsRegen(map[], samples, timeouts, result)
      && !Tidy(AsRaw(result), timeouts) && IsIssue(AsRaw(result), timeouts, TooShort("t"))
      && IsRegen(AsRaw(result), map[], timeouts, map[])
  {
    var samples, timeouts, result := map["t" := [5]], map["t" := 8], map["t" := 4];
    assert MedianInt(samples["t"]) == 5;
    assert TooShort("t") in IssuesOf(Whole(4), Some(8), "t");
    assert IsIssue(AsRaw(result), timeouts, TooShort("t"));
  }
}
