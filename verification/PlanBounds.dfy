/** What the shard planner's splits guarantee, whatever tests and weights go in. */
module PlanBounds {
  import opened Basics
  import opened Loads
  import opened Graham
  import opened Plan

  ghost predicate NonNegativeWeights(weights: map<string, int>)
  {
    forall k :: k in weights ==> 0 <= weights[k]
  }

  lemma PlanWeightsNonNegative(tests: seq<string>, weights: map<string, int>)
    requires NonNegativeWeights(weights)
    ensures NonNegative(PlanWeights(tests, weights))
  {
    if weights != map[] {
      ValuesNonNegative(weights);
      MedianAtLeast(ValuesOf(weights), 0);
    }
  }

  lemma AssignmentOnShards(tests: seq<string>, weights: map<string, int>, m: nat)
    requires m > 0
    ensures OnMachines(Assignment(tests, weights, m), m)
  {
  }

  // -------------------------------------------------------------- partition

  /** The jobs of the machines below `m`, machine by machine. */
  ghost function PickedUpTo<T>(xs: seq<T>, f: seq<nat>, m: nat): multiset<T>
    requires |xs| == |f|
  {
    if m == 0 then multiset{} else PickedUpTo(xs, f, m - 1) + multiset(Picked(xs, f, m - 1))
  }

  lemma {:induction false} FlattenIsPickedUpTo<T>(xs: seq<T>, f: seq<nat>, shards: seq<seq<T>>)
    requires |xs| == |f|
    requires forall s: nat :: s < |shards| ==> shards[s] == Picked(xs, f, s)
    ensures multiset(Flatten(shards)) == PickedUpTo(xs, f, |shards|)
  {
    if shards != [] {
      FlattenIsPickedUpTo(xs, f, shards[..|shards| - 1]);
    }
  }

  lemma {:induction false} PickedUpToLast<T>(xs: seq<T>, f: seq<nat>, m: nat)
    requires |xs| == |f| > 0
    ensures PickedUpTo(xs, f, m)
         == PickedUpTo(xs[..|xs| - 1], f[..|f| - 1], m) + Just(xs[|xs| - 1], f[|f| - 1] < m)
  {
    if m > 0 {
      PickedUpToLast(xs, f, m - 1);
      PickedLast(xs, f, m - 1);
    }
  }

  lemma {:induction false} NothingPicked<T>(xs: seq<T>, f: seq<nat>, m: nat)
    requires |xs| == |f| == 0
    ensures PickedUpTo(xs, f, m) == multiset{}
  {
    if m > 0 {
      NothingPicked(xs, f, m - 1);
    }
  }

  lemma {:induction false} PickedUpToAll<T>(xs: seq<T>, f: seq<nat>, m: nat)
    requires |xs| == |f| && OnMachines(f, m)
    ensures PickedUpTo(xs, f, m) == multiset(xs)
    decreases |xs|
  {
    if |xs| == 0 {
      NothingPicked(xs, f, m);
    } else {
      PickedUpToAll(xs[..|xs| - 1], f[..|f| - 1], m);
      PickedUpToLast(xs, f, m);
      BagSnoc(xs);
    }
  }

  lemma BagSnoc<T>(xs: seq<T>)
    requires xs != []
    ensures multiset(xs) == multiset(xs[..|xs| - 1]) + multiset{xs[|xs| - 1]}
  {
    assert xs == xs[..|xs| - 1] + [xs[|xs| - 1]];
  }

  /** Every test runs on exactly one shard, and the loads account for every weight. */
  lemma EveryTestOnce(tests: seq<string>, weights: map<string, int>, m: nat)
    requires m > 0
    ensures var w := PlanWeights(tests, weights);
      var split := SplitBy(tests, w, Assignment(tests, weights, m), m);
      multiset(Flatten(split.shards)) == multiset(tests) && Total(split.loads) == Total(w)
  {
    var w, f := PlanWeights(tests, weights), Assignment(tests, weights, m);
    AssignmentOnShards(tests, weights, m);
    var split := SplitBy(tests, w, f, m);
    FlattenIsPickedUpTo(tests, f, split.shards);
    PickedUpToAll(tests, f, m);
    LoadsAddUp(w, f, m);
    TotalOfLoads(w, f, m);
  }

  lemma {:induction false} TotalOfLoads(w: seq<int>, f: seq<nat>, m: nat)
    requires |w| == |f|
    ensures Total(LoadsOf(w, f, m)) == LoadsUpTo(w, f, m)
  {
    if m > 0 {
      TotalOfLoads(w, f, m - 1);
      assert LoadsOf(w, f, m)[..m - 1] == LoadsOf(w, f, m - 1);
    }
  }

  // ----------------------------------------------------------------- bounds

  /** The pieces every bound needs: the deal behind an assignment, in placing order. */
  lemma DealBehind(tests: seq<string>, weights: map<string, int>, m: nat, s: nat)
    returns (order: seq<nat>, p: seq<int>, t: seq<nat>)
    requires m > 0 && weights != map[] && NonNegativeWeights(weights)
    ensures IsPermutation(order, |tests|) && IndexesInto(order, |tests|)
    ensures p == Gather(PlanWeights(tests, weights), order) && |t| == |p| == |tests|
    ensures NonNegative(p) && NonIncreasing(p) && Greedy(p, t, m) && t == Deal(p, m)
    ensures LoadOn(p, t, s) == LoadOn(PlanWeights(tests, weights), Assignment(tests, weights, m), s)
    ensures Assignment(tests, weights, m) == AssignmentOf(order, t)
  {
    var w := PlanWeights(tests, weights);
    order := LptOrder(w);
    OrderUpToSorts(w, |w|);
    PermutationIndexes(order, |w|);
    PlanWeightsNonNegative(tests, weights);
    p := Gather(w, order);
    t := Deal(p, m);
    DealGreedy(p, m);
    LoadOfAssignment(w, order, t, s);
    PlacedHeaviestFirst(w, order);
  }

  lemma PlacedHeaviestFirst(w: seq<int>, order: seq<nat>)
    requires InOrder(w, order)
    ensures NonIncreasing(Gather(w, order))
    ensures NonNegative(w) ==> NonNegative(Gather(w, order))
  {
  }

  /** The heaviest shard is within 4/3 - 1/(3m) of the heaviest shard of any split into m shards. */
  lemma AllocateWithinFourThirds(
    tests: seq<string>, weights: map<string, int>, m: nat, other: seq<nat>, best: int, s: nat)
    requires m > 0 && NonNegativeWeights(weights)
    requires |other| == |tests| && Within(PlanWeights(tests, weights), other, m, best)
    ensures 3 * m * LoadOn(PlanWeights(tests, weights), Assignment(tests, weights, m), s) <= (4 * m - 1) * best
  {
    if weights == map[] {
      NoLoad(|tests|, Assignment(tests, weights, m), s);
      NoLoad(|tests|, other, 0);
      NoWorse(m, 0, best);
      return;
    }
    var order, p, t := DealBehind(tests, weights, m, s);
    WithinReordered(PlanWeights(tests, weights), other, order, m, best);
    LongestFirstBound(p, t, m, Gather(other, order), best, s);
  }

  lemma WithinReordered(w: seq<int>, f: seq<nat>, order: seq<nat>, m: nat, best: int)
    requires |w| == |f| && IsPermutation(order, |w|) && Within(w, f, m, best)
    ensures IndexesInto(order, |w|) && Within(Gather(w, order), Gather(f, order), m, best)
  {
    PermutationIndexes(order, |w|);
    var p, u := Gather(w, order), Gather(f, order);
    forall z: nat | z < m ensures LoadOn(p, u, z) <= best {
      LoadInOrder(w, f, order, z);
    }
  }

  lemma {:induction false} SameLoadsUpTo(p: seq<int>, t: seq<nat>, w: seq<int>, f: seq<nat>, m: nat)
    requires |p| == |t| && |w| == |f|
    requires forall s: nat :: s < m ==> LoadOn(p, t, s) == LoadOn(w, f, s)
    ensures LoadsUpTo(p, t, m) == LoadsUpTo(w, f, m)
  {
    if m > 0 {
      SameLoadsUpTo(p, t, w, f, m - 1);
    }
  }

  lemma TotalOfDeal(w: seq<int>, f: seq<nat>, order: seq<nat>, m: nat)
    requires |w| == |f| && IsPermutation(order, |w|) && OnMachines(f, m)
    ensures IndexesInto(order, |w|) && Total(Gather(w, order)) == Total(w)
  {
    PermutationIndexes(order, |w|);
    var p, t := Gather(w, order), Gather(f, order);
    forall s: nat | s < m ensures LoadOn(p, t, s) == LoadOn(w, f, s) {
      LoadInOrder(w, f, order, s);
    }
    SameLoadsUpTo(p, t, w, f, m);
    LoadsAddUp(p, t, m);
    LoadsAddUp(w, f, m);
  }

  /** No shard exceeds the average by a whole longest test. */
  lemma AllocateNearAverage(tests: seq<string>, weights: map<string, int>, m: nat, longest: int, s: nat)
    requires m > 0 && NonNegativeWeights(weights)
    requires 0 <= longest && forall i :: 0 <= i < |tests| ==> PlanWeights(tests, weights)[i] <= longest
    ensures m * LoadOn(PlanWeights(tests, weights), Assignment(tests, weights, m), s)
         <= Total(PlanWeights(tests, weights)) + (m - 1) * longest
  {
    if weights == map[] {
      NoWeightNoLoad(tests, weights, m, s);
      Scale(m - 1, 0, longest);
    } else {
      DealNearAverage(tests, weights, m, longest, s);
    }
  }

  lemma DealNearAverage(tests: seq<string>, weights: map<string, int>, m: nat, longest: int, s: nat)
    requires m > 0 && weights != map[] && NonNegativeWeights(weights)
    requires 0 <= longest && forall i :: 0 <= i < |tests| ==> PlanWeights(tests, weights)[i] <= longest
    ensures m * LoadOn(PlanWeights(tests, weights), Assignment(tests, weights, m), s)
         <= Total(PlanWeights(tests, weights)) + (m - 1) * longest
  {
    var order, p, t := DealBehind(tests, weights, m, s);
    ListSchedulingBound(p, t, m, s, longest);
    AssignmentOnShards(tests, weights, m);
    TotalOfDeal(PlanWeights(tests, weights), Assignment(tests, weights, m), order, m);
  }

  lemma NoWeightNoLoad(tests: seq<string>, weights: map<string, int>, m: nat, s: nat)
    requires m > 0 && weights == map[]
    ensures LoadOn(PlanWeights(tests, weights), Assignment(tests, weights, m), s) == 0
    ensures Total(PlanWeights(tests, weights)) == 0
  {
    NoLoad(|tests|, Assignment(tests, weights, m), s);
    TotalZero(|tests|);
  }

  lemma {:induction false} TotalZero(n: nat)
    ensures Total(seq(n, i => 0)) == 0
  {
    if n > 0 {
      TotalZero(n - 1);
      assert seq(n, i => 0)[..n - 1] == seq(n - 1, i => 0);
    }
  }

  // ------------------------------------------------------- the rule, in the planner's own terms

  /** The weights of the tests: each its weight in the file, or the default if it has none there. */
  ghost predicate WeighsAs(w: seq<int>, tests: seq<string>, weights: map<string, int>)
    requires weights != map[]
  {
    && |w| == |tests|
    && forall i :: 0 <= i < |tests| ==>
         && (tests[i] in weights ==> w[i] == weights[tests[i]])
         && (tests[i] !in weights ==> w[i] == DefaultWeight(weights))
  }

  lemma WeighsAsPlanned(w: seq<int>, tests: seq<string>, weights: map<string, int>)
    requires weights != map[] && WeighsAs(w, tests, weights)
    ensures w == PlanWeights(tests, weights)
  {
  }

  /** When the test at `order[k]` is placed, its shard comes before shard `s`: it is lighter, or as light with fewer
  tests, or as light with as few and no later. */
  ghost predicate ComesFirst(w: seq<int>, order: seq<nat>, f: seq<nat>, k: nat, s: nat)
    requires |w| == |f| && IndexesInto(order, |w|) && k < |order|
  {
    var placed, shard := order[..k], f[order[k]];
    var load := (x: nat) => LoadOn(Gather(w, placed), Gather(f, placed), x);
    var count := (x: nat) => |Picked(placed, Gather(f, placed), x)|;
    || load(shard) < load(s)
    || (load(shard) == load(s) && count(shard) < count(s))
    || (load(shard) == load(s) && count(shard) == count(s) && shard <= s)
  }

  /** The tests are placed in the order given, heaviest first and the earlier one first among equals, each on the
  first of the lightest shards. */
  ghost predicate PlacedByRule(w: seq<int>, order: seq<nat>, f: seq<nat>, m: nat)
    requires |w| == |f|
  {
    && IsPermutation(order, |w|) && IndexesInto(order, |w|) && OnMachines(f, m)
    && (forall i, j :: 0 <= i < j < |order| ==>
          w[order[i]] > w[order[j]] || (w[order[i]] == w[order[j]] && order[i] < order[j]))
    && forall k: nat, s: nat :: k < |order| && s < m ==> ComesFirst(w, order, f, k, s)
  }

  lemma AllocateFollowsRule(tests: seq<string>, weights: map<string, int>, m: nat, w: seq<int>)
    returns (order: seq<nat>)
    requires m > 0 && weights != map[] && WeighsAs(w, tests, weights)
    ensures PlacedByRule(w, order, Assignment(tests, weights, m), m)
  {
    WeighsAsPlanned(w, tests, weights);
    AssignmentOnShards(tests, weights, m);
    order := LptOrder(w);
    OrderUpToSorts(w, |w|);
    PermutationIndexes(order, |w|);
    var f := Assignment(tests, weights, m);
    forall i, j | 0 <= i < j < |order|
      ensures w[order[i]] > w[order[j]] || (w[order[i]] == w[order[j]] && order[i] < order[j])
    {
      assert Sooner(w, order[i], order[j]);
    }
    forall k: nat, s: nat | k < |order| && s < m ensures ComesFirst(w, order, f, k, s) {
      PlacedOnFirst(w, order, f, m, k, s);
    }
  }

  lemma PlacedOnFirst(w: seq<int>, order: seq<nat>, f: seq<nat>, m: nat, k: nat, s: nat)
    requires |w| == |f| == |order| && IndexesInto(order, |w|) && s < m && k < |order|
    requires Gather(f, order) == Deal(Gather(w, order), m)
    ensures ComesFirst(w, order, f, k, s)
  {
    var p, placed := Gather(w, order), order[..k];
    var t := Deal(p, m);
    DealStep(p, m, k);
    assert Gather(w, placed) == p[..k] && Gather(f, placed) == t[..k];
    var loads, counts := LoadsOf(p[..k], t[..k], m), CountsOf(t[..k], m);
    assert t[k] == Lightest(loads, counts) && f[order[k]] == t[k];
    assert Preferred(loads, counts, t[k], s);
    PickedCount(placed, t[..k], t[k]);
    PickedCount(placed, t[..k], s);
  }

  /** Without weights, test `i` goes to shard `i` modulo the count. */
  lemma UnweightedIsRoundRobin(tests: seq<string>, m: nat, i: nat)
    requires m > 0 && i < |tests|
    ensures Assignment(tests, map[], m)[i] == i % m
  {
  }

  /** The bound in terms of the weight file: 3m times what the tests of a shard weigh is at most 4m - 1 times the
  heaviest shard of any rival assignment. */
  lemma AllocateNearOptimal(
    tests: seq<string>, weights: map<string, int>, m: nat, rival: seq<nat>, best: int, s: nat)
    requires m > 0 && weights != map[] && NonNegativeWeights(weights)
    requires |rival| == |tests| && OnMachines(rival, m)
    requires forall z: nat :: z < m ==> NamesWeigh(Picked(tests, rival, z), weights, DefaultWeight(weights)) <= best
    ensures 3 * m * NamesWeigh(Picked(tests, Assignment(tests, weights, m), s), weights, DefaultWeight(weights))
         <= (4 * m - 1) * best
  {
    var default := DefaultWeight(weights);
    forall z: nat | z < m ensures LoadOn(PlanWeights(tests, weights), rival, z) <= best {
      LoadIsNamesWeigh(tests, weights, default, rival, z);
    }
    LoadIsNamesWeigh(tests, weights, default, Assignment(tests, weights, m), s);
    AllocateWithinFourThirds(tests, weights, m, rival, best, s);
  }

  // ----------------------------------------------------------- empty shards

  lemma CountsOverShards(t: seq<nat>, m: nat, empty: nat)
    requires OnMachines(t, m) && empty < m
    requires CountOn(t, empty) <= 0
    requires forall s: nat :: s < m ==> CountOn(t, s) <= 1
    ensures |t| < m
  {
    LoadsAddUp(Ones(|t|), t, m);
    TotalOnes(|t|);
    SomeoneShort(t, m, empty);
  }

  lemma {:induction false} TotalOnes(n: nat)
    ensures Total(Ones(n)) == n
  {
    if n > 0 {
      TotalOnes(n - 1);
      assert Ones(n)[..n - 1] == Ones(n - 1);
    }
  }

  lemma {:induction false} SomeoneShort(t: seq<nat>, m: nat, empty: nat)
    requires forall s: nat :: s < m ==> CountOn(t, s) <= 1
    requires CountOn(t, empty) <= 0
    ensures LoadsUpTo(Ones(|t|), t, m) <= m - if empty < m then 1 else 0
  {
    if m > 0 {
      SomeoneShort(t, m - 1, empty);
      assert CountOn(t, m - 1) <= 1;
    }
  }

  /** While some shard is empty, no shard has been given two tests. */
  lemma {:induction false} EmptyShardsFillFirst(p: seq<int>, m: nat, empty: nat, s: nat)
    requires m > 0 && NonNegative(p) && empty < m && s < m
    requires CountOn(Deal(p, m), empty) <= 0
    ensures CountOn(Deal(p, m), s) <= 1
  {
    if |p| > 0 {
      var k := |p| - 1;
      var before, t := Deal(p[..k], m), Deal(p, m);
      assert t[..k] == before;
      CountStep(t, empty);
      CountStep(t, s);
      EmptyShardsFillFirst(p[..k], m, empty, s);
      if t[k] == s {
        var loads, counts := LoadsOf(p[..k], before, m), CountsOf(before, m);
        assert Preferred(loads, counts, s, empty);
        EmptyIsUnloaded(p[..k], before, empty);
        LoadNonNegative(p[..k], before, s);
      }
    }
  }

  lemma {:induction false} EmptyIsUnloaded(p: seq<int>, t: seq<nat>, s: nat)
    requires |p| == |t|
    ensures CountOn(t, s) >= 0
    ensures CountOn(t, s) == 0 ==> LoadOn(p, t, s) == 0
  {
    if |p| > 0 {
      EmptyIsUnloaded(p[..|p| - 1], t[..|t| - 1], s);
      CountStep(t, s);
    }
  }

  lemma DealFillsShards(p: seq<int>, m: nat, s: nat)
    requires 0 < m <= |p| && NonNegative(p) && s < m
    ensures CountOn(Deal(p, m), s) > 0
  {
    var t := Deal(p, m);
    EmptyIsUnloaded(p, t, s);
    if CountOn(t, s) == 0 {
      forall z: nat | z < m ensures CountOn(t, z) <= 1 {
        EmptyShardsFillFirst(p, m, s, z);
      }
      CountsOverShards(t, m, s);
      assert false;
    }
  }

  lemma CountInOrder(f: seq<nat>, order: seq<nat>, s: nat)
    requires IsPermutation(order, |f|)
    ensures IndexesInto(order, |f|) && CountOn(Gather(f, order), s) == CountOn(f, s)
  {
    LoadInOrder(Ones(|f|), f, order, s);
    PermutationIndexes(order, |f|);
    assert Gather(Ones(|f|), order) == Ones(|order|);
  }

  lemma SmallModulo(s: nat, m: nat)
    requires s < m
    ensures s % m == s
  {
  }

  /** With no more shards than tests, every shard gets a test. */
  lemma NoShardEmpty(tests: seq<string>, weights: map<string, int>, m: nat, s: nat)
    requires 0 < m <= |tests| && NonNegativeWeights(weights) && s < m
    ensures Picked(tests, Assignment(tests, weights, m), s) != []
  {
    var f := Assignment(tests, weights, m);
    PickedCount(tests, f, s);
    if weights == map[] {
      SmallModulo(s, m);
      PickedHas(tests, f, s);
    } else {
      var order, p, t := DealBehind(tests, weights, m, s);
      DealFillsShards(p, m, s);
      CountInOrder(f, order, s);
    }
  }

  // ------------------------------------------------------------ shard count

  function Ceiling(tests: seq<string>, maxShards: int): int
  {
    if maxShards < 1 || |tests| < 1 then 1 else if maxShards <= |tests| then maxShards else |tests|
  }

  /** The fewest shards that hold the total at `shardSeconds` each, up to the ceiling; without weights, the ceiling. */
  ghost predicate IsShardCount(
    tests: seq<string>, weights: map<string, int>, maxShards: int, shardSeconds: int, count: int)
  {
    && 1 <= count <= Ceiling(tests, maxShards)
    && (weights == map[] ==> count == Ceiling(tests, maxShards))
    && (weights != map[] ==>
          var total := Total(PlanWeights(tests, weights));
          && (total <= count * shardSeconds || count == Ceiling(tests, maxShards))
          && (count == 1 || (count - 1) * shardSeconds < total))
  }

  /** `shard_count`. */
  method ShardCount(tests: seq<string>, weights: map<string, int>, maxShards: int, shardSeconds: int)
    returns (r: Result<int, string>)
    ensures r.Failure? <==> maxShards < 1 || shardSeconds < 1
    ensures r.Success? ==> IsShardCount(tests, weights, maxShards, shardSeconds, r.value)
    ensures r.Success? ==> r.value <= Ceiling(tests, maxShards) <= maxShards
  {
    if maxShards < 1 || shardSeconds < 1 {
      return Failure("max_shards and shard_seconds must be at least 1");
    }
    var ceiling := if |tests| < 1 then 1 else if maxShards <= |tests| then maxShards else |tests|;
    if weights == map[] {
      return Success(ceiling);
    }
    var default := MedianOfValues(weights);
    var total := Total(WeightsOf(tests, weights, default));
    var needed := -(-total / shardSeconds);
    var capped := if ceiling <= needed then ceiling else needed;
    r := Success(if capped < 1 then 1 else capped);
    FewestThatHold(total, shardSeconds, ceiling, r.value);
  }

  lemma FewestThatHold(total: int, d: int, ceiling: int, count: int)
    requires d > 0 && ceiling >= 1
    requires var needed := -(-total / d);
      count == if needed < 1 then 1 else if ceiling <= needed then ceiling else needed
    ensures total <= count * d || count == ceiling
    ensures count == 1 || (count - 1) * d < total
  {
    var needed := -(-total / d);
    CeilingDivision(total, d);
    if needed < 1 {
      FewerIsLess(needed, 1, d);
    } else {
      FewerIsLess(count - 1, needed - 1, d);
    }
  }

  lemma CeilingDivision(total: int, d: int)
    requires d > 0
    ensures var q := -(-total / d); total <= q * d && (q - 1) * d < total
  {
    var e := -total / d;
    assert -total == e * d + (-total % d);
    assert (-e) * d == -(e * d) && (-e - 1) * d == -(e * d) - d;
  }

  lemma FewerIsLess(a: int, b: int, d: int)
    requires a <= b && d > 0
    ensures a * d <= b * d
  {
  }

  /** When the cap does not bind, no shard holds more than the target and one longest test. */
  lemma LoadNearTarget(
    tests: seq<string>, weights: map<string, int>, m: nat, shardSeconds: int, longest: int, s: nat)
    requires m > 0 && NonNegativeWeights(weights)
    requires 0 <= longest && forall i :: 0 <= i < |tests| ==> PlanWeights(tests, weights)[i] <= longest
    requires Total(PlanWeights(tests, weights)) <= m * shardSeconds
    ensures LoadOn(PlanWeights(tests, weights), Assignment(tests, weights, m), s) <= shardSeconds + longest
  {
    AllocateNearAverage(tests, weights, m, longest, s);
    var load := LoadOn(PlanWeights(tests, weights), Assignment(tests, weights, m), s);
    AverageAndOne(m, load, shardSeconds, longest);
  }

  lemma AverageAndOne(m: int, load: int, target: int, longest: int)
    requires m > 0 && 0 <= longest && m * load <= m * target + (m - 1) * longest
    ensures load <= target + longest
  {
    assert (m - 1) * longest == m * longest - longest;
    assert m * load <= m * (target + longest);
  }

  // ---------------------------------------------------------------- timeout

  /** The minutes a job of `load` weighted seconds may take: 1.5 times the load, in whole minutes, and setup. */
  function ShardTimeoutMinutes(load: int): (minutes: int)
    ensures minutes >= 30
  {
    var minutes := -(-RoundHalves(3 * load) / 60) + SHARD_SETUP_MINUTES;
    if minutes < MIN_SHARD_TIMEOUT_MINUTES then MIN_SHARD_TIMEOUT_MINUTES else minutes
  }

  /** Rounding half to even never costs time: the minutes cover one and a half times the load. */
  lemma TimeoutCoversLoad(load: int)
    ensures 120 * (ShardTimeoutMinutes(load) - 15) >= 3 * load
  {
  }

  /** A heavier shard never gets less time. */
  lemma TimeoutMonotone(load: int, more: int)
    requires load <= more
    ensures ShardTimeoutMinutes(load) <= ShardTimeoutMinutes(more)
  {
  }

  /** And no shard gets more than it needs: one minute less would not cover the load, unless the least time applies. */
  lemma TimeoutIsLeast(load: int)
    ensures ShardTimeoutMinutes(load) == 30 || 120 * (ShardTimeoutMinutes(load) - 1 - 15) < 3 * load
  {
  }

  // ----------------------------------------------------------------- the plan

  /** The cap on the number of shards did not keep the total above the target. */
  ghost predicate CapDidNotBind(
    tests: seq<string>, weights: map<string, int>, maxShards: int, shardSeconds: int, count: int)
  {
    count < Ceiling(tests, maxShards) || Total(PlanWeights(tests, weights)) <= count * shardSeconds
  }

  /** With the count the planner chooses, no shard is empty, and none holds more than the target and one longest
  test unless the cap bound. */
  lemma PlannedShards(
    tests: seq<string>, weights: map<string, int>, maxShards: int, shardSeconds: int, m: nat, longest: int, s: nat)
    requires tests != [] && NonNegativeWeights(weights) && s < m
    requires IsShardCount(tests, weights, maxShards, shardSeconds, m)
    requires 0 <= longest && forall i :: 0 <= i < |tests| ==> PlanWeights(tests, weights)[i] <= longest
    ensures Picked(tests, Assignment(tests, weights, m), s) != []
    ensures CapDidNotBind(tests, weights, maxShards, shardSeconds, m) ==>
      LoadOn(PlanWeights(tests, weights), Assignment(tests, weights, m), s) <= shardSeconds + longest
  {
    NoShardEmpty(tests, weights, m, s);
    if CapDidNotBind(tests, weights, maxShards, shardSeconds, m) {
      LoadNearTarget(tests, weights, m, shardSeconds, longest, s);
    }
  }

  /** One job of the matrix. */
  datatype Job = Job(tests: seq<string>, load: int, timeout: int)

  /** The shards that are not empty, each with its timeout. */
  function Jobs(split: ShardSplit): (jobs: seq<Job>)
    requires |split.shards| == |split.loads|
    decreases |split.shards|
  {
    if split.shards == [] then []
    else
      var n := |split.shards| - 1;
      Jobs(ShardSplit(split.shards[..n], split.loads[..n]))
      + if split.shards[n] == [] then []
        else [Job(split.shards[n], split.loads[n], ShardTimeoutMinutes(split.loads[n]))]
  }

  lemma {:induction false} JobsKeepAll(split: ShardSplit)
    requires |split.shards| == |split.loads|
    requires forall s :: 0 <= s < |split.shards| ==> split.shards[s] != []
    ensures |Jobs(split)| == |split.shards|
    ensures forall s :: 0 <= s < |split.shards| ==>
      Jobs(split)[s] == Job(split.shards[s], split.loads[s], ShardTimeoutMinutes(split.loads[s]))
    decreases |split.shards|
  {
    if split.shards != [] {
      var n := |split.shards| - 1;
      JobsKeepAll(ShardSplit(split.shards[..n], split.loads[..n]));
    }
  }

  /** The jobs are the shards of the assignment to `m` shards, none of them empty. */
  ghost predicate IsPlan(tests: seq<string>, weights: map<string, int>, m: nat, jobs: seq<Job>)
    requires m > 0
  {
    var w, f := PlanWeights(tests, weights), Assignment(tests, weights, m);
    && |jobs| == m
    && forall s :: 0 <= s < m ==>
         && jobs[s].tests == Picked(tests, f, s) != []
         && jobs[s].load == LoadOn(w, f, s) && jobs[s].timeout == ShardTimeoutMinutes(jobs[s].load)
  }

  /** The matrix the plan command writes when it chooses the count itself: a job for every shard, and one empty job
  when there is nothing to run. */
  method PlanMatrix(tests: seq<string>, weights: map<string, int>, maxShards: int, shardSeconds: int)
    returns (r: Result<seq<Job>, string>)
    ensures r.Failure? <==> maxShards < 1 || shardSeconds < 1
    ensures r.Success? ==> r.value != []
    ensures r.Success? && tests != [] && NonNegativeWeights(weights) ==>
      && IsShardCount(tests, weights, maxShards, shardSeconds, |r.value|)
      && IsPlan(tests, weights, |r.value|, r.value)
  {
    var count := ShardCount(tests, weights, maxShards, shardSeconds);
    if count.Failure? {
      return Failure(count.error);
    }
    var split := Allocate(tests, weights, count.value);
    var jobs := Jobs(split.value);
    if tests != [] && NonNegativeWeights(weights) {
      AllJobs(tests, weights, count.value);
    }
    r := Success(if jobs == [] then [Job([], 0, ShardTimeoutMinutes(0))] else jobs);
  }

  lemma AllJobs(tests: seq<string>, weights: map<string, int>, m: nat)
    requires 0 < m <= |tests| && NonNegativeWeights(weights)
    ensures var split := SplitBy(tests, PlanWeights(tests, weights), Assignment(tests, weights, m), m);
      IsPlan(tests, weights, m, Jobs(split))
  {
    var split := SplitBy(tests, PlanWeights(tests, weights), Assignment(tests, weights, m), m);
    forall s | 0 <= s < m ensures split.shards[s] != [] {
      NoShardEmpty(tests, weights, m, s);
    }
    JobsKeepAll(split);
  }

  ghost function TestsOfJobs(jobs: seq<Job>): seq<seq<string>>
  {
    seq(|jobs|, s requires 0 <= s < |jobs| => jobs[s].tests)
  }

  /** The plan as a whole: every test is in exactly one job, no job is empty, each has time for one and a half times
  its load, and none holds more than the target and one longest test unless the cap bound. */
  lemma PlannedJobs(
    tests: seq<string>, weights: map<string, int>, maxShards: int, shardSeconds: int, jobs: seq<Job>, longest: int,
    s: nat)
    requires tests != [] && NonNegativeWeights(weights) && s < |jobs|
    requires IsShardCount(tests, weights, maxShards, shardSeconds, |jobs|) && IsPlan(tests, weights, |jobs|, jobs)
    requires 0 <= longest && forall i :: 0 <= i < |tests| ==> PlanWeights(tests, weights)[i] <= longest
    ensures multiset(Flatten(TestsOfJobs(jobs))) == multiset(tests)
    ensures jobs[s].tests != []
    ensures 120 * (jobs[s].timeout - 15) >= 3 * jobs[s].load
    ensures CapDidNotBind(tests, weights, maxShards, shardSeconds, |jobs|) ==> jobs[s].load <= shardSeconds + longest
  {
    var m := |jobs|;
    EveryTestOnce(tests, weights, m);
    assert TestsOfJobs(jobs) == SplitBy(tests, PlanWeights(tests, weights), Assignment(tests, weights, m), m).shards;
    TimeoutCoversLoad(jobs[s].load);
    PlannedShards(tests, weights, maxShards, shardSeconds, m, longest, s);
  }
}
