/** The shard planner of the end-to-end suite (ci/e2e/plan.py): which tests run on which shard. */
module Plan {
  import opened Basics
  import opened Loads
  import opened Graham

  const SHARD_SETUP_MINUTES := 15
  const MIN_SHARD_TIMEOUT_MINUTES := 30

  datatype ShardSplit = ShardSplit(shards: seq<seq<string>>, loads: seq<int>)

  // ---------------------------------------------------------------- weights

  function Drop(weights: map<string, int>, k: string): (r: map<string, int>)
    requires k in weights
    ensures |r| == |weights| - 1
    ensures r.Keys == weights.Keys - {k}
    ensures forall j :: j in r ==> r[j] == weights[j]
  {
    var r := weights - {k};
    assert r.Keys == weights.Keys - {k};
    r
  }

  /** The values of a dictionary, in some order. */
  ghost function ValuesOf(weights: map<string, int>): (r: seq<int>)
    ensures |r| == |weights|
    decreases |weights|
  {
    if weights == map[] then []
    else
      var k :| k in weights;
      [weights[k]] + ValuesOf(Drop(weights, k))
  }

  lemma ValuesHead(weights: map<string, int>) returns (c: string)
    requires weights != map[]
    ensures c in weights
    ensures multiset(ValuesOf(weights)) == multiset(ValuesOf(Drop(weights, c))) + multiset{weights[c]}
  {
    c :| c in weights && ValuesOf(weights) == [weights[c]] + ValuesOf(Drop(weights, c));
  }

  lemma DropTwice(weights: map<string, int>, c: string, k: string)
    requires c in weights && k in weights && c != k
    ensures k in Drop(weights, c) && c in Drop(weights, k)
    ensures Drop(Drop(weights, c), k) == Drop(Drop(weights, k), c)
    ensures Drop(weights, c)[k] == weights[k] && Drop(weights, k)[c] == weights[c]
  {
  }

  lemma BagSwap(all: multiset<int>, noC: multiset<int>, noK: multiset<int>, rest: multiset<int>, vc: int, vk: int)
    requires all == noC + multiset{vc} && noC == rest + multiset{vk} && noK == rest + multiset{vc}
    ensures all == noK + multiset{vk}
  {
  }

  /** Taking one entry out of a dictionary takes exactly its value out of the values. */
  lemma {:induction false} ValuesWithout(weights: map<string, int>, k: string)
    requires k in weights
    ensures multiset(ValuesOf(weights)) == multiset(ValuesOf(Drop(weights, k))) + multiset{weights[k]}
    decreases |weights|
  {
    var c := ValuesHead(weights);
    if c != k {
      DropTwice(weights, c, k);
      ValuesWithout(Drop(weights, c), k);
      ValuesWithout(Drop(weights, k), c);
      BagSwap(multiset(ValuesOf(weights)), multiset(ValuesOf(Drop(weights, c))), multiset(ValuesOf(Drop(weights, k))),
              multiset(ValuesOf(Drop(Drop(weights, c), k))), weights[c], weights[k]);
    }
  }

  lemma {:induction false} ValuesNonNegative(weights: map<string, int>)
    requires forall k :: k in weights ==> 0 <= weights[k]
    ensures AllAtLeast(0, ValuesOf(weights))
    decreases |weights|
  {
    if weights != map[] {
      var c :| c in weights && ValuesOf(weights) == [weights[c]] + ValuesOf(Drop(weights, c));
      ValuesNonNegative(Drop(weights, c));
    }
  }

  /** What a test without a weight counts as: the rounded median weight. */
  ghost function DefaultWeight(weights: map<string, int>): int
    requires weights != map[]
  {
    assert |weights.Keys| > 0;
    MedianInt(ValuesOf(weights))
  }

  /** `_median_int(weights.values())`, reading the dictionary entry by entry. */
  method MedianOfValues(weights: map<string, int>) returns (r: int)
    requires weights != map[]
    ensures r == DefaultWeight(weights)
  {
    var left, values := weights, [];
    while left != map[]
      invariant multiset(ValuesOf(weights)) == multiset(ValuesOf(left)) + multiset(values)
      decreases |left|
    {
      var k :| k in left;
      ValuesWithout(left, k);
      values := values + [left[k]];
      left := Drop(left, k);
    }
    assert |weights.Keys| > 0;
    MedianIgnoresOrder(ValuesOf(weights), values);
    r := MedianInt(values);
  }

  function WeightsOf(tests: seq<string>, weights: map<string, int>, default: int): (w: seq<int>)
    ensures |w| == |tests|
  {
    seq(|tests|, i requires 0 <= i < |tests| => if tests[i] in weights then weights[tests[i]] else default)
  }

  /** How many tests of the weight file weigh at most `x`. */
  ghost function NamesAtMost(weights: map<string, int>, x: int): nat
  {
    |set k | k in weights && weights[k] <= x|
  }

  lemma {:induction false} ValuesAtMost(weights: map<string, int>, x: int)
    ensures AtMost(ValuesOf(weights), x) == NamesAtMost(weights, x)
    decreases |weights|
  {
    assert (set k | k in weights && weights[k] <= x) <= weights.Keys;
    if weights != map[] {
      var c :| c in weights && ValuesOf(weights) == [weights[c]] + ValuesOf(Drop(weights, c));
      ValuesAtMost(Drop(weights, c), x);
      NamesWithout(weights, c, x);
    }
  }

  lemma NamesWithout(weights: map<string, int>, c: string, x: int)
    requires c in weights
    ensures NamesAtMost(weights, x) == NamesAtMost(Drop(weights, c), x) + if weights[c] <= x then 1 else 0
  {
    var all, rest := set k | k in weights && weights[k] <= x, set k | k in Drop(weights, c) && Drop(weights, c)[k] <= x;
    assert all == if weights[c] <= x then rest + {c} else rest;
  }

  lemma {:induction false} ValuesAreWeights(weights: map<string, int>, v: int)
    requires v in ValuesOf(weights)
    ensures exists k :: k in weights && weights[k] == v
    decreases |weights|
  {
    var c :| c in weights && ValuesOf(weights) == [weights[c]] + ValuesOf(Drop(weights, c));
    if v != weights[c] {
      ValuesAreWeights(Drop(weights, c), v);
      var k :| k in Drop(weights, c) && Drop(weights, c)[k] == v;
      assert k in weights && weights[k] == v;
    }
  }

  /** Fewer than half of the tests weigh less than `k`, and at least half no more. */
  ghost predicate IsLowerHalf(weights: map<string, int>, k: string)
  {
    k in weights && 2 * NamesAtMost(weights, weights[k] - 1) < |weights| <= 2 * NamesAtMost(weights, weights[k])
  }

  /** Fewer than half of the tests weigh more than `k`, and at least half no less. */
  ghost predicate IsUpperHalf(weights: map<string, int>, k: string)
  {
    && k in weights && 2 * (|weights| - NamesAtMost(weights, weights[k])) < |weights|
    && |weights| <= 2 * (|weights| - NamesAtMost(weights, weights[k] - 1))
  }

  /** The default is half-way between the weights of two tests in the middle of the file, rounded. */
  lemma DefaultIsMiddle(weights: map<string, int>) returns (a: string, b: string)
    requires weights != map[]
    ensures IsLowerHalf(weights, a) && IsUpperHalf(weights, b) && weights[a] <= weights[b]
    ensures DefaultWeight(weights) == RoundHalves(weights[a] + weights[b])
  {
    var low, high := DefaultHalves(weights);
    a := LowerInFile(weights, low);
    b := UpperInFile(weights, high);
    assert weights[a] + weights[b] == low + high;
  }

  lemma DefaultHalves(weights: map<string, int>) returns (low: int, high: int)
    requires weights != map[]
    ensures IsLowerMiddle(ValuesOf(weights), low) && IsUpperMiddle(ValuesOf(weights), high) && low <= high
    ensures DefaultWeight(weights) == RoundHalves(low + high)
  {
    assert |weights.Keys| > 0;
    var values := ValuesOf(weights);
    assert values != [];
    low, high := MedianIsMiddle(values);
  }

  lemma LowerInFile(weights: map<string, int>, v: int) returns (k: string)
    requires IsLowerMiddle(ValuesOf(weights), v)
    ensures IsLowerHalf(weights, k) && weights[k] == v
  {
    ValuesAreWeights(weights, v);
    k :| k in weights && weights[k] == v;
    ValuesAtMost(weights, v);
    ValuesAtMost(weights, v - 1);
  }

  lemma UpperInFile(weights: map<string, int>, v: int) returns (k: string)
    requires IsUpperMiddle(ValuesOf(weights), v)
    ensures IsUpperHalf(weights, k) && weights[k] == v
  {
    ValuesAreWeights(weights, v);
    k :| k in weights && weights[k] == v;
    ValuesAtMost(weights, v);
    ValuesAtMost(weights, v - 1);
  }

  /** What the named tests weigh together: each its weight in the file, or the default if it has none there. */
  ghost function NamesWeigh(names: seq<string>, weights: map<string, int>, default: int): int
  {
    if names == [] then 0
    else
      var last := names[|names| - 1];
      NamesWeigh(names[..|names| - 1], weights, default) + if last in weights then weights[last] else default
  }

  lemma NamesWeighMore(names: seq<string>, name: string, weights: map<string, int>, default: int)
    ensures NamesWeigh(names + [name], weights, default)
         == NamesWeigh(names, weights, default) + if name in weights then weights[name] else default
  {
    assert (names + [name])[..|names|] == names;
  }

  lemma {:induction false} LoadOfNames(
    tests: seq<string>, w: seq<int>, weights: map<string, int>, default: int, f: seq<nat>, s: nat)
    requires |f| == |tests| == |w|
    requires forall i :: 0 <= i < |w| ==> w[i] == if tests[i] in weights then weights[tests[i]] else default
    ensures LoadOn(w, f, s) == NamesWeigh(Picked(tests, f, s), weights, default)
  {
    if tests != [] {
      var n := |tests| - 1;
      LoadOfNames(tests[..n], w[..n], weights, default, f[..n], s);
      var rest := Picked(tests[..n], f[..n], s);
      NamesWeighMore(rest, tests[n], weights, default);
      assert Picked(tests, f, s) == if f[n] == s then rest + [tests[n]] else rest;
    }
  }

  lemma LoadIsNamesWeigh(tests: seq<string>, weights: map<string, int>, default: int, f: seq<nat>, s: nat)
    requires |f| == |tests|
    ensures LoadOn(WeightsOf(tests, weights, default), f, s) == NamesWeigh(Picked(tests, f, s), weights, default)
  {
    LoadOfNames(tests, WeightsOf(tests, weights, default), weights, default, f, s);
  }

  // ------------------------------------------------------------------ order

  /** Test `a` is placed before test `b`: it is heavier, or as heavy and listed first. */
  predicate Sooner(w: seq<int>, a: nat, b: nat)
    requires a < |w| && b < |w|
  {
    w[a] > w[b] || (w[a] == w[b] && a < b)
  }

  ghost predicate InOrder(w: seq<int>, order: seq<nat>)
  {
    && IndexesInto(order, |w|)
    && forall i, j :: 0 <= i < j < |order| ==> Sooner(w, order[i], order[j])
  }

  function Slot(w: seq<int>, order: seq<nat>, x: nat): (r: seq<nat>)
    requires x < |w| && IndexesInto(order, |w|)
    ensures |r| == |order| + 1
    ensures multiset(r) == multiset(order) + multiset{x}
    ensures IndexesInto(r, |w|)
  {
    if order == [] then [x]
    else if w[order[0]] >= w[x] then
      assert order == [order[0]] + order[1..];
      [order[0]] + Slot(w, order[1..], x)
    else [x] + order
  }

  lemma {:induction false} SlotInOrder(w: seq<int>, order: seq<nat>, x: nat)
    requires x < |w| && InOrder(w, order)
    requires forall i :: 0 <= i < |order| ==> order[i] < x
    ensures InOrder(w, Slot(w, order, x))
  {
    if order != [] && w[order[0]] >= w[x] {
      var rest := Slot(w, order[1..], x);
      SlotInOrder(w, order[1..], x);
      forall j | 0 <= j < |rest| ensures Sooner(w, order[0], rest[j]) {
        assert rest[j] in multiset(rest);
        assert rest[j] == x || rest[j] in order[1..];
      }
    } else if order != [] {
      forall j | 0 <= j < |order| ensures Sooner(w, x, order[j]) {
        assert j > 0 ==> Sooner(w, order[0], order[j]);
      }
    }
  }

  /** `sorted(range(len(tests)), key=(-weight, index))`. */
  function LptOrder(w: seq<int>): (order: seq<nat>)
    ensures IndexesInto(order, |w|)
  {
    OrderUpTo(w, |w|)
  }

  function OrderUpTo(w: seq<int>, n: nat): (order: seq<nat>)
    requires n <= |w|
    ensures IndexesInto(order, n)
  {
    if n == 0 then []
    else
      var order := OrderUpTo(w, n - 1);
      var r := Slot(w, order, n - 1);
      assert forall i :: 0 <= i < |r| ==> r[i] in multiset(r);
      assert forall i :: 0 <= i < |r| ==> r[i] == n - 1 || r[i] in order;
      r
  }

  lemma SlotPermutes(w: seq<int>, order: seq<nat>, n: nat)
    requires 0 < n <= |w| && IndexesInto(order, |w|) && IsPermutation(order, n - 1)
    ensures IsPermutation(Slot(w, order, n - 1), n)
  {
    assert Identity(n) == Identity(n - 1) + [n - 1];
  }

  lemma {:induction false} OrderUpToSorts(w: seq<int>, n: nat)
    requires n <= |w|
    ensures IsPermutation(OrderUpTo(w, n), n) && InOrder(w, OrderUpTo(w, n))
  {
    if n > 0 {
      OrderUpToSorts(w, n - 1);
      SlotInOrder(w, OrderUpTo(w, n - 1), n - 1);
      SlotPermutes(w, OrderUpTo(w, n - 1), n);
    }
  }

  // ------------------------------------------------------------------- deal

  /** Shard `a` is picked rather than `b`: lighter, then fewer tests, then the lower index. */
  predicate Preferred(loads: seq<int>, counts: seq<int>, a: nat, b: nat)
    requires |loads| == |counts| && a < |loads| && b < |loads|
  {
    || loads[a] < loads[b]
    || (loads[a] == loads[b] && (counts[a] < counts[b] || (counts[a] == counts[b] && a <= b)))
  }

  ghost predicate IsLightest(loads: seq<int>, counts: seq<int>, r: nat)
    requires |loads| == |counts| && r < |loads|
  {
    forall s: nat :: s < |loads| ==> Preferred(loads, counts, r, s)
  }

  lemma LightestExtends(loads: seq<int>, counts: seq<int>, n: nat, best: nat)
    requires |loads| == |counts| == n + 1 && best < n
    requires IsLightest(loads[..n], counts[..n], best)
    ensures IsLightest(loads, counts, if Preferred(loads, counts, best, n) then best else n)
  {
    forall s: nat | s < n ensures Preferred(loads, counts, best, s) {
      assert Preferred(loads[..n], counts[..n], best, s);
    }
    var r := if Preferred(loads, counts, best, n) then best else n;
    forall s: nat | s < n + 1 ensures Preferred(loads, counts, r, s) {
      assert s < n ==> Preferred(loads, counts, best, s);
    }
  }

  /** `min(range(shard_count), key=(load, tests, shard))`. */
  function Lightest(loads: seq<int>, counts: seq<int>): (r: nat)
    requires |loads| == |counts| > 0
    ensures r < |loads| && IsLightest(loads, counts, r)
  {
    var n := |loads| - 1;
    if n == 0 then 0
    else
      var best := Lightest(loads[..n], counts[..n]);
      LightestExtends(loads, counts, n, best);
      if Preferred(loads, counts, best, n) then best else n
  }

  function LoadsOf(p: seq<int>, t: seq<nat>, m: nat): (r: seq<int>)
    requires |p| == |t|
    ensures |r| == m && forall s: nat :: s < m ==> r[s] == LoadOn(p, t, s)
  {
    seq(m, s requires 0 <= s < m => LoadOn(p, t, s))
  }

  function CountsOf(t: seq<nat>, m: nat): (r: seq<int>)
    ensures |r| == m
  {
    seq(m, s requires 0 <= s < m => CountOn(t, s))
  }

  /** The shard each weight of `p` goes to when they are placed one by one. */
  function Deal(p: seq<int>, m: nat): (t: seq<nat>)
    requires m > 0
    ensures |t| == |p| && OnMachines(t, m)
  {
    if p == [] then []
    else
      var before := Deal(p[..|p| - 1], m);
      before + [Lightest(LoadsOf(p[..|p| - 1], before, m), CountsOf(before, m))]
  }

  lemma {:induction false} DealPrefix(p: seq<int>, m: nat, k: nat)
    requires m > 0 && k <= |p|
    ensures Deal(p, m)[..k] == Deal(p[..k], m)
  {
    if k == |p| {
      assert p[..k] == p && Deal(p, m)[..k] == Deal(p, m);
    } else {
      DealPrefix(p[..|p| - 1], m, k);
      assert p[..|p| - 1][..k] == p[..k];
      assert Deal(p, m)[..k] == Deal(p, m)[..|p| - 1][..k];
    }
  }

  lemma DealStep(p: seq<int>, m: nat, k: nat)
    requires m > 0 && k < |p|
    ensures Deal(p, m)[..k] == Deal(p[..k], m)
    ensures Deal(p, m)[k] == Lightest(LoadsOf(p[..k], Deal(p[..k], m), m), CountsOf(Deal(p[..k], m), m))
  {
    DealPrefix(p, m, k);
    DealPrefix(p, m, k + 1);
    var q := p[..k + 1];
    assert q[..k] == p[..k];
    assert Deal(p, m)[k] == Deal(q, m)[k];
  }

  /** The planner's deal is greedy: each weight lands on a shard that is then lightest. */
  lemma DealGreedy(p: seq<int>, m: nat)
    requires m > 0
    ensures Greedy(p, Deal(p, m), m)
  {
    var t := Deal(p, m);
    forall k: nat | k < |t| ensures OnLightest(p, t, m, k) {
      DealStep(p, m, k);
      var loads, counts := LoadsOf(p[..k], t[..k], m), CountsOf(t[..k], m);
      forall s: nat | s < m ensures LoadOn(p[..k], t[..k], t[k]) <= LoadOn(p[..k], t[..k], s) {
        assert Preferred(loads, counts, t[k], s);
      }
    }
  }

  // ------------------------------------------------------------- assignment

  function IndexOf(order: seq<nat>, x: nat): (i: nat)
    requires x in order
    ensures i < |order| && order[i] == x
  {
    if order[0] == x then 0 else 1 + IndexOf(order[1..], x)
  }

  /** The shard of each test, when the `i`-th test placed is `order[i]` and goes to `t[i]`. */
  ghost function AssignmentOf(order: seq<nat>, t: seq<nat>): (f: seq<nat>)
    requires |order| == |t| && IsPermutation(order, |t|)
    ensures |f| == |t|
    ensures IndexesInto(order, |f|) && Gather(f, order) == t
  {
    PermutationIndexes(order, |t|);
    seq(|t|, x requires 0 <= x < |t| => t[IndexOf(order, x)])
  }

  /** The test list that shard `s` gets, and what it weighs, once the shard of each test is fixed. */
  function SplitBy(tests: seq<string>, w: seq<int>, f: seq<nat>, m: nat): ShardSplit
    requires |tests| == |w| == |f|
  {
    ShardSplit(seq(m, s requires 0 <= s < m => Picked(tests, f, s)), LoadsOf(w, f, m))
  }

  function SortIndexes(s: seq<nat>): (r: seq<nat>)
    ensures multiset(r) == multiset(s) && Ascending(r)
  {
    SameMembers(Sort(s), s);
    assert forall i :: 0 <= i < |Sort(s)| ==> Sort(s)[i] in s;
    Sort(s)
  }

  lemma {:induction false} PickedAscending(n: nat, f: seq<nat>, s: nat)
    requires |f| == n
    ensures Ascending(Picked(Identity(n), f, s))
    ensures IndexesInto(Picked(Identity(n), f, s), n)
  {
    if n > 0 {
      PickedAscending(n - 1, f[..n - 1], s);
      assert Identity(n)[..n - 1] == Identity(n - 1);
      var before := Picked(Identity(n - 1), f[..n - 1], s);
      assert Picked(Identity(n), f, s) == before + if f[n - 1] == s then [n - 1] else [];
    }
  }

  lemma {:induction false} PickedTests(tests: seq<string>, f: seq<nat>, s: nat)
    requires |f| == |tests|
    ensures IndexesInto(Picked(Identity(|f|), f, s), |f|)
    ensures Gather(tests, Picked(Identity(|f|), f, s)) == Picked(tests, f, s)
  {
    var n := |f|;
    if n > 0 {
      PickedTests(tests[..n - 1], f[..n - 1], s);
      assert Identity(n)[..n - 1] == Identity(n - 1);
      var before := Picked(Identity(n - 1), f[..n - 1], s);
      assert Gather(tests[..n - 1], before) == Gather(tests, before);
      assert Picked(Identity(n), f, s) == before + if f[n - 1] == s then [n - 1] else [];
    }
  }

  /** Sorting a shard's indexes brings its tests back into their original order. */
  lemma ShardInOrder(tests: seq<string>, order: seq<nat>, t: seq<nat>, s: nat)
    requires |order| == |t| == |tests| && IsPermutation(order, |t|)
    ensures IndexesInto(SortIndexes(Picked(order, t, s)), |tests|)
    ensures Gather(tests, SortIndexes(Picked(order, t, s))) == Picked(tests, AssignmentOf(order, t), s)
  {
    var n, f := |t|, AssignmentOf(order, t);
    var id := Identity(n);
    PermutationIndexes(order, n);
    PickedIgnoresOrder(id, f, order, id, s);
    assert Gather(id, order) == order && Gather(id, id) == id && Gather(f, id) == f;
    PickedAscending(n, f, s);
    AscendingUnique(SortIndexes(Picked(order, t, s)), Picked(id, f, s));
    PickedTests(tests, f, s);
  }

  lemma LoadInOrder(w: seq<int>, f: seq<nat>, order: seq<nat>, s: nat)
    requires |w| == |f| && IsPermutation(order, |w|)
    ensures IndexesInto(order, |w|)
    ensures LoadOn(Gather(w, order), Gather(f, order), s) == LoadOn(w, f, s)
  {
    var id := Identity(|w|);
    PermutationIndexes(order, |w|);
    LoadIgnoresOrder(w, f, order, id, s);
    assert Gather(w, id) == w && Gather(f, id) == f;
  }

  /** Placing test by test is the same load as summing over the tests of the shard. */
  lemma LoadOfAssignment(w: seq<int>, order: seq<nat>, t: seq<nat>, s: nat)
    requires |order| == |t| == |w| && IsPermutation(order, |t|)
    ensures IndexesInto(order, |w|)
    ensures LoadOn(Gather(w, order), t, s) == LoadOn(w, AssignmentOf(order, t), s)
  {
    LoadInOrder(w, AssignmentOf(order, t), order, s);
  }

  // --------------------------------------------------------------- allocate

  function RoundRobin(n: nat, m: nat): (t: seq<nat>)
    requires m > 0
    ensures |t| == n && OnMachines(t, m)
  {
    seq(n, i requires 0 <= i < n => i % m)
  }

  /** The weights the planner works with; none at all when the weight file is empty or missing. */
  ghost function PlanWeights(tests: seq<string>, weights: map<string, int>): (w: seq<int>)
    ensures |w| == |tests|
  {
    if weights == map[] then seq(|tests|, i => 0) else WeightsOf(tests, weights, DefaultWeight(weights))
  }

  /** The shard of each test. */
  ghost function Assignment(tests: seq<string>, weights: map<string, int>, m: nat): (f: seq<nat>)
    requires m > 0
    ensures |f| == |tests|
  {
    if weights == map[] then RoundRobin(|tests|, m)
    else
      var w := PlanWeights(tests, weights);
      OrderUpToSorts(w, |w|);
      PermutationIndexes(LptOrder(w), |w|);
      AssignmentOf(LptOrder(w), Deal(Gather(w, LptOrder(w)), m))
  }

  lemma RoundRobinAssignment(n: nat, m: nat)
    requires m > 0
    ensures IsPermutation(Identity(n), n)
    ensures AssignmentOf(Identity(n), RoundRobin(n, m)) == RoundRobin(n, m)
  {
  }

  lemma {:induction false} NoLoad(n: nat, f: seq<nat>, s: nat)
    requires |f| == n
    ensures LoadOn(seq(n, i => 0), f, s) == 0
  {
    if n > 0 {
      NoLoad(n - 1, f[..n - 1], s);
      assert seq(n, i => 0)[..n - 1] == seq(n - 1, i => 0);
    }
  }

  /** What each shard holds, in placing order. */
  ghost predicate Holds(members: seq<seq<nat>>, order: seq<nat>, t: seq<nat>)
    requires |order| == |t|
  {
    forall s: nat :: s < |members| ==> members[s] == Picked(order, t, s)
  }

  ghost predicate Carries(loads: seq<int>, p: seq<int>, t: seq<nat>)
    requires |p| == |t|
  {
    forall s: nat :: s < |loads| ==> loads[s] == LoadOn(p, t, s)
  }

  /** Placing one more test changes the shard it goes to and no other. */
  lemma PlaceOne(members: seq<seq<nat>>, loads: seq<int>, order: seq<nat>, p: seq<int>, t: seq<nat>, k: nat)
    requires |order| == |p| == |t| && k < |t| && |members| == |loads| && t[k] < |members|
    requires Holds(members, order[..k], t[..k]) && Carries(loads, p[..k], t[..k])
    ensures Holds(members[t[k] := members[t[k]] + [order[k]]], order[..k + 1], t[..k + 1])
    ensures Carries(loads[t[k] := loads[t[k]] + p[k]], p[..k + 1], t[..k + 1])
  {
    var members', loads' := members[t[k] := members[t[k]] + [order[k]]], loads[t[k] := loads[t[k]] + p[k]];
    forall s: nat | s < |members|
      ensures members'[s] == Picked(order[..k + 1], t[..k + 1], s)
      ensures loads'[s] == LoadOn(p[..k + 1], t[..k + 1], s)
    {
      PlaceStep(order, p, t, k, s);
    }
  }

  /** Without weights: test `index` goes to shard `index % shardCount`. */
  method DealRoundRobin(n: nat, shardCount: nat) returns (members: seq<seq<nat>>)
    requires shardCount > 0
    ensures |members| == shardCount && Holds(members, Identity(n), RoundRobin(n, shardCount))
  {
    members := seq(shardCount, _ => []);
    ghost var order, t, none := Identity(n), RoundRobin(n, shardCount), seq(n, i => 0);
    ghost var loads := seq(shardCount, s => 0);
    for index := 0 to n
      invariant |members| == |loads| == shardCount
      invariant Holds(members, order[..index], t[..index]) && Carries(loads, none[..index], t[..index])
    {
      var shard := index % shardCount;
      PlaceOne(members, loads, order, none, t, index);
      members := members[shard := members[shard] + [index]];
      loads := loads[shard := loads[shard] + 0];
    }
    assert order[..n] == order && t[..n] == t;
  }

  function Lengths(members: seq<seq<nat>>): (r: seq<int>)
    ensures |r| == |members|
  {
    seq(|members|, s requires 0 <= s < |members| => |members[s]|)
  }

  /** The shard the loop picks is the one the deal prescribes. */
  lemma PicksTarget(members: seq<seq<nat>>, loads: seq<int>, order: seq<nat>, p: seq<int>, m: nat, k: nat)
    requires m > 0 && |order| == |p| && k < |p| && |members| == |loads| == m
    requires Holds(members, order[..k], Deal(p, m)[..k]) && Carries(loads, p[..k], Deal(p, m)[..k])
    ensures Lightest(loads, Lengths(members)) == Deal(p, m)[k]
  {
    var t := Deal(p, m);
    DealStep(p, m, k);
    forall s: nat | s < m ensures Lengths(members)[s] == CountOn(t[..k], s) {
      PickedCount(order[..k], t[..k], s);
    }
    assert loads == LoadsOf(p[..k], t[..k], m);
    assert Lengths(members) == CountsOf(t[..k], m);
  }

  /** With weights: the tests in the given order, each on the shard that is lightest by then. */
  method DealLightest(w: seq<int>, order: seq<nat>, shardCount: nat)
    returns (members: seq<seq<nat>>, loads: seq<int>)
    requires shardCount > 0 && IndexesInto(order, |w|)
    ensures |members| == |loads| == shardCount
    ensures Holds(members, order, Deal(Gather(w, order), shardCount))
    ensures Carries(loads, Gather(w, order), Deal(Gather(w, order), shardCount))
  {
    members, loads := seq(shardCount, _ => []), seq(shardCount, _ => 0);
    ghost var p := Gather(w, order);
    ghost var t := Deal(p, shardCount);
    for k := 0 to |order|
      invariant |members| == |loads| == shardCount
      invariant Holds(members, order[..k], t[..k]) && Carries(loads, p[..k], t[..k])
    {
      var index := order[k];
      var target := Lightest(loads, Lengths(members));
      PicksTarget(members, loads, order, p, shardCount, k);
      PlaceOne(members, loads, order, p, t, k);
      members := members[target := members[target] + [index]];
      loads := loads[target := loads[target] + w[index]];
    }
    assert order[..|order|] == order && t[..|order|] == t && p[..|order|] == p;
  }

  /** Each shard's tests in their original order. */
  method TestsOf(tests: seq<string>, members: seq<seq<nat>>, ghost order: seq<nat>, ghost t: seq<nat>)
    returns (shards: seq<seq<string>>)
    requires |order| == |t| == |tests| && IsPermutation(order, |t|)
    requires Holds(members, order, t)
    ensures |shards| == |members|
    ensures forall s: nat :: s < |members| ==> shards[s] == Picked(tests, AssignmentOf(order, t), s)
  {
    forall s: nat | s < |members|
      ensures IndexesInto(SortIndexes(members[s]), |tests|)
      ensures Gather(tests, SortIndexes(members[s])) == Picked(tests, AssignmentOf(order, t), s)
    {
      ShardInOrder(tests, order, t, s);
    }
    shards := seq(|members|, s requires 0 <= s < |members| && IndexesInto(SortIndexes(members[s]), |tests|) =>
                    Gather(tests, SortIndexes(members[s])));
  }

  /** Split tests into shards: heaviest first, each on the lightest shard, or dealt round-robin without weights. */
  method Allocate(tests: seq<string>, weights: map<string, int>, shardCount: int)
    returns (r: Result<ShardSplit, string>)
    ensures r.Failure? <==> shardCount < 1
    ensures r.Success? ==>
      r.value == SplitBy(tests, PlanWeights(tests, weights), Assignment(tests, weights, shardCount), shardCount)
    ensures r.Success? ==> |r.value.shards| == |r.value.loads| == shardCount
    ensures r.Success? ==> forall s :: 0 <= s < shardCount ==>
      r.value.loads[s] == if weights == map[] then 0 else NamesWeigh(r.value.shards[s], weights, DefaultWeight(weights))
  {
    if shardCount < 1 {
      return Failure("shard_count must be at least 1");
    }
    ghost var expected :=
      SplitBy(tests, PlanWeights(tests, weights), Assignment(tests, weights, shardCount), shardCount);
    if weights == map[] {
      var members := DealRoundRobin(|tests|, shardCount);
      RoundRobinAssignment(|tests|, shardCount);
      var shards := TestsOf(tests, members, Identity(|tests|), RoundRobin(|tests|, shardCount));
      var loads := seq(shardCount, _ => 0);
      forall s: nat | s < shardCount ensures loads[s] == expected.loads[s] {
        NoLoad(|tests|, RoundRobin(|tests|, shardCount), s);
      }
      assert shards == expected.shards;
      assert loads == expected.loads;
      r := Success(ShardSplit(shards, loads));
    } else {
      var default := MedianOfValues(weights);
      var w := WeightsOf(tests, weights, default);
      var order := LptOrder(w);
      OrderUpToSorts(w, |w|);
      PermutationIndexes(order, |w|);
      var members, loads := DealLightest(w, order, shardCount);
      ghost var t := Deal(Gather(w, order), shardCount);
      var shards := TestsOf(tests, members, order, t);
      forall s: nat | s < shardCount
        ensures loads[s] == expected.loads[s] == NamesWeigh(expected.shards[s], weights, default)
      {
        LoadOfAssignment(w, order, t, s);
        LoadIsNamesWeigh(tests, weights, default, Assignment(tests, weights, shardCount), s);
      }
      assert shards == expected.shards;
      assert loads == expected.loads;
      r := Success(ShardSplit(shards, loads));
    }
  }
}
