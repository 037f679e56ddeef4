/** How far list scheduling can be from the best possible schedule.

Jobs are taken one after the other and each goes to a machine whose load is
then smallest. The bounds hold for every schedule made that way, whatever the
rule that breaks ties between equally loaded machines. */
module Graham {
  import opened Loads

  /** When job `k` is placed, no machine carries less than the one it goes to. */
  ghost predicate OnLightest(p: seq<int>, t: seq<nat>, m: nat, k: nat)
    requires |p| == |t| && k < |t|
  {
    forall s: nat :: s < m ==> LoadOn(p[..k], t[..k], t[k]) <= LoadOn(p[..k], t[..k], s)
  }

  /** Job by job, `t` picks a machine whose load so far is smallest. */
  ghost predicate Greedy(p: seq<int>, t: seq<nat>, m: nat)
    requires |p| == |t|
  {
    OnMachines(t, m) && forall k: nat :: k < |t| ==> OnLightest(p, t, m, k)
  }

  ghost predicate NonIncreasing(p: seq<int>)
  {
    forall i, j :: 0 <= i < j < |p| ==> p[i] >= p[j]
  }

  /** Every machine of the schedule `u` carries at most `best`. */
  ghost predicate Within(p: seq<int>, u: seq<nat>, m: nat, best: int)
    requires |p| == |u|
  {
    OnMachines(u, m) && forall s: nat :: s < m ==> LoadOn(p, u, s) <= best
  }

  lemma GreedyPrefix(p: seq<int>, t: seq<nat>, m: nat)
    requires |p| == |t| > 0 && Greedy(p, t, m)
    ensures Greedy(p[..|p| - 1], t[..|t| - 1], m)
  {
    var p', t' := p[..|p| - 1], t[..|t| - 1];
    forall k: nat | k < |t'| ensures OnLightest(p', t', m, k) {
      assert OnLightest(p, t, m, k);
      assert p'[..k] == p[..k] && t'[..k] == t[..k];
    }
  }

  lemma WithinPrefix(p: seq<int>, u: seq<nat>, m: nat, best: int)
    requires |p| == |u| > 0 && NonNegative(p) && Within(p, u, m, best)
    ensures Within(p[..|p| - 1], u[..|u| - 1], m, best)
  {
    var p', u' := p[..|p| - 1], u[..|u| - 1];
    forall s: nat | s < m ensures LoadOn(p', u', s) <= best {
      assert LoadOn(p, u, s) <= best;
    }
  }

  /** The machine that gets the last job carries no more than the average of the jobs before it. */
  lemma LastStart(p: seq<int>, t: seq<nat>, m: nat)
    requires |p| == |t| > 0 && Greedy(p, t, m)
    ensures m * LoadOn(p[..|p| - 1], t[..|t| - 1], t[|t| - 1]) <= Total(p[..|p| - 1])
  {
    var k := |p| - 1;
    var low := LoadOn(p[..k], t[..k], t[k]);
    assert OnLightest(p, t, m, k);
    LoadsAtLeast(p[..k], t[..k], m, low);
    LoadsAddUp(p[..k], t[..k], m);
  }

  lemma Distribute(m: int, a: int, b: int)
    ensures m * (a + b) == m * a + m * b
  {
  }

  lemma Scale(m: int, a: int, b: int)
    requires 0 <= m && a <= b
    ensures m * a <= m * b
  {
  }

  lemma OneFewer(m: int, a: int)
    ensures (m - 1) * a == m * a - a
  {
  }

  lemma AnyLastJob(m: int, low: int, q: int, before: int, longest: int)
    requires m > 0 && q <= longest && m * low <= before
    ensures m * (low + q) <= before + q + (m - 1) * longest
  {
    Distribute(m, low, q);
    OneFewer(m, q);
    Scale(m - 1, q, longest);
  }

  /** List scheduling: no machine exceeds the average load by more than (m-1)/m of a job. */
  lemma {:induction false} ListSchedulingBound(p: seq<int>, t: seq<nat>, m: nat, s: nat, longest: int)
    requires |p| == |t| && NonNegative(p) && Greedy(p, t, m)
    requires m > 0 && 0 <= longest && forall i :: 0 <= i < |p| ==> p[i] <= longest
    ensures m * LoadOn(p, t, s) <= Total(p) + (m - 1) * longest
  {
    if |p| == 0 {
      assert 0 <= (m - 1) * longest;
    } else {
      var k := |p| - 1;
      var low := LoadOn(p[..k], t[..k], s);
      if t[k] != s {
        GreedyPrefix(p, t, m);
        ListSchedulingBound(p[..k], t[..k], m, s, longest);
        assert m * LoadOn(p, t, s) == m * low;
      } else {
        LastStart(p, t, m);
        AnyLastJob(m, low, p[k], Total(p[..k]), longest);
        assert m * LoadOn(p, t, s) == m * (low + p[k]);
      }
    }
  }

  /** Half-machine slots: a job that leaves no room for another of weight `q` takes two, any other one. */
  function Slots(p: seq<int>, q: int, best: int): (c: seq<int>)
    ensures |c| == |p|
    ensures forall i :: 0 <= i < |p| ==> c[i] == if p[i] > best - q then 2 else 1
  {
    seq(|p|, i requires 0 <= i < |p| => if p[i] > best - q then 2 else 1)
  }

  /** What a machine's slots say about its load, when every job exceeds a third of `best`. */
  lemma {:induction false} SlotsAgainstLoad(p: seq<int>, t: seq<nat>, s: nat, q: int, best: int)
    requires |p| == |t|
    requires 0 <= q <= best < 3 * q
    requires forall i :: 0 <= i < |p| ==> q <= p[i]
    ensures LoadOn(Slots(p, q, best), t, s) >= 0
    ensures LoadOn(Slots(p, q, best), t, s) == 0 ==> LoadOn(p, t, s) == 0
    ensures LoadOn(Slots(p, q, best), t, s) == 1 ==> q <= LoadOn(p, t, s) <= best - q
    ensures LoadOn(Slots(p, q, best), t, s) == 2 ==> LoadOn(p, t, s) >= 2 * q || LoadOn(p, t, s) > best - q
    ensures LoadOn(Slots(p, q, best), t, s) >= 3 ==> LoadOn(p, t, s) > best
  {
    if |p| > 0 {
      var k := |p| - 1;
      SlotsAgainstLoad(p[..k], t[..k], s, q, best);
      assert Slots(p, q, best)[..k] == Slots(p[..k], q, best);
    }
  }

  /** With only jobs over a third of the optimum, greedy placement of the last, smallest job is optimal. */
  lemma LargeJobsFit(p: seq<int>, t: seq<nat>, m: nat, u: seq<nat>, best: int)
    requires |p| == |t| == |u| > 0
    requires NonNegative(p) && NonIncreasing(p) && Greedy(p, t, m) && Within(p, u, m, best)
    requires best < 3 * p[|p| - 1]
    ensures LoadOn(p, t, t[|t| - 1]) <= best
  {
    var k := |p| - 1;
    var q := p[k];
    JobInLoad(p, u, k);
    var c := Slots(p, q, best);
    // The other schedule fits: two slots a machine at most.
    forall s: nat | s < m ensures LoadOn(c, u, s) <= 2 {
      SlotsAgainstLoad(p, u, s, q, best);
    }
    LoadsAtMost(c, u, m, 2);
    LoadsAddUp(c, u, m);
    // Had the greedy choice overflowed, every machine would already hold two slots.
    if LoadOn(p, t, t[k]) > best {
      assert c[..k] == Slots(p[..k], q, best);
      forall s: nat | s < m ensures LoadOn(c[..k], t[..k], s) >= 2 {
        assert OnLightest(p, t, m, k);
        SlotsAgainstLoad(p[..k], t[..k], s, q, best);
      }
      LoadsAtLeast(c[..k], t[..k], m, 2);
      LoadsAddUp(c[..k], t[..k], m);
      assert false;
    }
  }

  lemma Thrice(m: int, a: int)
    ensures 3 * m * a == 3 * (m * a) && (4 * m - 1) * a == 4 * (m * a) - a
  {
  }

  lemma SmallLastJob(m: int, low: int, q: int, before: int, best: int)
    requires m > 0 && 0 <= q && 3 * q <= best
    requires m * low <= before && before + q <= m * best
    ensures 3 * m * (low + q) <= (4 * m - 1) * best
  {
    Distribute(m, low, q);
    OneFewer(m, q);
    OneFewer(m, best);
    Scale(m - 1, 3 * q, best);
    Triple(m - 1, q);
    Thrice(m, low + q);
    Thrice(m, best);
  }

  lemma Triple(m: int, q: int)
    ensures m * (3 * q) == 3 * (m * q)
  {
  }

  lemma NoWorse(m: int, load: int, best: int)
    requires m > 0 && 0 <= best && load <= best
    ensures 3 * m * load <= (4 * m - 1) * best
  {
    Thrice(m, load);
    Thrice(m, best);
    Scale(m, load, best);
    Scale(best, 1, m);
  }

  /** Longest-first list scheduling is within 4/3 - 1/(3m) of every schedule there is. */
  lemma {:induction false} LongestFirstBound(
    p: seq<int>, t: seq<nat>, m: nat, u: seq<nat>, best: int, s: nat)
    requires |p| == |t| == |u| && m > 0
    requires NonNegative(p) && NonIncreasing(p) && Greedy(p, t, m) && Within(p, u, m, best)
    ensures 3 * m * LoadOn(p, t, s) <= (4 * m - 1) * best
  {
    if |p| == 0 {
      assert LoadOn(p, u, 0) <= best;
      NoWorse(m, LoadOn(p, t, s), best);
    } else {
      var k := |p| - 1;
      if t[k] != s {
        GreedyPrefix(p, t, m);
        WithinPrefix(p, u, m, best);
        LongestFirstBound(p[..k], t[..k], m, u[..k], best, s);
      } else if 3 * p[k] > best {
        LargeJobsFit(p, t, m, u, best);
        JobInLoad(p, u, k);
        NoWorse(m, LoadOn(p, t, s), best);
      } else {
        LastStart(p, t, m);
        LoadsAtMost(p, u, m, best);
        LoadsAddUp(p, u, m);
        SmallLastJob(m, LoadOn(p[..k], t[..k], s), p[k], Total(p[..k]), best);
      }
    }
  }

  // ------------------------------------------------------------------ the bound is met

  /** The weights 2m-1, 2m-1, 2m-2, 2m-2, ..., m+1, m+1, m, m and one more m. */
  function TightJob(m: nat, i: nat): int
  {
    if i < 2 * m then 2 * m - 1 - i / 2 else m
  }

  /** Longest first: along the machines, back again, and the last job on top. */
  function GreedyMachine(m: nat, i: nat): nat
  {
    if i < m then i else if i < 2 * m then 2 * m - 1 - i else 0
  }

  /** Better: the longest with the shortest but three, and so on; the three shortest together. */
  function BestMachine(m: nat, i: nat): nat
    requires m > 0
  {
    if i >= 2 * m - 2 then m - 1 else if i < m - 1 then i else 2 * m - 3 - i
  }

  ghost function TightJobs(m: nat): (p: seq<int>)
    ensures |p| == 2 * m + 1 && forall i :: 0 <= i < |p| ==> p[i] == TightJob(m, i)
  {
    seq(2 * m + 1, i requires 0 <= i => TightJob(m, i))
  }

  ghost function TightGreedy(m: nat): (t: seq<nat>)
    ensures |t| == 2 * m + 1 && forall i :: 0 <= i < |t| ==> t[i] == GreedyMachine(m, i)
  {
    seq(2 * m + 1, i requires 0 <= i => GreedyMachine(m, i))
  }

  ghost function TightBest(m: nat): (u: seq<nat>)
    requires m > 0
    ensures |u| == 2 * m + 1 && forall i :: 0 <= i < |u| ==> u[i] == BestMachine(m, i)
  {
    seq(2 * m + 1, i requires 0 <= i => BestMachine(m, i))
  }

  /** Weight `w` counts once `k` jobs are placed if it is that of job `i`. */
  function Placed(w: int, i: int, k: nat): int
  {
    if i < k then w else 0
  }

  /** What machine `s` carries once `k` jobs are placed longest first. */
  function GreedyLoad(m: nat, k: nat, s: nat): int
    requires s < m
  {
    Placed(TightJob(m, s), s, k) + Placed(TightJob(m, 2 * m - 1 - s), 2 * m - 1 - s, k)
    + if s == 0 then Placed(m, 2 * m, k) else 0
  }

  /** And what it carries in the better schedule. */
  function BestLoad(m: nat, k: nat, s: nat): int
    requires s < m
  {
    if s < m - 1 then Placed(TightJob(m, s), s, k) + Placed(TightJob(m, 2 * m - 3 - s), 2 * m - 3 - s, k)
    else Placed(m, 2 * m - 2, k) + Placed(m, 2 * m - 1, k) + Placed(m, 2 * m, k)
  }

  lemma LoadsStep(m: nat, k: nat, s: nat)
    requires k <= 2 * m && s < m
    ensures GreedyLoad(m, k + 1, s) == GreedyLoad(m, k, s) + if GreedyMachine(m, k) == s then TightJob(m, k) else 0
    ensures BestLoad(m, k + 1, s) == BestLoad(m, k, s) + if BestMachine(m, k) == s then TightJob(m, k) else 0
  {
  }

  lemma {:induction false} TightGreedyLoad(m: nat, k: nat, s: nat)
    requires k <= 2 * m + 1 && s < m
    ensures LoadOn(TightJobs(m)[..k], TightGreedy(m)[..k], s) == GreedyLoad(m, k, s)
  {
    if k > 0 {
      TightGreedyLoad(m, k - 1, s);
      PlaceStep(TightJobs(m), TightJobs(m), TightGreedy(m), k - 1, s);
      LoadsStep(m, k - 1, s);
    }
  }

  lemma {:induction false} TightBestLoad(m: nat, k: nat, s: nat)
    requires k <= 2 * m + 1 && s < m
    ensures LoadOn(TightJobs(m)[..k], TightBest(m)[..k], s) == BestLoad(m, k, s)
  {
    if k > 0 {
      TightBestLoad(m, k - 1, s);
      PlaceStep(TightJobs(m), TightJobs(m), TightBest(m), k - 1, s);
      LoadsStep(m, k - 1, s);
    }
  }

  lemma TightIsGreedy(m: nat)
    requires m > 0
    ensures Greedy(TightJobs(m), TightGreedy(m), m)
  {
    var p, t := TightJobs(m), TightGreedy(m);
    forall k: nat | k < |t| ensures OnLightest(p, t, m, k) {
      forall s: nat | s < m ensures LoadOn(p[..k], t[..k], t[k]) <= LoadOn(p[..k], t[..k], s) {
        TightGreedyLoad(m, k, t[k]);
        TightGreedyLoad(m, k, s);
      }
    }
  }

  lemma TightIsWithin(m: nat)
    requires m > 0
    ensures Within(TightJobs(m), TightBest(m), m, 3 * m)
  {
    var p, u := TightJobs(m), TightBest(m);
    assert p[..|p|] == p && u[..|u|] == u;
    forall s: nat | s < m ensures LoadOn(p, u, s) <= 3 * m {
      TightBestLoad(m, |p|, s);
    }
  }

  /** For every number of machines there are jobs on which longest-first list scheduling is as far from another
  schedule as the bound allows. */
  lemma LongestFirstBoundIsTight(m: nat)
    requires m > 0
    ensures var p, t, u := TightJobs(m), TightGreedy(m), TightBest(m);
      && NonNegative(p) && NonIncreasing(p) && Greedy(p, t, m) && Within(p, u, m, 3 * m)
      && 3 * m * LoadOn(p, t, 0) == (4 * m - 1) * (3 * m)
  {
    var p, t := TightJobs(m), TightGreedy(m);
    TightIsGreedy(m);
    TightIsWithin(m);
    assert p[..|p|] == p && t[..|t|] == t;
    TightGreedyLoad(m, |p|, 0);
    TightRatio(m, LoadOn(p, t, 0));
  }

  lemma TightRatio(m: int, load: int)
    requires load == 4 * m - 1
    ensures 3 * m * load == (4 * m - 1) * (3 * m)
  {
  }
}
