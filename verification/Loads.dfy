/** Sums over jobs dealt to machines: the arithmetic the shard scheduler's bounds rest on.

A deal of jobs is a pair of equally long sequences: what each job weighs, and
the machine it went to. */
module Loads {

  /** The weight machine `s` carries when job `i` weighs `p[i]` and went to `t[i]`. */
  function LoadOn(p: seq<int>, t: seq<nat>, s: nat): int
    requires |p| == |t|
  {
    if |p| == 0 then 0
    else
      LoadOn(p[..|p| - 1], t[..|t| - 1], s) + if t[|t| - 1] == s then p[|p| - 1] else 0
  }

  function Total(p: seq<int>): int
  {
    if |p| == 0 then 0 else Total(p[..|p| - 1]) + p[|p| - 1]
  }

  ghost predicate NonNegative(p: seq<int>)
  {
    forall i :: 0 <= i < |p| ==> 0 <= p[i]
  }

  ghost predicate OnMachines(t: seq<nat>, m: nat)
  {
    forall i :: 0 <= i < |t| ==> t[i] < m
  }

  /** The weight of the first `m` machines together. */
  ghost function LoadsUpTo(p: seq<int>, t: seq<nat>, m: nat): int
    requires |p| == |t|
  {
    if m == 0 then 0 else LoadsUpTo(p, t, m - 1) + LoadOn(p, t, m - 1)
  }

  lemma {:induction false} LoadsUpToStep(p: seq<int>, t: seq<nat>, m: nat)
    requires |p| == |t| > 0
    ensures LoadsUpTo(p, t, m)
         == LoadsUpTo(p[..|p| - 1], t[..|t| - 1], m) + if t[|t| - 1] < m then p[|p| - 1] else 0
  {
    if m > 0 {
      LoadsUpToStep(p, t, m - 1);
    }
  }

  lemma {:induction false} NothingLoaded(m: nat)
    ensures LoadsUpTo([], [], m) == 0
  {
    if m > 0 {
      NothingLoaded(m - 1);
    }
  }

  /** No weight is lost or doubled: the loads of all machines add up to the total. */
  lemma {:induction false} LoadsAddUp(p: seq<int>, t: seq<nat>, m: nat)
    requires |p| == |t| && OnMachines(t, m)
    ensures LoadsUpTo(p, t, m) == Total(p)
  {
    if |p| == 0 {
      NothingLoaded(m);
    } else {
      LoadsAddUp(p[..|p| - 1], t[..|t| - 1], m);
      LoadsUpToStep(p, t, m);
    }
  }

  lemma {:induction false} LoadsAtMost(p: seq<int>, t: seq<nat>, m: nat, bound: int)
    requires |p| == |t|
    requires forall s: nat :: s < m ==> LoadOn(p, t, s) <= bound
    ensures LoadsUpTo(p, t, m) <= m * bound
  {
    if m > 0 {
      LoadsAtMost(p, t, m - 1, bound);
    }
  }

  lemma {:induction false} LoadsAtLeast(p: seq<int>, t: seq<nat>, m: nat, bound: int)
    requires |p| == |t|
    requires forall s: nat :: s < m ==> LoadOn(p, t, s) >= bound
    ensures LoadsUpTo(p, t, m) >= m * bound
  {
    if m > 0 {
      LoadsAtLeast(p, t, m - 1, bound);
    }
  }

  lemma {:induction false} LoadNonNegative(p: seq<int>, t: seq<nat>, s: nat)
    requires |p| == |t| && NonNegative(p)
    ensures LoadOn(p, t, s) >= 0
  {
    if |p| > 0 {
      LoadNonNegative(p[..|p| - 1], t[..|t| - 1], s);
    }
  }

  /** A job's weight is part of the load of the machine it went to. */
  lemma {:induction false} JobInLoad(p: seq<int>, t: seq<nat>, i: nat)
    requires |p| == |t| && NonNegative(p) && i < |p|
    ensures p[i] <= LoadOn(p, t, t[i])
  {
    var k := |p| - 1;
    if i < k {
      JobInLoad(p[..k], t[..k], i);
    } else {
      LoadNonNegative(p[..k], t[..k], t[i]);
    }
  }

  /** `xs` without its element at `j`. */
  ghost function Without<T>(xs: seq<T>, j: nat): seq<T>
    requires j < |xs|
  {
    xs[..j] + xs[j + 1..]
  }

  lemma WithoutPrefix<T>(xs: seq<T>, j: nat)
    requires j < |xs| - 1
    ensures Without(xs, j)[..|xs| - 2] == Without(xs[..|xs| - 1], j)
    ensures Without(xs, j)[|xs| - 2] == xs[|xs| - 1]
  {
  }

  lemma {:induction false} LoadWithout(p: seq<int>, t: seq<nat>, s: nat, j: nat)
    requires |p| == |t| && j < |p|
    ensures LoadOn(p, t, s) == LoadOn(Without(p, j), Without(t, j), s) + if t[j] == s then p[j] else 0
  {
    var k := |p| - 1;
    if j == k {
      assert Without(p, j) == p[..k] && Without(t, j) == t[..k];
    } else {
      LoadWithout(p[..k], t[..k], s, j);
      WithoutPrefix(p, j);
      WithoutPrefix(t, j);
    }
  }

  ghost predicate IndexesInto(order: seq<nat>, n: nat)
  {
    forall i :: 0 <= i < |order| ==> order[i] < n
  }

  /** The values at the given indexes, in that order. */
  function Gather<T>(xs: seq<T>, order: seq<nat>): (r: seq<T>)
    requires IndexesInto(order, |xs|)
    ensures |r| == |order|
    ensures forall i :: 0 <= i < |order| ==> r[i] == xs[order[i]]
  {
    seq(|order|, i requires 0 <= i < |order| => xs[order[i]])
  }

  lemma BagWithout<T>(xs: seq<T>, j: nat)
    requires j < |xs|
    ensures multiset(Without(xs, j)) == multiset(xs) - multiset{xs[j]}
  {
    assert xs == xs[..j] + [xs[j]] + xs[j + 1..];
  }

  lemma GatherWithout<T>(xs: seq<T>, order: seq<nat>, j: nat)
    requires IndexesInto(order, |xs|) && j < |order|
    ensures IndexesInto(Without(order, j), |xs|)
    ensures Without(Gather(xs, order), j) == Gather(xs, Without(order, j))
  {
  }

  /** The first of one listing can be taken out of both. */
  lemma Removable(order: seq<nat>, other: seq<nat>) returns (j: nat)
    requires multiset(order) == multiset(other) && (|order| > 0 || |other| > 0)
    ensures |order| > 0 && j < |other| && other[j] == order[0]
    ensures multiset(Without(order, 0)) == multiset(Without(other, j))
  {
    assert |order| == |multiset(order)| == |multiset(other)| == |other|;
    assert order[0] in multiset(order);
    j :| 0 <= j < |other| && other[j] == order[0];
    BagWithout(order, 0);
    BagWithout(other, j);
  }

  /** The order in which jobs are listed does not change what a machine carries. */
  lemma {:induction false} LoadIgnoresOrder(
    w: seq<int>, f: seq<nat>, order: seq<nat>, other: seq<nat>, s: nat)
    requires |w| == |f| && IndexesInto(order, |w|) && IndexesInto(other, |w|)
    requires multiset(order) == multiset(other)
    ensures LoadOn(Gather(w, order), Gather(f, order), s) == LoadOn(Gather(w, other), Gather(f, other), s)
    decreases |order|
  {
    if |order| > 0 || |other| > 0 {
      var j := Removable(order, other);
      GatherWithout(w, order, 0);
      GatherWithout(f, order, 0);
      GatherWithout(w, other, j);
      GatherWithout(f, other, j);
      LoadIgnoresOrder(w, f, Without(order, 0), Without(other, j), s);
      LoadWithout(Gather(w, order), Gather(f, order), s, 0);
      LoadWithout(Gather(w, other), Gather(f, other), s, j);
    }
  }

  /** The jobs of `xs` that went to machine `s`, in the order of `xs`. */
  function Picked<T>(xs: seq<T>, t: seq<nat>, s: nat): (r: seq<T>)
    requires |xs| == |t|
  {
    if |xs| == 0 then []
    else
      Picked(xs[..|xs| - 1], t[..|t| - 1], s) + if t[|t| - 1] == s then [xs[|xs| - 1]] else []
  }

  function Ones(n: nat): (r: seq<int>)
    ensures |r| == n && forall i :: 0 <= i < n ==> r[i] == 1
  {
    seq(n, i => 1)
  }

  /** How many jobs went to machine `s`. */
  function CountOn(t: seq<nat>, s: nat): int
  {
    LoadOn(Ones(|t|), t, s)
  }

  lemma CountStep(t: seq<nat>, s: nat)
    requires |t| > 0
    ensures CountOn(t, s) == CountOn(t[..|t| - 1], s) + if t[|t| - 1] == s then 1 else 0
  {
    assert Ones(|t|)[..|t| - 1] == Ones(|t| - 1);
  }

  lemma {:induction false} PickedCount<T>(xs: seq<T>, t: seq<nat>, s: nat)
    requires |xs| == |t|
    ensures |Picked(xs, t, s)| == CountOn(t, s)
  {
    if |xs| > 0 {
      PickedCount(xs[..|xs| - 1], t[..|t| - 1], s);
      CountStep(t, s);
    }
  }

  /** Placing one more job adds it to its own machine and to no other. */
  lemma PlaceStep<T>(xs: seq<T>, p: seq<int>, t: seq<nat>, k: nat, s: nat)
    requires |xs| == |p| == |t| && k < |t|
    ensures Picked(xs[..k + 1], t[..k + 1], s) == Picked(xs[..k], t[..k], s) + if t[k] == s then [xs[k]] else []
    ensures LoadOn(p[..k + 1], t[..k + 1], s) == LoadOn(p[..k], t[..k], s) + if t[k] == s then p[k] else 0
  {
    assert xs[..k + 1][..k] == xs[..k] && p[..k + 1][..k] == p[..k] && t[..k + 1][..k] == t[..k];
  }

  /** The bag that holds `x` when `keep` and nothing otherwise. */
  ghost function Just<T>(x: T, keep: bool): multiset<T>
  {
    if keep then multiset{x} else multiset{}
  }

  lemma PickedLast<T>(xs: seq<T>, t: seq<nat>, s: nat)
    requires |xs| == |t| > 0
    ensures multiset(Picked(xs, t, s))
         == multiset(Picked(xs[..|xs| - 1], t[..|t| - 1], s)) + Just(xs[|xs| - 1], t[|t| - 1] == s)
  {
  }

  lemma Regroup<T>(
    all: multiset<T>, most: multiset<T>, last: multiset<T>, less: multiset<T>, one: multiset<T>, rest: multiset<T>)
    requires all == most + last && most == less + one && rest == less + last
    ensures all == rest + one
  {
  }

  lemma {:induction false} PickedWithout<T>(xs: seq<T>, t: seq<nat>, s: nat, j: nat)
    requires |xs| == |t| && j < |xs|
    ensures multiset(Picked(xs, t, s))
         == multiset(Picked(Without(xs, j), Without(t, j), s)) + Just(xs[j], t[j] == s)
  {
    var k := |xs| - 1;
    PickedLast(xs, t, s);
    if j == k {
      assert Without(xs, j) == xs[..k] && Without(t, j) == t[..k];
    } else {
      var last := Just(xs[k], t[k] == s);
      PickedWithout(xs[..k], t[..k], s, j);
      WithoutPrefix(xs, j);
      WithoutPrefix(t, j);
      PickedLast(Without(xs, j), Without(t, j), s);
      Regroup(multiset(Picked(xs, t, s)), multiset(Picked(xs[..k], t[..k], s)), last,
              multiset(Picked(Without(xs[..k], j), Without(t[..k], j), s)), Just(xs[j], t[j] == s),
              multiset(Picked(Without(xs, j), Without(t, j), s)));
    }
  }

  /** The order in which jobs are listed does not change which of them a machine gets. */
  lemma {:induction false} PickedIgnoresOrder<T>(
    xs: seq<T>, f: seq<nat>, order: seq<nat>, other: seq<nat>, s: nat)
    requires |xs| == |f| && IndexesInto(order, |xs|) && IndexesInto(other, |xs|)
    requires multiset(order) == multiset(other)
    ensures multiset(Picked(Gather(xs, order), Gather(f, order), s))
         == multiset(Picked(Gather(xs, other), Gather(f, other), s))
    decreases |order|
  {
    if |order| > 0 || |other| > 0 {
      var j := Removable(order, other);
      var order', other' := Without(order, 0), Without(other, j);
      GatherWithout(xs, order, 0);
      GatherWithout(f, order, 0);
      GatherWithout(xs, other, j);
      GatherWithout(f, other, j);
      PickedIgnoresOrder(xs, f, order', other', s);
      PickedWithout(Gather(xs, order), Gather(f, order), s, 0);
      PickedWithout(Gather(xs, other), Gather(f, other), s, j);
    }
  }

  lemma {:induction false} PickedHas<T>(xs: seq<T>, t: seq<nat>, i: nat)
    requires |xs| == |t| && i < |xs|
    ensures xs[i] in Picked(xs, t, t[i])
  {
    if i < |xs| - 1 {
      PickedHas(xs[..|xs| - 1], t[..|t| - 1], i);
    }
  }
}
