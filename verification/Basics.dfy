/** Outcomes, permutations and sorting shared by the models. */
module Basics {

  datatype Option<+T> = None | Some(value: T)

  datatype Result<+T, +E> = Success(value: T) | Failure(error: E)

  ghost predicate Ascending(s: seq<int>)
  {
    forall i, j :: 0 <= i < j < |s| ==> s[i] <= s[j]
  }

  function Insert(x: int, s: seq<int>): (r: seq<int>)
    ensures |r| == |s| + 1
    ensures multiset(r) == multiset(s) + multiset{x}
  {
    if s == [] then [x]
    else if x <= s[0] then [x] + s
    else
      assert s == [s[0]] + s[1..];
      [s[0]] + Insert(x, s[1..])
  }

  lemma SameMembers(s: seq<int>, t: seq<int>)
    requires multiset(s) == multiset(t)
    ensures |s| == |t|
    ensures forall y :: y in s <==> y in t
  {
    assert |s| == |multiset(s)| == |multiset(t)| == |t|;
    assert forall y :: y in s <==> y in multiset(s);
    assert forall y :: y in t <==> y in multiset(t);
  }

  ghost predicate AllAtLeast(low: int, s: seq<int>)
  {
    forall i :: 0 <= i < |s| ==> low <= s[i]
  }

  lemma {:induction false} InsertAtLeast(x: int, s: seq<int>, low: int)
    requires low <= x && AllAtLeast(low, s)
    ensures AllAtLeast(low, Insert(x, s))
  {
    if s != [] && x > s[0] {
      InsertAtLeast(x, s[1..], low);
    }
  }

  lemma {:induction false} InsertAscending(x: int, s: seq<int>)
    requires Ascending(s)
    ensures Ascending(Insert(x, s))
  {
    if s != [] && x > s[0] {
      var rest := Insert(x, s[1..]);
      InsertAscending(x, s[1..]);
      InsertAtLeast(x, s[1..], s[0]);
      assert AllAtLeast(s[0], rest) && Insert(x, s) == [s[0]] + rest;
    }
  }

  /** Python's `sorted` on whole numbers. */
  function Sort(s: seq<int>): (r: seq<int>)
    ensures Ascending(r) && multiset(r) == multiset(s) && |r| == |s|
  {
    if s == [] then []
    else
      assert s == [s[0]] + s[1..];
      var rest := Sort(s[1..]);
      InsertAscending(s[0], rest);
      Insert(s[0], rest)
  }

  lemma TailBag(s: seq<int>)
    requires s != []
    ensures multiset(s[1..]) == multiset(s) - multiset{s[0]}
  {
    assert s == [s[0]] + s[1..];
  }

  /** Only one ascending sequence holds a given bag of numbers. */
  lemma {:induction false} AscendingUnique(s: seq<int>, t: seq<int>)
    requires Ascending(s) && Ascending(t) && multiset(s) == multiset(t)
    ensures s == t
  {
    SameMembers(s, t);
    if s != [] {
      assert s[0] == t[0] by {
        assert s[0] in s && t[0] in t;
        assert s[0] in t && t[0] in s;
      }
      TailBag(s);
      TailBag(t);
      AscendingUnique(s[1..], t[1..]);
    }
  }

  lemma SortIgnoresOrder(s: seq<int>, t: seq<int>)
    requires multiset(s) == multiset(t)
    ensures Sort(s) == Sort(t)
  {
    AscendingUnique(Sort(s), Sort(t));
  }

  /** The indexes below `n`, in order. */
  function Identity(n: nat): (r: seq<nat>)
    ensures |r| == n && forall i :: 0 <= i < n ==> r[i] == i
  {
    seq(n, i => i)
  }

  /** Every index below `n`, each exactly once. */
  ghost predicate IsPermutation(order: seq<nat>, n: nat)
  {
    multiset(order) == multiset(Identity(n))
  }

  lemma IdentityCount(n: nat, x: nat)
    ensures multiset(Identity(n))[x] == if x < n then 1 else 0
  {
    if n > 0 {
      IdentityCount(n - 1, x);
      assert Identity(n) == Identity(n - 1) + [n - 1];
    }
  }

  lemma PermutationIndexes(order: seq<nat>, n: nat)
    requires IsPermutation(order, n)
    ensures |order| == n
    ensures forall i :: 0 <= i < |order| ==> order[i] < n
    ensures forall x: nat :: x < n ==> x in order
    ensures forall i, j :: 0 <= i < j < |order| ==> order[i] != order[j]
  {
    assert |order| == |multiset(order)| == |multiset(Identity(n))| == n;
    forall i | 0 <= i < |order| ensures order[i] < n {
      assert order[i] in multiset(order);
      IdentityCount(n, order[i]);
    }
    forall x: nat | x < n ensures x in order {
      IdentityCount(n, x);
      assert x in multiset(order);
    }
    forall i, j | 0 <= i < j < |order| ensures order[i] != order[j] {
      IdentityCount(n, order[i]);
      assert order == order[..i] + [order[i]] + order[i + 1..j] + [order[j]] + order[j + 1..];
    }
  }

  /** A whole number of halves rounded to the nearest whole, a tie to the even one: Python's `round`. */
  function RoundHalves(halves: int): (r: int)
    ensures 2 * r - 1 <= halves <= 2 * r + 1
    ensures halves % 2 != 0 ==> r % 2 == 0
  {
    if halves % 2 == 0 || (halves / 2) % 2 == 0 then halves / 2 else halves / 2 + 1
  }

  /** The middle of a sorted sequence, or the middle two averaged and rounded. */
  function Middle(s: seq<int>): (r: int)
    requires s != []
  {
    var n := |s|;
    if n % 2 == 1 then s[n / 2] else RoundHalves(s[n / 2 - 1] + s[n / 2])
  }

  /** `round(statistics.median(values))`. */
  function MedianInt(values: seq<int>): (r: int)
    requires values != []
  {
    Middle(Sort(values))
  }

  lemma {:induction false} SortAtLeast(s: seq<int>, low: int)
    requires AllAtLeast(low, s)
    ensures AllAtLeast(low, Sort(s))
  {
    if s != [] {
      SortAtLeast(s[1..], low);
      InsertAtLeast(s[0], Sort(s[1..]), low);
    }
  }

  /** The rounded median is no less than the smallest value. */
  lemma MedianAtLeast(values: seq<int>, low: int)
    requires values != [] && AllAtLeast(low, values)
    ensures MedianInt(values) >= low
  {
    SortAtLeast(values, low);
  }

  /** The median does not depend on the order of the values. */
  lemma MedianIgnoresOrder(values: seq<int>, other: seq<int>)
    requires values != [] && multiset(values) == multiset(other)
    ensures other != [] && MedianInt(values) == MedianInt(other)
  {
    SameMembers(values, other);
    SortIgnoresOrder(values, other);
  }

  // ----------------------------------------------------------- the median by rank

  /** How many of the values are at most `x`. */
  function AtMost(values: seq<int>, x: int): nat
  {
    if values == [] then 0 else AtMost(values[1..], x) + if values[0] <= x then 1 else 0
  }

  lemma {:induction false} AtMostInsert(y: int, s: seq<int>, x: int)
    ensures AtMost(Insert(y, s), x) == AtMost(s, x) + if y <= x then 1 else 0
  {
    if s != [] && s[0] < y {
      AtMostInsert(y, s[1..], x);
    }
  }

  lemma {:induction false} AtMostSort(s: seq<int>, x: int)
    ensures AtMost(Sort(s), x) == AtMost(s, x)
  {
    if s != [] {
      AtMostSort(s[1..], x);
      AtMostInsert(s[0], Sort(s[1..]), x);
    }
  }

  /** In ascending order, as many values are at most `x` as stand before the first one above it. */
  lemma {:induction false} AtMostAscending(s: seq<int>, i: nat, x: int)
    requires Ascending(s) && i < |s|
    ensures AtMost(s, x) <= |s|
    ensures s[i] <= x ==> AtMost(s, x) > i
    ensures s[i] > x ==> AtMost(s, x) <= i
  {
    if i > 0 {
      AtMostAscending(s[1..], i - 1, x);
    } else if |s| > 1 {
      AtMostAscending(s[1..], 0, x);
    }
  }

  /** `a` is the lower middle of the values: fewer than half lie below it, and at least half are at most `a`. */
  ghost predicate IsLowerMiddle(values: seq<int>, a: int)
  {
    a in values && 2 * AtMost(values, a - 1) < |values| <= 2 * AtMost(values, a)
  }

  /** `b` is the upper middle: fewer than half lie above it, and at least half are at least `b`. */
  ghost predicate IsUpperMiddle(values: seq<int>, b: int)
  {
    b in values && 2 * (|values| - AtMost(values, b)) < |values| <= 2 * (|values| - AtMost(values, b - 1))
  }

  /** The median is half-way between the lower and the upper middle, rounded. */
  lemma MedianIsMiddle(values: seq<int>) returns (a: int, b: int)
    requires values != []
    ensures IsLowerMiddle(values, a) && IsUpperMiddle(values, b) && a <= b
    ensures MedianInt(values) == RoundHalves(a + b)
  {
    var s := Sort(values);
    var lower, upper := (|values| - 1) / 2, |values| / 2;
    a, b := s[lower], s[upper];
    Halves(|values|);
    AtRank(values, s, lower);
    AtRank(values, s, upper);
    MiddleIsBetween(s);
  }

  lemma Halves(n: nat)
    requires n > 0
    ensures 2 * ((n - 1) / 2) < n <= 2 * ((n - 1) / 2 + 1)
    ensures 2 * (n - (n / 2 + 1)) < n <= 2 * (n - n / 2)
  {
  }

  lemma AtRank(values: seq<int>, s: seq<int>, i: nat)
    requires s == Sort(values) && i < |values|
    ensures 2 * i < |values| <= 2 * (i + 1) ==> IsLowerMiddle(values, s[i])
    ensures 2 * (|values| - (i + 1)) < |values| <= 2 * (|values| - i) ==> IsUpperMiddle(values, s[i])
  {
    SortedMember(values, i);
    Ranked(values, s, i);
  }

  lemma MiddleIsBetween(s: seq<int>)
    requires s != [] && Ascending(s)
    ensures s[(|s| - 1) / 2] <= s[|s| / 2] && Middle(s) == RoundHalves(s[(|s| - 1) / 2] + s[|s| / 2])
  {
  }

  lemma SortedMember(values: seq<int>, i: nat)
    requires i < |values|
    ensures Sort(values)[i] in values
  {
    SameMembers(values, Sort(values));
  }

  lemma Ranked(values: seq<int>, s: seq<int>, i: nat)
    requires s == Sort(values) && i < |values|
    ensures AtMost(values, s[i] - 1) <= i < AtMost(values, s[i]) <= |values|
  {
    AtMostSort(values, s[i]);
    AtMostSort(values, s[i] - 1);
    AtMostAscending(s, i, s[i]);
    AtMostAscending(s, i, s[i] - 1);
  }

  /** `iter().find`: the first element that satisfies `p`. */
  function First<T>(xs: seq<T>, p: T -> bool): (r: Option<T>)
    ensures r.Some? ==>
      exists i :: 0 <= i < |xs| && xs[i] == r.value && p(xs[i]) && forall j :: 0 <= j < i ==> !p(xs[j])
    ensures r.None? ==> forall i :: 0 <= i < |xs| ==> !p(xs[i])
  {
    if xs == [] then None else if p(xs[0]) then Some(xs[0]) else First(xs[1..], p)
  }

  lemma FirstExactly<T>(xs: seq<T>, p: T -> bool, x: T)
    ensures First(xs, p) == Some(x)
       <==> exists i :: 0 <= i < |xs| && xs[i] == x && p(xs[i]) && forall j :: 0 <= j < i ==> !p(xs[j])
  {
    var r := First(xs, p);
    if r.Some? {
      var i :| 0 <= i < |xs| && xs[i] == r.value && p(xs[i]) && forall j :: 0 <= j < i ==> !p(xs[j]);
      if k :| 0 <= k < |xs| && xs[k] == x && p(xs[k]) && forall j :: 0 <= j < k ==> !p(xs[j]) {
        assert k == i;
      }
    }
  }

  function Flatten<T>(xss: seq<seq<T>>): seq<T>
  {
    if xss == [] then [] else Flatten(xss[..|xss| - 1]) + xss[|xss| - 1]
  }
}
