/** The names of a set in their sorted order, as Python's `sorted` gives them. */
module Names {
  /** Strings are compared character by character; a proper prefix comes first. */
  predicate Before(a: string, b: string)
  {
    b != "" && (a == "" || a[0] < b[0] || (a[0] == b[0] && Before(a[1..], b[1..])))
  }

  /** The first place where they differ decides, and otherwise the length. */
  lemma {:induction false} BeforeExactlyWhen(a: string, b: string)
    ensures Before(a, b) <==>
      exists k: nat :: AgreeUpTo(a, b, k) && k < |b| && (k == |a| || a[k] < b[k])
  {
    if a != "" && b != "" && a[0] == b[0] {
      BeforeExactlyWhen(a[1..], b[1..]);
      if k: nat :| AgreeUpTo(a[1..], b[1..], k) && k < |b[1..]| && (k == |a[1..]| || a[1..][k] < b[1..][k]) {
        assert a[..k + 1] == [a[0]] + a[1..][..k] && b[..k + 1] == [b[0]] + b[1..][..k];
        assert AgreeUpTo(a, b, k + 1) && (k + 1 < |a| ==> a[k + 1] == a[1..][k]) && b[k + 1] == b[1..][k];
      }
      if k: nat :| AgreeUpTo(a, b, k) && k < |b| && (k == |a| || a[k] < b[k]) {
        assert a[1..][..k - 1] == a[..k][1..] && b[1..][..k - 1] == b[..k][1..];
        assert AgreeUpTo(a[1..], b[1..], k - 1) && (k < |a| ==> a[k] == a[1..][k - 1]) && b[k] == b[1..][k - 1];
      }
    } else {
      assert AgreeUpTo(a, b, 0);
    }
  }

  /** The strings agree before place `k`. */
  ghost predicate AgreeUpTo(a: string, b: string, k: nat)
  {
    k <= |a| && k <= |b| && a[..k] == b[..k]
  }

  lemma {:induction false} BeforeIsTotal(a: string, b: string)
    ensures Before(a, b) || Before(b, a) || a == b
  {
    if a != "" && b != "" && a[0] == b[0] {
      BeforeIsTotal(a[1..], b[1..]);
      assert a == [a[0]] + a[1..] && b == [b[0]] + b[1..];
    }
  }

  lemma {:induction false} BeforeIsStrict(a: string, b: string)
    requires Before(a, b)
    ensures !Before(b, a)
  {
    if a != "" && a[0] == b[0] {
      BeforeIsStrict(a[1..], b[1..]);
    }
  }

  lemma {:induction false} BeforeIsTransitive(a: string, b: string, c: string)
    requires Before(a, b) && Before(b, c)
    ensures Before(a, c)
  {
    if a != "" && a[0] == b[0] == c[0] {
      BeforeIsTransitive(a[1..], b[1..], c[1..]);
    }
  }

  ghost predicate Increasing(order: seq<string>)
  {
    forall i, j :: 0 <= i < j < |order| ==> Before(order[i], order[j])
  }

  ghost predicate AllAfter(name: string, order: seq<string>)
  {
    forall i :: 0 <= i < |order| ==> Before(name, order[i])
  }

  lemma IncreasingHead(name: string, order: seq<string>)
    requires AllAfter(name, order) && Increasing(order)
    ensures Increasing([name] + order)
  {
  }

  /** `order` holds exactly the names of the set, in ascending order. */
  ghost predicate Sorts(order: seq<string>, names: set<string>)
  {
    Increasing(order) && forall name :: name in order <==> name in names
  }

  function InsertName(name: string, order: seq<string>): (r: seq<string>)
    ensures forall x :: x in r <==> x == name || x in order
  {
    if order == [] then [name]
    else if Before(name, order[0]) then [name] + order
    else [order[0]] + InsertName(name, order[1..])
  }

  lemma InsertAfter(low: string, name: string, order: seq<string>)
    requires Before(low, name) && AllAfter(low, order)
    ensures AllAfter(low, InsertName(name, order))
  {
    forall i | 0 <= i < |InsertName(name, order)| ensures Before(low, InsertName(name, order)[i]) {
      assert InsertName(name, order)[i] in InsertName(name, order);
    }
  }

  lemma {:induction false} InsertIncreasing(name: string, order: seq<string>)
    requires Increasing(order) && name !in order
    ensures Increasing(InsertName(name, order))
  {
    if order != [] {
      var rest := order[1..];
      if Before(name, order[0]) {
        forall i | 0 <= i < |order| ensures Before(name, order[i]) {
          if i > 0 {
            BeforeIsTransitive(name, order[0], order[i]);
          }
        }
        IncreasingHead(name, order);
      } else {
        BeforeIsTotal(name, order[0]);
        assert Before(order[0], name);
        InsertIncreasing(name, rest);
        InsertAfter(order[0], name, rest);
        IncreasingHead(order[0], InsertName(name, rest));
      }
    }
  }

  /** There is only one ascending order. */
  lemma {:induction false} SortsUnique(one: seq<string>, two: seq<string>, names: set<string>)
    requires Sorts(one, names) && Sorts(two, names)
    ensures one == two
    decreases |one|
  {
    assert two != [] ==> two[0] in one;
    if one != [] {
      assert one[0] in two;
      var x, y := one[0], two[0];
      if x != y {
        LeastFirst(one, y);
        LeastFirst(two, x);
        BeforeIsStrict(x, y);
      }
      SortsRest(one, names);
      SortsRest(two, names);
      SortsUnique(one[1..], two[1..], names - {x});
      assert one == [x] + one[1..] && two == [x] + two[1..];
    }
  }

  lemma LeastFirst(order: seq<string>, x: string)
    requires Increasing(order) && x in order && x != order[0]
    ensures Before(order[0], x)
  {
    var i :| 0 <= i < |order| && order[i] == x;
  }

  lemma SortsRest(order: seq<string>, names: set<string>)
    requires Sorts(order, names) && order != []
    ensures Sorts(order[1..], names - {order[0]})
  {
    forall name ensures name in order[1..] <==> name in names - {order[0]} {
      if name in order[1..] {
        var i :| 0 < i < |order| && order[i] == name;
        BeforeIsStrict(order[0], order[i]);
      }
      if name in names - {order[0]} {
        var i :| 0 <= i < |order| && order[i] == name;
        assert order[1..][i - 1] == name;
      }
    }
  }

  lemma {:induction false} CanBeSorted(names: set<string>) returns (order: seq<string>)
    ensures Sorts(order, names)
  {
    if names == {} {
      order := [];
    } else {
      var name :| name in names;
      var rest := CanBeSorted(names - {name});
      InsertIncreasing(name, rest);
      order := InsertName(name, rest);
    }
  }

  /** `sorted(names)`. */
  ghost function Sorted(names: set<string>): (order: seq<string>)
    ensures Sorts(order, names)
  {
    assert exists order :: Sorts(order, names) by {
      var order := CanBeSorted(names);
    }
    var order :| Sorts(order, names);
    order
  }

  method SortNames(names: set<string>) returns (order: seq<string>)
    ensures order == Sorted(names)
  {
    order := [];
    var left := names;
    while left != {}
      invariant left <= names && Sorts(order, names - left)
    {
      var name :| name in left;
      InsertIncreasing(name, order);
      order, left := InsertName(name, order), left - {name};
    }
    SortsUnique(order, Sorted(names), names);
  }
}
