/** "Did you mean": the edit distance behind configuration hints (nails-base/src/config/suggest.rs). */
module EditDistance {
  import opened Basics

  // ------------------------------------------------------------ edit scripts

  /** One edit of a string, at a position. */
  datatype Edit =
    | Insertion(at: nat, c: char)
    | Deletion(at: nat)
    | Substitution(at: nat, c: char)

  ghost predicate Applies(e: Edit, s: string)
  {
    if e.Insertion? then e.at <= |s| else e.at < |s|
  }

  ghost function Apply(e: Edit, s: string): string
    requires Applies(e, s)
  {
    match e
    case Insertion(at, c) => s[..at] + [c] + s[at..]
    case Deletion(at) => s[..at] + s[at + 1..]
    case Substitution(at, c) => s[..at] + [c] + s[at + 1..]
  }

  /** The script, edit after edit, turns `a` into `b`. */
  ghost predicate Turns(script: seq<Edit>, a: string, b: string)
    decreases |script|
  {
    if script == [] then a == b
    else Applies(script[0], a) && Turns(script[1..], Apply(script[0], a), b)
  }

  // ---------------------------------------------------------- the recurrence

  function Min(a: nat, b: nat): nat
  {
    if a <= b then a else b
  }

  function Differ(x: char, y: char): nat
  {
    if x == y then 0 else 1
  }

  /** The distance of `a` and `b` from the distances of their prefixes. */
  function Distance(a: string, b: string): nat
    decreases |a| + |b|
  {
    if a == [] then |b|
    else if b == [] then |a|
    else
      var a', b' := a[..|a| - 1], b[..|b| - 1];
      Min(Min(Distance(a', b') + Differ(a[|a| - 1], b[|b| - 1]), Distance(a', b) + 1), Distance(a, b') + 1)
  }

  // ----------------------------------------------------------------- a metric

  lemma {:induction false} DistanceZero(a: string, b: string)
    ensures Distance(a, b) == 0 <==> a == b
    decreases |a| + |b|
  {
    if a != [] && b != [] {
      var a', b' := a[..|a| - 1], b[..|b| - 1];
      DistanceZero(a', b');
      assert a == a' + [a[|a| - 1]] && b == b' + [b[|b| - 1]];
    }
  }

  lemma {:induction false} DistanceSymmetric(a: string, b: string)
    ensures Distance(a, b) == Distance(b, a)
    decreases |a| + |b|
  {
    if a != [] && b != [] {
      var a', b' := a[..|a| - 1], b[..|b| - 1];
      DistanceSymmetric(a', b');
      DistanceSymmetric(a', b);
      DistanceSymmetric(a, b');
    }
  }

  /** Lengths differ by no more than the distance, and the distance is no more than the longer length. */
  lemma {:induction false} DistanceBounds(a: string, b: string)
    ensures |a| - |b| <= Distance(a, b) && |b| - |a| <= Distance(a, b)
    ensures Distance(a, b) <= if |a| <= |b| then |b| else |a|
    decreases |a| + |b|
  {
    if a != [] && b != [] {
      var a', b' := a[..|a| - 1], b[..|b| - 1];
      DistanceBounds(a', b');
      DistanceBounds(a', b);
      DistanceBounds(a, b');
    }
  }

  lemma {:induction false} Triangle(a: string, b: string, c: string)
    ensures Distance(a, c) <= Distance(a, b) + Distance(b, c)
    decreases |a| + |b| + |c|
  {
    if a == [] || b == [] || c == [] {
      DistanceBounds(a, b);
      DistanceBounds(b, c);
      DistanceBounds(a, c);
    } else {
      var a', b', c' := a[..|a| - 1], b[..|b| - 1], c[..|c| - 1];
      Triangle(a', b, c);
      Triangle(a, b, c');
      Triangle(a, b', c);
      Triangle(a, b', c');
      Triangle(a', b', c);
      Triangle(a', b', c');
    }
  }

  // ------------------------------------------------- no script is any shorter

  lemma AppendLast(a: string, tail: string)
    requires tail != []
    ensures a + tail == a + tail[..|tail| - 1] + [tail[|tail| - 1]]
  {
  }

  lemma {:induction false} SharedTail(a: string, b: string, tail: string)
    ensures Distance(a + tail, b + tail) <= Distance(a, b)
    decreases |tail|
  {
    if tail == [] {
      assert a + tail == a && b + tail == b;
    } else {
      SharedTail(a, b, tail[..|tail| - 1]);
      AppendLast(a, tail);
      AppendLast(b, tail);
    }
  }

  lemma Extend(s: string, c: char)
    ensures Distance(s, s + [c]) <= 1 && Distance(s + [c], s) <= 1
  {
    DistanceZero(s, s);
    assert (s + [c])[..|s|] == s;
    DistanceSymmetric(s, s + [c]);
  }

  lemma Replace(s: string, x: char, y: char)
    ensures Distance(s + [x], s + [y]) <= 1
  {
    DistanceZero(s, s);
    assert (s + [x])[..|s|] == s && (s + [y])[..|s|] == s;
  }

  /** A single edit is at distance one at most. */
  lemma OneEdit(e: Edit, s: string)
    requires Applies(e, s)
    ensures Distance(s, Apply(e, s)) <= 1
  {
    var head := s[..e.at];
    if e.Insertion? {
      Extend(head, e.c);
      SharedTail(head, head + [e.c], s[e.at..]);
      assert s == head + s[e.at..];
    } else {
      var x, tail := s[e.at], s[e.at + 1..];
      assert s == head + [x] + tail;
      if e.Deletion? {
        Extend(head, x);
        SharedTail(head + [x], head, tail);
      } else {
        Replace(head, x, e.c);
        SharedTail(head + [x], head + [e.c], tail);
      }
    }
  }

  /** Every script from `a` to `b` is at least as long as the distance. */
  lemma {:induction false} ScriptAtLeast(script: seq<Edit>, a: string, b: string)
    requires Turns(script, a, b)
    ensures Distance(a, b) <= |script|
    decreases |script|
  {
    if script == [] {
      DistanceZero(a, b);
    } else {
      var next := Apply(script[0], a);
      OneEdit(script[0], a);
      ScriptAtLeast(script[1..], next, b);
      Triangle(a, next, b);
    }
  }

  // ------------------------------------------------ and some script is as short

  lemma ApplyWithTail(e: Edit, s: string, tail: string)
    requires Applies(e, s)
    ensures Applies(e, s + tail) && Apply(e, s + tail) == Apply(e, s) + tail
  {
  }

  lemma {:induction false} TurnsWithTail(script: seq<Edit>, a: string, b: string, tail: string)
    requires Turns(script, a, b)
    ensures Turns(script, a + tail, b + tail)
    decreases |script|
  {
    if script != [] {
      var e := script[0];
      TurnsWithTail(script[1..], Apply(e, a), b, tail);
      ApplyWithTail(e, a, tail);
    }
  }

  lemma {:induction false} TurnsThen(script: seq<Edit>, a: string, b: string, e: Edit)
    requires Turns(script, a, b) && Applies(e, b)
    ensures Turns(script + [e], a, Apply(e, b))
    decreases |script|
  {
    if script == [] {
      assert ([] + [e])[1..] == [];
    } else {
      TurnsThen(script[1..], Apply(script[0], a), b, e);
      assert (script + [e])[1..] == script[1..] + [e];
    }
  }

  /** Build `b` up from nothing, one character after the other. */
  lemma {:induction false} BuildUp(b: string) returns (script: seq<Edit>)
    ensures |script| == |b| && Turns(script, [], b)
    decreases |b|
  {
    if b == [] {
      script := [];
    } else {
      var before := BuildUp(b[..|b| - 1]);
      script := InsertLast(before, [], b);
    }
  }

  /** Delete all of `a`, last character first. */
  lemma {:induction false} TearDown(a: string) returns (script: seq<Edit>)
    ensures |script| == |a| && Turns(script, a, [])
    decreases |a|
  {
    if a == [] {
      script := [];
    } else {
      var rest := TearDown(a[..|a| - 1]);
      script := DeleteLast(rest, a, []);
    }
  }

  /** Keep or replace the last character. */
  lemma SubstituteLast(script: seq<Edit>, a: string, b: string, x: char, y: char) returns (longer: seq<Edit>)
    requires Turns(script, a, b)
    ensures |longer| == |script| + Differ(x, y) && Turns(longer, a + [x], b + [y])
  {
    longer := script;
    TurnsWithTail(script, a, b, [x]);
    if x != y {
      TurnsThen(script, a + [x], b + [x], Substitution(|b|, y));
      assert Apply(Substitution(|b|, y), b + [x]) == b + [y];
      longer := script + [Substitution(|b|, y)];
    }
  }

  lemma DeleteLast(script: seq<Edit>, a: string, b: string) returns (longer: seq<Edit>)
    requires a != [] && Turns(script, a[..|a| - 1], b)
    ensures |longer| == |script| + 1 && Turns(longer, a, b)
  {
    var e := Deletion(|a| - 1);
    assert Apply(e, a) == a[..|a| - 1];
    longer := [e] + script;
  }

  lemma InsertLast(script: seq<Edit>, a: string, b: string) returns (longer: seq<Edit>)
    requires b != [] && Turns(script, a, b[..|b| - 1])
    ensures |longer| == |script| + 1 && Turns(longer, a, b)
  {
    var k := |b| - 1;
    var e := Insertion(k, b[k]);
    TurnsThen(script, a, b[..k], e);
    assert Apply(e, b[..k]) == b;
    longer := script + [e];
  }

  /** A script of exactly the distance exists. */
  lemma {:induction false} ShortestScript(a: string, b: string) returns (script: seq<Edit>)
    ensures |script| == Distance(a, b) && Turns(script, a, b)
    decreases |a| + |b|
  {
    if a == [] {
      script := BuildUp(b);
    } else if b == [] {
      script := TearDown(a);
    } else {
      var i, j := |a| - 1, |b| - 1;
      assert a == a[..i] + [a[i]] && b == b[..j] + [b[j]];
      if Distance(a, b) == Distance(a[..i], b[..j]) + Differ(a[i], b[j]) {
        var rest := ShortestScript(a[..i], b[..j]);
        script := SubstituteLast(rest, a[..i], b[..j], a[i], b[j]);
      } else if Distance(a, b) == Distance(a[..i], b) + 1 {
        var rest := ShortestScript(a[..i], b);
        script := DeleteLast(rest, a, b);
      } else {
        var rest := ShortestScript(a, b[..j]);
        script := InsertLast(rest, a, b);
      }
    }
  }

  /** The least number of single-character edits that turn `a` into `b`. */
  ghost predicate IsEditDistance(d: nat, a: string, b: string)
  {
    && (exists script :: |script| == d && Turns(script, a, b))
    && (forall script :: Turns(script, a, b) ==> d <= |script|)
  }

  lemma DistanceIsEditDistance(a: string, b: string)
    ensures IsEditDistance(Distance(a, b), a, b)
  {
    var script := ShortestScript(a, b);
    forall other | Turns(other, a, b) ensures Distance(a, b) <= |other| {
      ScriptAtLeast(other, a, b);
    }
  }

  // --------------------------------------------------- the two-row computation

  /** Cell (i, j) of the table: the distance of two prefixes. */
  ghost function Cell(a: string, b: string, i: nat, j: nat): nat
    requires i <= |a| && j <= |b|
  {
    Distance(a[..i], b[..j])
  }

  lemma CellStep(a: string, b: string, i: nat, j: nat)
    requires i < |a| && j < |b|
    ensures Cell(a, b, i + 1, j + 1)
         == Min(Min(Cell(a, b, i, j) + Differ(a[i], b[j]), Cell(a, b, i, j + 1) + 1), Cell(a, b, i + 1, j) + 1)
  {
    assert a[..i + 1][..i] == a[..i] && b[..j + 1][..j] == b[..j];
  }

  /** `levenshtein`: one row of the table at a time, the two rows swapped after each character of `a`. */
  method Levenshtein(a: string, b: string) returns (d: nat)
    ensures d == Distance(a, b)
    ensures IsEditDistance(d, a, b)
  {
    var previous := new nat[|b| + 1](j => j);
    var current := new nat[|b| + 1](_ => 0);
    for i := 0 to |a|
      invariant previous.Length == current.Length == |b| + 1 && previous != current
      invariant fresh(previous) && fresh(current)
      invariant forall j :: 0 <= j <= |b| ==> previous[j] == Cell(a, b, i, j)
    {
      current[0] := i + 1;
      for j := 0 to |b|
        invariant forall k :: 0 <= k <= |b| ==> previous[k] == Cell(a, b, i, k)
        invariant forall k :: 0 <= k <= j ==> current[k] == Cell(a, b, i + 1, k)
      {
        var substitution := previous[j] + Differ(a[i], b[j]);
        CellStep(a, b, i, j);
        current[j + 1] := Min(Min(substitution, previous[j + 1] + 1), current[j] + 1);
      }
      previous, current := current, previous;
    }
    d := previous[|b|];
    assert a[..|a|] == a && b[..|b|] == b;
    DistanceIsEditDistance(a, b);
  }

  // ------------------------------------------------------------- the suggestion

  /** How far a candidate may be from the input: a third of the longer name, and at least one edit. */
  function Threshold(input: string, candidate: string): nat
  {
    var third := (if |input| >= |candidate| then |input| else |candidate|) / 3;
    if third >= 1 then third else 1
  }

  predicate Qualifies(input: string, candidate: string)
  {
    Distance(input, candidate) <= Threshold(input, candidate)
  }

  /** Near enough: one edit always, and more if three times as many fit into either name. */
  lemma QualifiesExactlyWhen(input: string, candidate: string)
    ensures Qualifies(input, candidate) <==>
      var d := Distance(input, candidate); d <= 1 || 3 * d <= |input| || 3 * d <= |candidate|
  {
  }

  /** Candidate `i` is the answer: it qualifies, none that qualifies is closer, and no earlier one is as close. */
  ghost predicate IsFirstClosest(input: string, candidates: seq<string>, i: nat)
  {
    && i < |candidates| && Qualifies(input, candidates[i])
    && (forall j :: 0 <= j < |candidates| && Qualifies(input, candidates[j]) ==>
          Distance(input, candidates[i]) <= Distance(input, candidates[j]))
    && (forall j :: 0 <= j < i && Qualifies(input, candidates[j]) ==>
          Distance(input, candidates[i]) < Distance(input, candidates[j]))
  }

  /** What each candidate scores: its distance, if it qualifies. */
  function Scores(input: string, candidates: seq<string>): (r: seq<Option<nat>>)
    ensures |r| == |candidates|
    ensures forall i :: 0 <= i < |r| ==>
      r[i] == if Qualifies(input, candidates[i]) then Some(Distance(input, candidates[i])) else None
  {
    seq(|candidates|, i requires 0 <= i < |candidates| =>
          if Qualifies(input, candidates[i]) then Some(Distance(input, candidates[i])) else None)
  }

  /** `i` is the first place of the least score there is. */
  ghost predicate IsFirstLeast(scores: seq<Option<nat>>, i: nat)
  {
    && i < |scores| && scores[i].Some?
    && (forall j :: 0 <= j < |scores| && scores[j].Some? ==> scores[i].value <= scores[j].value)
    && (forall j :: 0 <= j < i && scores[j].Some? ==> scores[i].value < scores[j].value)
  }

  /** `filter` and `min_by_key`, which keeps the first of several least ones. */
  function FirstLeast(scores: seq<Option<nat>>): (r: Option<nat>)
    ensures r.None? <==> forall j :: 0 <= j < |scores| ==> scores[j].None?
    ensures r.Some? ==> IsFirstLeast(scores, r.value)
  {
    if scores == [] then None
    else
      var n := |scores| - 1;
      var before := FirstLeast(scores[..n]);
      if scores[n].Some? && (before.None? || scores[n].value < scores[before.value].value) then Some(n) else before
  }

  /** The index of the candidate that `closest` settles on. */
  function ClosestIndex(input: string, candidates: seq<string>): (r: Option<nat>)
    ensures r.Some? ==> r.value < |candidates|
  {
    FirstLeast(Scores(input, candidates))
  }

  /** `closest` answers with the first of the nearest candidates that qualify, and with none only if none does. */
  lemma ClosestIsFirstNearest(input: string, candidates: seq<string>)
    ensures match ClosestIndex(input, candidates)
      case None => forall j :: 0 <= j < |candidates| ==> !Qualifies(input, candidates[j])
      case Some(i) => IsFirstClosest(input, candidates, i)
  {
  }

  /** `closest`: the nearest candidate, if it is near enough to be a typo. */
  function Closest(input: string, candidates: seq<string>): (r: Option<string>)
  {
    match ClosestIndex(input, candidates)
    case None => None
    case Some(i) => Some(candidates[i])
  }

  /** A name one edit away from a known key always gets a hint, and the hint is at most one edit away. */
  lemma TypoGetsHint(input: string, candidates: seq<string>, i: nat, e: Edit)
    requires i < |candidates| && Applies(e, input) && Apply(e, input) == candidates[i]
    ensures Closest(input, candidates).Some?
    ensures Distance(input, Closest(input, candidates).value) <= 1
  {
    OneEdit(e, input);
    assert Qualifies(input, candidates[i]);
    ClosestIsFirstNearest(input, candidates);
  }

  // ------------------------------------------------------------------ swapped characters

  /** Two neighbours of a name in the wrong order. */
  function Swapped(before: string, x: char, y: char, after: string): string
  {
    before + [y, x] + after
  }

  /** One edit between names of one length changes one place only. */
  lemma OneEditOnePlace(e: Edit, a: string, i: nat, j: nat)
    requires Applies(e, a) && |Apply(e, a)| == |a| && i < j < |a|
    ensures a[i] == Apply(e, a)[i] || a[j] == Apply(e, a)[j]
  {
  }

  /** Putting two different neighbours right takes exactly two edits. */
  lemma SwapIsTwoEdits(before: string, x: char, y: char, after: string)
    requires x != y
    ensures Distance(Swapped(before, x, y, after), Swapped(before, y, x, after)) == 2
  {
    var a, b := Swapped(before, x, y, after), Swapped(before, y, x, after);
    var half, n := before + [x, x] + after, |before|;
    assert a[n] == y && b[n] == x && a[n + 1] == x && b[n + 1] == y;
    var one, two := Substitution(n, x), Substitution(n + 1, y);
    assert Apply(one, a) == half && Apply(two, half) == b;
    OneEdit(one, a);
    OneEdit(two, half);
    Triangle(a, half, b);
    var script := ShortestScript(a, b);
    if |script| == 1 {
      assert script[1..] == [];
      OneEditOnePlace(script[0], a, n, n + 1);
    }
  }

  /** A swap is caught exactly in names of six characters and more: two edits are within a third of those only. */
  lemma SwapGetsHintExactlyWhen(before: string, x: char, y: char, after: string)
    requires x != y
    ensures var input, key := Swapped(before, x, y, after), Swapped(before, y, x, after);
      Closest(input, [key]) == Some(key) <==> |input| >= 6
  {
    var input, key := Swapped(before, x, y, after), Swapped(before, y, x, after);
    SwapIsTwoEdits(before, x, y, after);
    ClosestIsFirstNearest(input, [key]);
    assert Qualifies(input, [key][0]) <==> |input| >= 6;
  }

  /** Among any candidates, a swap in a name that long gets a hint no more than two edits away. */
  lemma LongSwapGetsHint(before: string, x: char, y: char, after: string, candidates: seq<string>)
    requires Swapped(before, y, x, after) in candidates && |before| + |after| >= 4
    ensures var input := Swapped(before, x, y, after);
      Closest(input, candidates).Some? && Distance(input, Closest(input, candidates).value) <= 2
  {
    var input, key := Swapped(before, x, y, after), Swapped(before, y, x, after);
    var i :| 0 <= i < |candidates| && candidates[i] == key;
    if x != y {
      SwapIsTwoEdits(before, x, y, after);
    } else {
      DistanceZero(input, key);
    }
    assert Qualifies(input, candidates[i]);
    ClosestIsFirstNearest(input, candidates);
  }

  /** The two characters of a short key in the wrong order: no hint. */
  lemma ShortSwapGetsNoHint()
    ensures Closest("ab", ["ba"]) == None
  {
    assert Swapped("", 'b', 'a', "") == "ab" && Swapped("", 'a', 'b', "") == "ba";
    SwapGetsHintExactlyWhen("", 'b', 'a', "");
    ClosestIsFirstNearest("ab", ["ba"]);
    assert Qualifies("ab", ["ba"][0]) ==> Closest("ab", ["ba"]) == Some("ba");
  }

  /** A name that is a known key is its own hint. */
  lemma KnownKeyIsItsOwnHint(input: string, candidates: seq<string>)
    requires input in candidates
    ensures Closest(input, candidates) == Some(input)
  {
    var i :| 0 <= i < |candidates| && candidates[i] == input;
    DistanceZero(input, candidates[i]);
    assert Qualifies(input, candidates[i]);
    ClosestIsFirstNearest(input, candidates);
    DistanceZero(input, Closest(input, candidates).value);
  }
}
