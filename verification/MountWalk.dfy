/** Which mount a path lookup reaches (nails-teardown/src/mountinfo.rs, `top_mount_at`). */
module MountWalk {
  import opened Basics
  import opened Mounts

  // ----------------------------------------------------------- the kernel's walk

  /** In the kernel's tree, `above` is another mount than `at`, attached to it at `point`. */
  ghost predicate MountedOn(at: MountEntry, point: Path, above: MountEntry)
  {
    && above.parentId == at.mountId && above.mountPoint.components == point
    && above.mountId != above.parentId
  }

  /** A tower of mounts at one point, each mounted on the one before. */
  ghost predicate Tower(entries: seq<MountEntry>, point: Path, tower: seq<MountEntry>)
  {
    && |tower| > 0
    && forall i :: 0 < i < |tower| ==> tower[i] in entries && MountedOn(tower[i - 1], point, tower[i])
  }

  ghost predicate Uncovered(entries: seq<MountEntry>, point: Path, e: MountEntry)
  {
    forall above :: above in entries ==> !MountedOn(e, point, above)
  }

  /** Following the mounts at `point` from `at`, however many there are, ends at `top`. */
  ghost predicate EndsAt(entries: seq<MountEntry>, at: MountEntry, point: Path, top: MountEntry)
  {
    exists tower :: Climbs(entries, at, point, top, tower)
  }

  ghost predicate Climbs(
    entries: seq<MountEntry>, at: MountEntry, point: Path, top: MountEntry, tower: seq<MountEntry>)
  {
    && Tower(entries, point, tower) && tower[0] == at && tower[|tower| - 1] == top
    && Uncovered(entries, point, top)
  }

  /** The prefix of `target` that the walk stands at after `i` components below the root. */
  function Prefix(target: Path, i: nat): Path
    requires i == 0 || i < |target|
  {
    if i == 0 then ROOT else ROOT + target[1..i + 1]
  }

  lemma PrefixStep(target: Path, i: nat)
    requires 0 < i < |target|
    ensures Prefix(target, i) == Prefix(target, i - 1) + [target[i]]
    ensures |Prefix(target, i)| == i + 1
  {
  }

  /** A walk down `target`: at every prefix, up to the top of what is mounted there. */
  ghost predicate Walk(entries: seq<MountEntry>, start: MountEntry, target: Path, stops: seq<MountEntry>)
  {
    && |stops| == (if |target| == 0 then 1 else |target|)
    && EndsAt(entries, start, ROOT, stops[0])
    && forall i :: 0 < i < |stops| ==> EndsAt(entries, stops[i - 1], Prefix(target, i), stops[i])
  }

  /** The kernel's lookup of `target`, from the namespace's root mount, ends in `found`. */
  ghost predicate KernelLookup(entries: seq<MountEntry>, start: MountEntry, target: Path, found: MountEntry)
  {
    exists stops :: Walk(entries, start, target, stops) && stops[|stops| - 1] == found
  }

  // ------------------------------------------------------------- the code's walk

  /** The condition by which the code finds the next mount up. */
  predicate Stacked(at: MountEntry, point: Path, above: MountEntry)
  {
    above.mountPoint.components == point && above.parentId == at.mountId && above.mountId != at.mountId
  }

  predicate IsStart(entries: seq<MountEntry>, e: MountEntry)
  {
    && e.mountPoint.components == ROOT
    && forall i :: 0 <= i < |entries| ==>
         !(entries[i].mountId == e.parentId && entries[i].mountPoint.components == ROOT)
  }

  /** The first entry from `k` on that the walk can start at. */
  function StartFrom(entries: seq<MountEntry>, k: nat): (r: Option<MountEntry>)
    requires k <= |entries|
    ensures r.Some? ==> r.value in entries && IsStart(entries, r.value)
    decreases |entries| - k
  {
    if k == |entries| then None
    else if IsStart(entries, entries[k]) then Some(entries[k])
    else StartFrom(entries, k + 1)
  }

  function Start(entries: seq<MountEntry>): (r: Option<MountEntry>)
  {
    StartFrom(entries, 0)
  }

  lemma {:induction false} NoStart(entries: seq<MountEntry>, k: nat, i: nat)
    requires k <= i < |entries| && StartFrom(entries, k).None?
    ensures !IsStart(entries, entries[i])
    decreases i - k
  {
    if k < i {
      NoStart(entries, k + 1, i);
    }
  }

  /** The first entry from `k` on that is mounted on `at` at `point`. */
  function AboveFrom(entries: seq<MountEntry>, at: MountEntry, point: Path, k: nat): (r: Option<MountEntry>)
    requires k <= |entries|
    ensures r.Some? ==> r.value in entries && Stacked(at, point, r.value)
    decreases |entries| - k
  {
    if k == |entries| then None
    else if Stacked(at, point, entries[k]) then Some(entries[k])
    else AboveFrom(entries, at, point, k + 1)
  }

  function Above(entries: seq<MountEntry>, at: MountEntry, point: Path): (r: Option<MountEntry>)
  {
    AboveFrom(entries, at, point, 0)
  }

  lemma {:induction false} NoneAbove(entries: seq<MountEntry>, at: MountEntry, point: Path, k: nat, i: nat)
    requires k <= i < |entries| && AboveFrom(entries, at, point, k).None?
    ensures !Stacked(at, point, entries[i])
    decreases i - k
  {
    if k < i {
      NoneAbove(entries, at, point, k + 1, i);
    }
  }

  lemma NothingAbove(entries: seq<MountEntry>, at: MountEntry, point: Path)
    requires Above(entries, at, point).None?
    ensures Uncovered(entries, point, at)
  {
    forall above | above in entries ensures !Stacked(at, point, above) {
      var i :| 0 <= i < |entries| && entries[i] == above;
      NoneAbove(entries, at, point, 0, i);
    }
  }

  /** At most `n` steps up. */
  function ClimbAtMost(entries: seq<MountEntry>, at: MountEntry, point: Path, n: nat): MountEntry
    decreases n
  {
    if n == 0 then at
    else
      match Above(entries, at, point)
      case None => at
      case Some(above) => ClimbAtMost(entries, above, point, n - 1)
  }

  method Climb(entries: seq<MountEntry>, at: MountEntry, point: Path) returns (top: MountEntry)
    ensures top == ClimbAtMost(entries, at, point, |entries|)
  {
    top := at;
    var i := 0;
    while i < |entries|
      invariant 0 <= i <= |entries|
      invariant ClimbAtMost(entries, top, point, |entries| - i) == ClimbAtMost(entries, at, point, |entries|)
    {
      match Above(entries, top, point)
      case None => return;
      case Some(above) => top := above;
      i := i + 1;
    }
  }

  /** Where the bounded walk stands after `i` components below the root. */
  function Reached(entries: seq<MountEntry>, start: MountEntry, target: Path, i: nat): MountEntry
    requires i == 0 || i < |target|
    decreases i
  {
    var before := if i == 0 then start else Reached(entries, start, target, i - 1);
    ClimbAtMost(entries, before, Prefix(target, i), |entries|)
  }

  function Last(target: Path): (i: nat)
    ensures i == 0 || i < |target|
  {
    if |target| == 0 then 0 else |target| - 1
  }

  function Lookup(entries: seq<MountEntry>, target: Path): (r: Option<MountEntry>)
  {
    match Start(entries)
    case None => None
    case Some(start) =>
      var found := Reached(entries, start, target, Last(target));
      if found.mountPoint.components == target then Some(found) else None
  }

  /** `top_mount_at`. */
  method TopMountAt(entries: seq<MountEntry>, target: Path) returns (r: Option<MountEntry>)
    ensures r == Lookup(entries, target)
    ensures r.Some? ==> r.value in entries && r.value.mountPoint.components == target
  {
    var start := Start(entries);
    if start.None? {
      return None;
    }
    var current := Climb(entries, start.value, ROOT);
    var prefix := ROOT;
    for i := 1 to Last(target) + 1
      invariant prefix == Prefix(target, i - 1)
      invariant current == Reached(entries, start.value, target, i - 1)
    {
      prefix := prefix + [target[i]];
      PrefixStep(target, i);
      current := Climb(entries, current, prefix);
    }
    r := if current.mountPoint.components == target then Some(current) else None;
    ReachedStands(entries, start.value, target, Last(target));
  }

  /** A mount of the table, no deeper than `depth` components. */
  ghost predicate StandsAt(entries: seq<MountEntry>, e: MountEntry, depth: nat)
  {
    e in entries && |e.mountPoint.components| <= depth
  }

  lemma {:induction false} ClimbStands(entries: seq<MountEntry>, at: MountEntry, point: Path, n: nat, depth: nat)
    requires StandsAt(entries, at, depth) && |point| <= depth
    ensures StandsAt(entries, ClimbAtMost(entries, at, point, n), depth)
    decreases n
  {
    if n > 0 {
      match Above(entries, at, point)
      case None =>
      case Some(above) => ClimbStands(entries, above, point, n - 1, depth);
    }
  }

  lemma FirstStands(entries: seq<MountEntry>, start: MountEntry, target: Path)
    requires StandsAt(entries, start, 1)
    ensures StandsAt(entries, Reached(entries, start, target, 0), 1)
  {
    ClimbStands(entries, start, ROOT, |entries|, 1);
  }

  lemma NextStands(entries: seq<MountEntry>, start: MountEntry, target: Path, i: nat, before: MountEntry)
    requires 0 < i < |target| && before == Reached(entries, start, target, i - 1) && StandsAt(entries, before, i)
    ensures StandsAt(entries, Reached(entries, start, target, i), i + 1)
  {
    PrefixStep(target, i);
    ClimbStands(entries, before, Prefix(target, i), |entries|, i + 1);
  }

  /** The walk stays in the table and never stands deeper than the prefix it has reached. */
  lemma {:induction false} ReachedStands(entries: seq<MountEntry>, start: MountEntry, target: Path, i: nat)
    requires StandsAt(entries, start, 1) && (i == 0 || i < |target|)
    ensures StandsAt(entries, Reached(entries, start, target, i), i + 1)
    decreases i
  {
    if i == 0 {
      FirstStands(entries, start, target);
    } else {
      ReachedStands(entries, start, target, i - 1);
      NextStands(entries, start, target, i, Reached(entries, start, target, i - 1));
    }
  }

  lemma {:induction false} ClimbStaysAtPoint(entries: seq<MountEntry>, at: MountEntry, point: Path, n: nat)
    requires at.mountPoint.components == point
    ensures ClimbAtMost(entries, at, point, n).mountPoint.components == point
    decreases n
  {
    if n > 0 {
      match Above(entries, at, point)
      case None =>
      case Some(above) => ClimbStaysAtPoint(entries, above, point, n - 1);
    }
  }

  // ------------------------------------------------------ the bound never cuts

  ghost predicate UniqueIds(entries: seq<MountEntry>)
  {
    forall a, b :: a in entries && b in entries && a.mountId == b.mountId ==> a == b
  }

  /** A mount that no walk at `point` can come back to. */
  ghost predicate Ground(entries: seq<MountEntry>, at: MountEntry, point: Path)
  {
    forall below :: below in entries && (below == at || below.mountPoint.components == point) ==>
      !MountedOn(below, point, at)
  }

  lemma {:induction false} TowerNeverRepeats(
    entries: seq<MountEntry>, point: Path, tower: seq<MountEntry>, i: nat, j: nat)
    requires UniqueIds(entries) && Tower(entries, point, tower) && tower[0] in entries
    requires Ground(entries, tower[0], point) && i < j < |tower|
    ensures tower[i] != tower[j]
    decreases i
  {
    assert MountedOn(tower[j - 1], point, tower[j]);
    assert j > 1 ==> MountedOn(tower[j - 2], point, tower[j - 1]);
    if tower[i] == tower[j] {
      if i == 0 {
        assert false;
      } else {
        assert MountedOn(tower[i - 1], point, tower[i]);
        assert tower[i - 1] in entries && tower[j - 1] in entries;
        TowerNeverRepeats(entries, point, tower, i - 1, j - 1);
      }
    }
  }

  lemma {:induction false} DistinctAtMost<T>(xs: seq<T>, all: seq<T>)
    requires forall i, j :: 0 <= i < j < |xs| ==> xs[i] != xs[j]
    requires forall i :: 0 <= i < |xs| ==> xs[i] in all
    ensures |xs| <= |all|
    decreases |all|
  {
    assert xs != [] ==> xs[0] in all;
    if all != [] {
      var last, rest := all[|all| - 1], all[..|all| - 1];
      assert all == rest + [last];
      if last in xs {
        var k :| 0 <= k < |xs| && xs[k] == last;
        var others := xs[..k] + xs[k + 1..];
        forall i | 0 <= i < |others| ensures others[i] in rest {
          assert others[i] == xs[if i < k then i else i + 1];
        }
        DistinctAtMost(others, rest);
      } else {
        DistinctAtMost(xs, rest);
      }
    }
  }

  /** No tower on a grounded mount is taller than the table. */
  lemma TowerFitsTable(entries: seq<MountEntry>, point: Path, tower: seq<MountEntry>)
    requires UniqueIds(entries) && Tower(entries, point, tower) && tower[0] in entries
    requires Ground(entries, tower[0], point)
    ensures |tower| <= |entries|
  {
    forall i, j | 0 <= i < j < |tower| ensures tower[i] != tower[j] {
      TowerNeverRepeats(entries, point, tower, i, j);
    }
    DistinctAtMost(tower, entries);
  }

  lemma {:induction false} ClimbTower(
    entries: seq<MountEntry>, at: MountEntry, point: Path, n: nat, below: seq<MountEntry>)
    returns (tower: seq<MountEntry>)
    requires Tower(entries, point, below + [at])
    ensures Tower(entries, point, tower) && tower[0] == (below + [at])[0]
    ensures tower[|tower| - 1] == ClimbAtMost(entries, at, point, n)
    ensures Uncovered(entries, point, tower[|tower| - 1]) || |tower| == |below| + 1 + n
    decreases n
  {
    tower := below + [at];
    if n > 0 {
      match Above(entries, at, point)
      case None =>
        NothingAbove(entries, at, point);
      case Some(above) =>
        assert Tower(entries, point, tower + [above]);
        var taller := ClimbTower(entries, above, point, n - 1, tower);
        tower := taller;
    }
  }

  /** From a grounded mount, as many steps as the table has entries always reach the top. */
  lemma ClimbReachesTop(entries: seq<MountEntry>, at: MountEntry, point: Path)
    requires UniqueIds(entries) && at in entries && Ground(entries, at, point)
    ensures EndsAt(entries, at, point, ClimbAtMost(entries, at, point, |entries|))
  {
    var tower := ClimbTower(entries, at, point, |entries|, []);
    TowerFitsTable(entries, point, tower);
    assert Climbs(entries, at, point, ClimbAtMost(entries, at, point, |entries|), tower);
  }

  lemma DeeperClimbReachesTop(entries: seq<MountEntry>, at: MountEntry, point: Path)
    requires UniqueIds(entries) && at in entries && |at.mountPoint.components| < |point|
    ensures EndsAt(entries, at, point, ClimbAtMost(entries, at, point, |entries|))
  {
    ClimbReachesTop(entries, at, point);
  }

  lemma StopToStop(entries: seq<MountEntry>, start: MountEntry, target: Path, i: nat)
    requires UniqueIds(entries) && start in entries && start.mountPoint.components == ROOT
    requires 0 < i < |target|
    ensures EndsAt(
      entries, Reached(entries, start, target, i - 1), Prefix(target, i), Reached(entries, start, target, i))
  {
    ReachedStands(entries, start, target, i - 1);
    PrefixStep(target, i);
    DeeperClimbReachesTop(entries, Reached(entries, start, target, i - 1), Prefix(target, i));
  }

  /** The stops of the bounded walk. */
  ghost function Stops(entries: seq<MountEntry>, start: MountEntry, target: Path): (stops: seq<MountEntry>)
    ensures |stops| == Last(target) + 1
    ensures forall i: nat :: i < |stops| ==> stops[i] == Reached(entries, start, target, i)
  {
    seq(Last(target) + 1, i requires 0 <= i <= Last(target) => Reached(entries, start, target, i))
  }

  /** The bounded walk is a walk of the kernel: its bound never cuts a climb short. */
  lemma BoundedWalkIsKernelWalk(entries: seq<MountEntry>, start: MountEntry, target: Path)
    requires UniqueIds(entries) && start in entries
    requires start.mountPoint.components == ROOT && Ground(entries, start, ROOT)
    ensures Walk(entries, start, target, Stops(entries, start, target))
  {
    var stops := Stops(entries, start, target);
    ClimbReachesTop(entries, start, ROOT);
    forall i | 0 < i < |stops| ensures EndsAt(entries, stops[i - 1], Prefix(target, i), stops[i]) {
      StopToStop(entries, start, target, i);
    }
  }

  // -------------------------------------------------- the kernel's walk is unique

  /** At most one mount is mounted on the same point of the same mount. */
  ghost predicate UniqueChildren(entries: seq<MountEntry>)
  {
    forall at, a, b, point ::
      a in entries && b in entries && MountedOn(at, point, a) && MountedOn(at, point, b) ==> a == b
  }

  lemma {:induction false} TowersAgree(
    entries: seq<MountEntry>, point: Path, one: seq<MountEntry>, two: seq<MountEntry>, i: nat)
    requires UniqueChildren(entries) && Tower(entries, point, one) && Tower(entries, point, two)
    requires one[0] == two[0] && i < |one| && i < |two|
    ensures one[i] == two[i]
    decreases i
  {
    if i > 0 {
      TowersAgree(entries, point, one, two, i - 1);
    }
  }

  lemma EndIsUnique(entries: seq<MountEntry>, at: MountEntry, point: Path, a: MountEntry, b: MountEntry)
    requires UniqueChildren(entries) && EndsAt(entries, at, point, a) && EndsAt(entries, at, point, b)
    ensures a == b
  {
    var one :| Climbs(entries, at, point, a, one);
    var two :| Climbs(entries, at, point, b, two);
    assert |one| < |two| ==> MountedOn(two[|one| - 1], point, two[|one|]);
    assert |two| < |one| ==> MountedOn(one[|two| - 1], point, one[|two|]);
    TowersAgree(entries, point, one, two, if |one| <= |two| then |one| - 1 else |two| - 1);
  }

  lemma {:induction false} WalkIsUnique(
    entries: seq<MountEntry>, start: MountEntry, target: Path, one: seq<MountEntry>, two: seq<MountEntry>, i: nat)
    requires UniqueChildren(entries) && Walk(entries, start, target, one) && Walk(entries, start, target, two)
    requires i < |one|
    ensures one[i] == two[i]
    decreases i
  {
    if i == 0 {
      EndIsUnique(entries, start, ROOT, one[0], two[0]);
    } else {
      WalkIsUnique(entries, start, target, one, two, i - 1);
      EndIsUnique(entries, one[i - 1], Prefix(target, i), one[i], two[i]);
    }
  }

  // -------------------------------------------------------------- the agreement

  /** `r` is the mount at the bottom of the namespace: every other mount at `/` is stacked on one at `/`. */
  ghost predicate NamespaceRoot(entries: seq<MountEntry>, r: MountEntry)
  {
    && r in entries && r.mountPoint.components == ROOT
    && (forall b :: b in entries && b.mountPoint.components == ROOT && b.mountId == r.parentId ==> b == r)
    && (forall e :: e in entries && e.mountPoint.components == ROOT && e != r ==> !IsStart(entries, e))
  }

  lemma StartIsNamespaceRoot(entries: seq<MountEntry>, r: MountEntry)
    requires NamespaceRoot(entries, r)
    ensures Start(entries) == if r.parentId != r.mountId then Some(r) else None
  {
    var found := Start(entries);
    var k :| 0 <= k < |entries| && entries[k] == r;
    if r.parentId == r.mountId {
      assert !IsStart(entries, r);
    } else {
      forall i | 0 <= i < |entries|
        ensures !(entries[i].mountId == r.parentId && entries[i].mountPoint.components == ROOT)
      {
        assert entries[i] in entries;
      }
      assert IsStart(entries, r);
      if found.None? {
        NoStart(entries, 0, k);
      }
    }
  }

  /** The answer is the mount the kernel's lookup ends in, when that sits at the target itself. */
  ghost predicate Agrees(entries: seq<MountEntry>, start: MountEntry, target: Path)
  {
    forall e :: Lookup(entries, target) == Some(e)
      <==> KernelLookup(entries, start, target, e) && e.mountPoint.components == target
  }

  lemma KernelWalkEnds(entries: seq<MountEntry>, r: MountEntry, target: Path)
    requires UniqueIds(entries) && NamespaceRoot(entries, r)
    ensures KernelLookup(entries, r, target, Reached(entries, r, target, Last(target)))
  {
    BoundedWalkIsKernelWalk(entries, r, target);
    var stops := Stops(entries, r, target);
    assert stops[|stops| - 1] == Reached(entries, r, target, Last(target));
  }

  lemma KernelLookupUnique(entries: seq<MountEntry>, start: MountEntry, target: Path, a: MountEntry, b: MountEntry)
    requires UniqueChildren(entries)
    requires KernelLookup(entries, start, target, a) && KernelLookup(entries, start, target, b)
    ensures a == b
  {
    var one :| Walk(entries, start, target, one) && one[|one| - 1] == a;
    var two :| Walk(entries, start, target, two) && two[|two| - 1] == b;
    WalkIsUnique(entries, start, target, one, two, |one| - 1);
  }

  lemma LookupIsKernelLookup(entries: seq<MountEntry>, r: MountEntry, target: Path)
    requires UniqueIds(entries) && UniqueChildren(entries) && NamespaceRoot(entries, r)
    requires r.parentId != r.mountId
    ensures Agrees(entries, r, target)
  {
    StartIsNamespaceRoot(entries, r);
    KernelWalkEnds(entries, r, target);
    var found := Reached(entries, r, target, Last(target));
    forall e | KernelLookup(entries, r, target, e) ensures e == found {
      KernelLookupUnique(entries, r, target, e, found);
    }
  }

  /** The lookup agrees with the kernel for every path exactly when the root mount is not its own parent. */
  lemma LookupAgreesExactlyWhen(entries: seq<MountEntry>, r: MountEntry)
    requires UniqueIds(entries) && UniqueChildren(entries) && NamespaceRoot(entries, r)
    ensures (forall target :: Agrees(entries, r, target)) <==> r.parentId != r.mountId
  {
    if r.parentId != r.mountId {
      forall target ensures Agrees(entries, r, target) {
        LookupIsKernelLookup(entries, r, target);
      }
    } else {
      StartIsNamespaceRoot(entries, r);
      KernelWalkEnds(entries, r, ROOT);
      var found := Reached(entries, r, ROOT, 0);
      ClimbStaysAtPoint(entries, r, ROOT, |entries|);
      assert found.mountPoint.components == ROOT && Lookup(entries, ROOT) == None;
      assert !Agrees(entries, r, ROOT);
    }
  }

  /** A root mount that is its own parent hides the whole table from the lookup. */
  lemma SelfParentedRootIsNeverFound(r: MountEntry, target: Path)
    requires r.mountPoint.components == ROOT && r.parentId == r.mountId
    ensures Lookup([r], target) == None
    ensures KernelLookup([r], r, ROOT, r)
  {
    assert [r][0] == r;
    assert !IsStart([r], r);
    var tower := [r];
    assert Climbs([r], r, ROOT, r, tower);
    assert Walk([r], r, ROOT, [r]);
  }
}
