/** The device-mapper chain behind the hidden root (nails-platform/src/backend_lock.rs). */
module DmStack {
  import opened Basics
  import opened Texts

  /** What the walk reads below /sys/block, fixed for one walk. */
  datatype BlockTree = BlockTree(
    names: map<string, string>,         // the content of dm/name, where it can be read
    slaves: map<string, seq<string>>)   // the file names in slaves/, where it can be listed

  predicate HasNumberAfter(name: string, prefix: string)
  {
    && |prefix| < |name| && name[..|prefix|] == prefix
    && AllDigits(name[|prefix|..])
  }

  /** `is_dm_name`. */
  predicate IsDmName(name: string)
  {
    HasNumberAfter(name, "dm-")
  }

  /** `is_loop_device`, for a name without directories. */
  predicate IsLoopName(name: string)
  {
    HasNumberAfter(name, "loop")
  }

  function SlavesOf(tree: BlockTree, block: string): seq<string>
  {
    if block in tree.slaves then tree.slaves[block] else []
  }

  // ------------------------------------------------------------ what is recorded

  /** What the walk comes across, in order. */
  datatype Event = Visit(block: string) | Loop(device: string)

  function Add(known: seq<string>, name: string): seq<string>
  {
    if name in known then known else known + [name]
  }

  function NameOf(tree: BlockTree, block: string): string
  {
    if block in tree.names then Trim(tree.names[block]) else ""
  }

  /** The device-mapper name an event brings, or none. */
  function DmNameIn(tree: BlockTree, e: Event): string
  {
    if e.Visit? then NameOf(tree, e.block) else ""
  }

  /** The loop device an event brings, or none. */
  function LoopIn(e: Event): string
  {
    if e.Loop? then "/dev/" + e.device else ""
  }

  function AddUnlessEmpty(known: seq<string>, name: string): seq<string>
  {
    if name == "" then known else Add(known, name)
  }

  function DmNamesAfter(tree: BlockTree, known: seq<string>, events: seq<Event>): seq<string>
  {
    if events == [] then known
    else AddUnlessEmpty(DmNamesAfter(tree, known, events[..|events| - 1]), DmNameIn(tree, events[|events| - 1]))
  }

  function LoopsAfter(known: seq<string>, events: seq<Event>): seq<string>
  {
    if events == [] then known
    else AddUnlessEmpty(LoopsAfter(known, events[..|events| - 1]), LoopIn(events[|events| - 1]))
  }

  // ------------------------------------------------------------------- the walk

  /** What a walk from `block` comes across when it nests less than `depth` deep; none when it nests deeper. */
  function Trace(tree: BlockTree, block: string, depth: nat): Option<seq<Event>>
    decreases depth, 0
  {
    if depth == 0 then None
    else
      match TraceSlaves(tree, SlavesOf(tree, block), depth - 1)
      case None => None
      case Some(events) => Some([Visit(block)] + events)
  }

  function TraceSlaves(tree: BlockTree, slaves: seq<string>, depth: nat): Option<seq<Event>>
    decreases depth, 1 + |slaves|
  {
    if slaves == [] then Some([])
    else
      var before := TraceSlaves(tree, slaves[..|slaves| - 1], depth);
      var last := TraceSlave(tree, slaves[|slaves| - 1], depth);
      if before.None? || last.None? then None else Some(before.value + last.value)
  }

  function TraceSlave(tree: BlockTree, slave: string, depth: nat): Option<seq<Event>>
    decreases depth, 1
  {
    if IsDmName(slave) then Trace(tree, slave, depth)
    else if IsLoopName(slave) then Some([Loop(slave)])
    else Some([])
  }

  /** Recording `events` turns the lists `dm0` and `loops0` into `dm` and `loops`. */
  ghost predicate Recorded(
    tree: BlockTree, dm0: seq<string>, loops0: seq<string>, events: seq<Event>, dm: seq<string>, loops: seq<string>)
  {
    dm == DmNamesAfter(tree, dm0, events) && loops == LoopsAfter(loops0, events)
  }

  lemma RecordedThen(
    tree: BlockTree, dm0: seq<string>, loops0: seq<string>, xs: seq<Event>,
    dm1: seq<string>, loops1: seq<string>, ys: seq<Event>, dm2: seq<string>, loops2: seq<string>)
    requires Recorded(tree, dm0, loops0, xs, dm1, loops1) && Recorded(tree, dm1, loops1, ys, dm2, loops2)
    ensures Recorded(tree, dm0, loops0, xs + ys, dm2, loops2)
  {
    AfterConcat(tree, dm0, loops0, xs, ys);
  }

  /** `done` is what the walk has come across at `block` and below its first `i` slaves. */
  ghost predicate TracedSoFar(
    tree: BlockTree, block: string, slaves: seq<string>, i: nat, depth: int, done: seq<Event>)
    requires i <= |slaves|
  {
    && depth >= 0 && TraceSlaves(tree, slaves[..i], depth).Some?
    && done == [Visit(block)] + TraceSlaves(tree, slaves[..i], depth).value
  }

  lemma TraceMore(tree: BlockTree, block: string, slaves: seq<string>, i: nat, depth: nat, done: seq<Event>)
    returns (more: seq<Event>)
    requires i < |slaves| && TraceSlaves(tree, slaves, depth).Some?
    requires TracedSoFar(tree, block, slaves, i, depth, done)
    ensures TraceSlave(tree, slaves[i], depth) == Some(more)
    ensures TracedSoFar(tree, block, slaves, i + 1, depth, done + more)
  {
    SlaveTraced(tree, slaves, i, depth);
    more := TraceSlave(tree, slaves[i], depth).value;
  }

  lemma TraceComplete(tree: BlockTree, block: string, depth: nat, done: seq<Event>)
    requires depth > 0
    requires var slaves := SlavesOf(tree, block); TracedSoFar(tree, block, slaves, |slaves|, depth - 1, done)
    ensures Trace(tree, block, depth) == Some(done)
  {
    var slaves := SlavesOf(tree, block);
    assert slaves[..|slaves|] == slaves;
  }

  /** The chain behind a mount: names and loop devices, each once, top of the stack first. */
  class BackendChain {
    var dmNames: seq<string>
    var loopDevices: seq<string>

    constructor ()
      ensures dmNames == [] && loopDevices == []
    {
      dmNames, loopDevices := [], [];
    }

    /** `walk_dm_stack`: depth first through the slaves. It ends because the walk nests less than `depth` deep. */
    method WalkDmStack(tree: BlockTree, block: string, ghost depth: nat)
      requires Trace(tree, block, depth).Some?
      modifies this
      ensures Recorded(tree, old(dmNames), old(loopDevices), Trace(tree, block, depth).value, dmNames, loopDevices)
      decreases depth, 0
    {
      ghost var dm0, loops0, done := dmNames, loopDevices, [Visit(block)];
      NoteName(tree, block);
      var slaves := SlavesOf(tree, block);
      for i := 0 to |slaves|
        invariant Recorded(tree, dm0, loops0, done, dmNames, loopDevices)
        invariant TracedSoFar(tree, block, slaves, i, depth - 1, done)
      {
        ghost var dm1, loops1 := dmNames, loopDevices;
        ghost var more := TraceMore(tree, block, slaves, i, depth - 1, done);
        WalkSlave(tree, slaves[i], depth - 1);
        RecordedThen(tree, dm0, loops0, done, dm1, loops1, more, dmNames, loopDevices);
        done := done + more;
      }
      TraceComplete(tree, block, depth, done);
    }

    method NoteName(tree: BlockTree, block: string)
      modifies this`dmNames
      ensures Recorded(tree, old(dmNames), loopDevices, [Visit(block)], dmNames, loopDevices)
    {
      assert [Visit(block)][..0] == [];
      if block in tree.names {
        var name := Trim(tree.names[block]);
        if name != "" && name !in dmNames {
          dmNames := dmNames + [name];
        }
      }
    }

    method WalkSlave(tree: BlockTree, slave: string, ghost depth: nat)
      requires TraceSlave(tree, slave, depth).Some?
      modifies this
      ensures Recorded(tree, old(dmNames), old(loopDevices), TraceSlave(tree, slave, depth).value, dmNames, loopDevices)
      decreases depth, 1
    {
      if IsDmName(slave) {
        WalkDmStack(tree, slave, depth);
      } else if IsLoopName(slave) {
        assert [Loop(slave)][..0] == [];
        var device := "/dev/" + slave;
        if device !in loopDevices {
          loopDevices := loopDevices + [device];
        }
      }
    }
  }

  lemma {:induction false} TracedPrefix(tree: BlockTree, slaves: seq<string>, i: nat, depth: nat)
    requires i <= |slaves| && TraceSlaves(tree, slaves, depth).Some?
    ensures TraceSlaves(tree, slaves[..i], depth).Some?
    decreases |slaves|
  {
    if i == |slaves| {
      assert slaves[..i] == slaves;
    } else {
      TracedPrefix(tree, slaves[..|slaves| - 1], i, depth);
      assert slaves[..|slaves| - 1][..i] == slaves[..i];
    }
  }

  lemma SlaveTraced(tree: BlockTree, slaves: seq<string>, i: nat, depth: nat)
    requires i < |slaves| && TraceSlaves(tree, slaves, depth).Some?
    ensures TraceSlaves(tree, slaves[..i], depth).Some? && TraceSlave(tree, slaves[i], depth).Some?
    ensures TraceSlaves(tree, slaves[..i + 1], depth)
         == Some(TraceSlaves(tree, slaves[..i], depth).value + TraceSlave(tree, slaves[i], depth).value)
  {
    TracedPrefix(tree, slaves, i + 1, depth);
    assert slaves[..i + 1][..i] == slaves[..i];
  }

  /** Recording in two goes is recording in one. */
  lemma {:induction false} AfterConcat(
    tree: BlockTree, dmNames: seq<string>, loops: seq<string>, xs: seq<Event>, ys: seq<Event>)
    ensures DmNamesAfter(tree, dmNames, xs + ys) == DmNamesAfter(tree, DmNamesAfter(tree, dmNames, xs), ys)
    ensures LoopsAfter(loops, xs + ys) == LoopsAfter(LoopsAfter(loops, xs), ys)
    decreases |ys|
  {
    if ys == [] {
      assert xs + ys == xs;
    } else {
      AfterConcat(tree, dmNames, loops, xs, ys[..|ys| - 1]);
      assert (xs + ys)[..|xs + ys| - 1] == xs + ys[..|ys| - 1];
    }
  }

  // ------------------------------------------------- which walks end: the acyclic

  ghost predicate StepAt(tree: BlockTree, path: seq<string>, i: nat)
    requires 0 < i < |path|
  {
    path[i] in SlavesOf(tree, path[i - 1]) && IsDmName(path[i])
  }

  /** A chain of device-mapper nodes, each a slave of the one before. */
  ghost predicate IsDmPath(tree: BlockTree, path: seq<string>)
  {
    forall i :: 0 < i < |path| ==> StepAt(tree, path, i)
  }

  lemma ConsPath(tree: BlockTree, from: string, path: seq<string>)
    requires IsDmPath(tree, path) && path != [] && path[0] in SlavesOf(tree, from) && IsDmName(path[0])
    ensures IsDmPath(tree, [from] + path)
  {
    var longer := [from] + path;
    forall i | 0 < i < |longer| ensures StepAt(tree, longer, i) {
      assert i > 1 ==> StepAt(tree, path, i - 1);
    }
  }

  lemma SubPath(tree: BlockTree, path: seq<string>, lo: nat, hi: nat)
    requires IsDmPath(tree, path) && lo <= hi <= |path|
    ensures IsDmPath(tree, path[lo..hi])
  {
    var part := path[lo..hi];
    forall i | 0 < i < |part| ensures StepAt(tree, part, i) {
      assert StepAt(tree, path, lo + i);
    }
  }

  ghost predicate Repeats(path: seq<string>)
  {
    exists i, j :: 0 <= i < j < |path| && path[i] == path[j]
  }

  /** No chain down from `block` comes back to a node it has passed. */
  ghost predicate Acyclic(tree: BlockTree, block: string)
  {
    forall path :: IsDmPath(tree, path) && path != [] && path[0] == block ==> !Repeats(path)
  }

  ghost predicate Ends(tree: BlockTree, block: string)
  {
    exists depth :: Trace(tree, block, depth).Some?
  }

  /** A step down a walk that ends is a walk that ends sooner. */
  lemma StepDown(tree: BlockTree, block: string, slave: string, depth: nat)
    requires Trace(tree, block, depth).Some? && slave in SlavesOf(tree, block) && IsDmName(slave)
    ensures depth > 0 && Trace(tree, slave, depth - 1).Some?
  {
    var slaves := SlavesOf(tree, block);
    var i :| 0 <= i < |slaves| && slaves[i] == slave;
    SlaveTraced(tree, slaves, i, depth - 1);
  }

  lemma {:induction false} DownThePath(tree: BlockTree, path: seq<string>, k: nat, depth: nat)
    requires IsDmPath(tree, path) && k < |path| && Trace(tree, path[0], depth).Some?
    ensures k < depth && Trace(tree, path[k], depth - k).Some?
    decreases k
  {
    if k > 0 {
      DownThePath(tree, path, k - 1, depth);
      assert StepAt(tree, path, k);
      StepDown(tree, path[k - 1], path[k], depth - (k - 1));
    }
  }

  lemma {:induction false} CycleNeverEnds(tree: BlockTree, cycle: seq<string>, depth: nat)
    requires IsDmPath(tree, cycle) && |cycle| > 1 && cycle[0] == cycle[|cycle| - 1]
    ensures Trace(tree, cycle[0], depth).None?
    decreases depth
  {
    if Trace(tree, cycle[0], depth).Some? {
      DownThePath(tree, cycle, |cycle| - 1, depth);
      CycleNeverEnds(tree, cycle, depth - (|cycle| - 1));
    }
  }

  /** A walk that does not end within `depth` goes at least that far down. */
  lemma {:induction false} LongPath(tree: BlockTree, block: string, depth: nat) returns (path: seq<string>)
    requires Trace(tree, block, depth).None?
    ensures IsDmPath(tree, path) && |path| == depth + 1 && path[0] == block
    decreases depth
  {
    if depth == 0 {
      path := [block];
    } else {
      var slave := UnendingSlave(tree, SlavesOf(tree, block), depth - 1);
      var rest := LongPath(tree, slave, depth - 1);
      path := [block] + rest;
      ConsPath(tree, block, rest);
    }
  }

  lemma {:induction false} UnendingSlave(tree: BlockTree, slaves: seq<string>, depth: nat) returns (slave: string)
    requires TraceSlaves(tree, slaves, depth).None?
    ensures slave in slaves && IsDmName(slave) && Trace(tree, slave, depth).None?
    decreases |slaves|
  {
    var k := |slaves| - 1;
    if TraceSlave(tree, slaves[k], depth).None? {
      slave := slaves[k];
    } else {
      slave := UnendingSlave(tree, slaves[..k], depth);
    }
  }

  lemma {:induction false} DistinctInSet(xs: seq<string>, all: set<string>)
    requires !Repeats(xs) && forall i :: 0 <= i < |xs| ==> xs[i] in all
    ensures |xs| <= |all|
    decreases |xs|
  {
    if xs != [] {
      var k := |xs| - 1;
      assert xs[k] in all;
      forall i | 0 <= i < k ensures xs[..k][i] in all - {xs[k]} {
        assert xs[i] != xs[k];
      }
      assert !Repeats(xs[..k]);
      DistinctInSet(xs[..k], all - {xs[k]});
    }
  }

  lemma EndsMeansAcyclic(tree: BlockTree, block: string, depth: nat, path: seq<string>)
    requires Trace(tree, block, depth).Some? && IsDmPath(tree, path) && path != [] && path[0] == block
    ensures !Repeats(path)
  {
    if i, j :| 0 <= i < j < |path| && path[i] == path[j] {
      DownThePath(tree, path, i, depth);
      SubPath(tree, path, i, j + 1);
      CycleNeverEnds(tree, path[i..j + 1], depth - i);
    }
  }

  lemma AcyclicMeansEnds(tree: BlockTree, block: string)
    requires Acyclic(tree, block)
    ensures Trace(tree, block, |tree.slaves.Keys| + 1).Some?
  {
    var depth := |tree.slaves.Keys| + 1;
    if Trace(tree, block, depth).None? {
      var path := LongPath(tree, block, depth);
      var inner := path[..depth];
      forall i | 0 <= i < |inner| ensures inner[i] in tree.slaves.Keys {
        assert StepAt(tree, path, i + 1);
      }
      assert !Repeats(path) && !Repeats(inner);
      DistinctInSet(inner, tree.slaves.Keys);
      assert false;
    }
  }

  /** The walk ends exactly when no chain of slaves comes back to a node it has passed. */
  lemma WalkEndsExactlyWhenAcyclic(tree: BlockTree, block: string)
    ensures Ends(tree, block) <==> Acyclic(tree, block)
  {
    if Ends(tree, block) {
      var depth: nat :| Trace(tree, block, depth).Some?;
      forall path | IsDmPath(tree, path) && path != [] && path[0] == block ensures !Repeats(path) {
        EndsMeansAcyclic(tree, block, depth, path);
      }
    }
    if Acyclic(tree, block) {
      AcyclicMeansEnds(tree, block);
    }
  }

  /** A device that is its own slave keeps the walk going for ever, however often it has been seen. */
  lemma SelfSlaveNeverEnds(tree: BlockTree, block: string)
    requires IsDmName(block) && block in SlavesOf(tree, block)
    ensures !Ends(tree, block)
  {
    forall depth ensures Trace(tree, block, depth).None? {
      assert StepAt(tree, [block, block], 1);
      CycleNeverEnds(tree, [block, block], depth);
    }
  }

  // ----------------------------------------------------------- what is in the chain

  ghost predicate ReachableDm(tree: BlockTree, from: string, block: string)
  {
    exists path :: IsDmPath(tree, path) && path != [] && path[0] == from && path[|path| - 1] == block
  }

  /** The walk visits a node exactly when a chain of device-mapper slaves leads to it. */
  lemma {:induction false} VisitsReachable(tree: BlockTree, from: string, depth: nat, block: string)
    requires Trace(tree, from, depth).Some?
    ensures Visit(block) in Trace(tree, from, depth).value <==> ReachableDm(tree, from, block)
    decreases depth, 0
  {
    var slaves := SlavesOf(tree, from);
    VisitsBelow(tree, slaves, depth - 1, block);
    if ReachableDm(tree, from, block) && block != from {
      FirstStep(tree, from, block);
    }
    if Visit(block) in TraceSlaves(tree, slaves, depth - 1).value {
      var slave :| slave in slaves && IsDmName(slave) && ReachableDm(tree, slave, block);
      var path :| IsDmPath(tree, path) && path != [] && path[0] == slave && path[|path| - 1] == block;
      PrependStep(tree, from, path);
    }
    if block == from {
      assert IsDmPath(tree, [from]);
      assert [from][0] == from;
    }
  }

  lemma FirstStep(tree: BlockTree, from: string, block: string)
    requires ReachableDm(tree, from, block) && block != from
    ensures exists slave :: slave in SlavesOf(tree, from) && IsDmName(slave) && ReachableDm(tree, slave, block)
  {
    var path :| IsDmPath(tree, path) && path != [] && path[0] == from && path[|path| - 1] == block;
    var slave, rest := path[1], path[1..];
    assert StepAt(tree, path, 1);
    SubPath(tree, path, 1, |path|);
    assert rest == path[1..|path|] && rest[0] == slave && rest[|rest| - 1] == block;
    assert ReachableDm(tree, slave, block);
  }

  lemma PrependStep(tree: BlockTree, from: string, path: seq<string>)
    requires IsDmPath(tree, path) && path != [] && path[0] in SlavesOf(tree, from) && IsDmName(path[0])
    ensures ReachableDm(tree, from, path[|path| - 1])
  {
    var longer := [from] + path;
    ConsPath(tree, from, path);
    assert longer[|longer| - 1] == path[|path| - 1];
  }

  lemma {:induction false} VisitsBelow(tree: BlockTree, slaves: seq<string>, depth: nat, block: string)
    requires TraceSlaves(tree, slaves, depth).Some?
    ensures Visit(block) in TraceSlaves(tree, slaves, depth).value
       <==> exists slave :: slave in slaves && IsDmName(slave) && ReachableDm(tree, slave, block)
    decreases depth, 1 + |slaves|
  {
    if slaves != [] {
      var k := |slaves| - 1;
      VisitsBelow(tree, slaves[..k], depth, block);
      if IsDmName(slaves[k]) {
        VisitsReachable(tree, slaves[k], depth, block);
      }
      assert slaves == slaves[..k] + [slaves[k]];
    }
  }

  /** The walk records a loop device exactly when a node it visits has it as a slave. */
  lemma {:induction false} LoopsSeen(tree: BlockTree, from: string, depth: nat, device: string)
    requires Trace(tree, from, depth).Some?
    ensures Loop(device) in Trace(tree, from, depth).value
       <==> exists block ::
         Visit(block) in Trace(tree, from, depth).value && device in SlavesOf(tree, block) && Loops(device)
    decreases depth, 0
  {
    var slaves := SlavesOf(tree, from);
    var events, all := TraceSlaves(tree, slaves, depth - 1).value, Trace(tree, from, depth).value;
    LoopsBelow(tree, slaves, depth - 1, device);
    assert all[0] == Visit(from);
    assert forall e :: e in all <==> e == Visit(from) || e in events;
  }

  /** A slave the walk records as a loop device rather than descending into it. */
  predicate Loops(device: string)
  {
    !IsDmName(device) && IsLoopName(device)
  }

  lemma {:induction false} LoopsBelow(tree: BlockTree, slaves: seq<string>, depth: nat, device: string)
    requires TraceSlaves(tree, slaves, depth).Some?
    ensures var events := TraceSlaves(tree, slaves, depth).value;
      Loop(device) in events <==>
        || (device in slaves && Loops(device))
        || exists block :: Visit(block) in events && device in SlavesOf(tree, block) && Loops(device)
    decreases depth, 1 + |slaves|
  {
    if slaves != [] {
      var k := |slaves| - 1;
      LoopsBelow(tree, slaves[..k], depth, device);
      if IsDmName(slaves[k]) {
        LoopsSeen(tree, slaves[k], depth, device);
      }
      assert slaves == slaves[..k] + [slaves[k]];
      var before, last := TraceSlaves(tree, slaves[..k], depth).value, TraceSlave(tree, slaves[k], depth).value;
      assert forall e :: e in before + last <==> e in before || e in last;
    }
  }

  // ------------------------------------------------------------ the order of the chain

  /** `names` without the empty ones and without every repetition of an earlier one. */
  ghost predicate IsFirstVisits(chain: seq<string>, names: seq<string>)
  {
    && (forall i, j :: 0 <= i < j < |chain| ==> chain[i] != chain[j])
    && (forall x :: x in chain <==> x in names && x != "")
    && (forall i, j :: 0 <= i < j < |chain| ==> Precedes(names, chain[i], chain[j]))
  }

  /** `a` turns up before any `b`. */
  ghost predicate Precedes(names: seq<string>, a: string, b: string)
  {
    exists k :: 0 <= k < |names| && names[k] == a && forall l :: 0 <= l <= k ==> names[l] != b
  }

  function DmNamesIn(tree: BlockTree, events: seq<Event>): seq<string>
  {
    seq(|events|, i requires 0 <= i < |events| => DmNameIn(tree, events[i]))
  }

  function LoopsIn(events: seq<Event>): seq<string>
  {
    seq(|events|, i requires 0 <= i < |events| => LoopIn(events[i]))
  }

  lemma FirstVisitsGrow(chain: seq<string>, names: seq<string>, name: string)
    requires IsFirstVisits(chain, names)
    ensures IsFirstVisits(AddUnlessEmpty(chain, name), names + [name])
  {
    var all, more := names + [name], AddUnlessEmpty(chain, name);
    forall i, j | 0 <= i < j < |more| ensures Precedes(all, more[i], more[j]) {
      if j < |chain| {
        assert Precedes(names, chain[i], chain[j]);
        var k :| 0 <= k < |names| && names[k] == chain[i] && forall l :: 0 <= l <= k ==> names[l] != chain[j];
        assert all[k] == more[i];
      } else {
        assert chain[i] in names;
        var k :| 0 <= k < |names| && names[k] == chain[i];
        forall l | 0 <= l <= k ensures all[l] != name {
          assert names[l] in names;
        }
        assert all[k] == more[i];
      }
    }
  }

  /** The chain holds every non-empty name once, in the order of the first visits. */
  lemma {:induction false} ChainIsFirstVisits(tree: BlockTree, events: seq<Event>)
    ensures IsFirstVisits(DmNamesAfter(tree, [], events), DmNamesIn(tree, events))
    ensures IsFirstVisits(LoopsAfter([], events), LoopsIn(events))
  {
    if events != [] {
      var k := |events| - 1;
      ChainIsFirstVisits(tree, events[..k]);
      FirstVisitsGrow(DmNamesAfter(tree, [], events[..k]), DmNamesIn(tree, events[..k]), DmNameIn(tree, events[k]));
      FirstVisitsGrow(LoopsAfter([], events[..k]), LoopsIn(events[..k]), LoopIn(events[k]));
      assert DmNamesIn(tree, events) == DmNamesIn(tree, events[..k]) + [DmNameIn(tree, events[k])];
      assert LoopsIn(events) == LoopsIn(events[..k]) + [LoopIn(events[k])];
    }
  }

  /** A name is in the chain exactly when a device-mapper node below `from`, or `from` itself, carries it. */
  lemma ChainIsReachableNames(tree: BlockTree, from: string, depth: nat, name: string)
    requires Trace(tree, from, depth).Some?
    ensures name in DmNamesAfter(tree, [], Trace(tree, from, depth).value)
       <==> name != "" && exists block :: ReachableDm(tree, from, block) && NameOf(tree, block) == name
  {
    var events := Trace(tree, from, depth).value;
    ChainIsFirstVisits(tree, events);
    var names := DmNamesIn(tree, events);
    if name in names && name != "" {
      var i :| 0 <= i < |events| && DmNameIn(tree, events[i]) == name;
      assert events[i] in events;
      VisitsReachable(tree, from, depth, events[i].block);
    }
    if block :| ReachableDm(tree, from, block) && NameOf(tree, block) == name && name != "" {
      VisitsReachable(tree, from, depth, block);
      var i :| 0 <= i < |events| && events[i] == Visit(block);
      assert names[i] == name;
    }
  }

  lemma LoopPathIs(e: Event, device: string)
    ensures LoopIn(e) == "/dev/" + device <==> e == Loop(device)
  {
    if e.Loop? && LoopIn(e) == "/dev/" + device {
      assert LoopIn(e)[5..] == e.device && ("/dev/" + device)[5..] == device;
    }
  }

  /** A loop device is in the chain exactly when it is a slave of a device-mapper node the walk reaches. */
  lemma ChainIsReachableLoops(tree: BlockTree, from: string, depth: nat, device: string)
    requires Trace(tree, from, depth).Some?
    ensures "/dev/" + device in LoopsAfter([], Trace(tree, from, depth).value)
       <==> exists block :: ReachableDm(tree, from, block) && device in SlavesOf(tree, block) && Loops(device)
  {
    var events, path := Trace(tree, from, depth).value, "/dev/" + device;
    ChainIsFirstVisits(tree, events);
    LoopsSeen(tree, from, depth, device);
    forall block ensures Visit(block) in events <==> ReachableDm(tree, from, block) {
      VisitsReachable(tree, from, depth, block);
    }
    if path in LoopsIn(events) {
      var i :| 0 <= i < |events| && LoopIn(events[i]) == path;
      LoopPathIs(events[i], device);
      assert events[i] in events;
    }
    if Loop(device) in events {
      var i :| 0 <= i < |events| && events[i] == Loop(device);
      assert LoopsIn(events)[i] == path;
    }
  }

  // ---------------------------------------------------------------------- names with numbers

  ghost predicate IsNumberText(digits: string)
  {
    digits != "" && forall i :: 0 <= i < |digits| ==> digits[i] in "0123456789"
  }

  lemma DecimalDigit(c: char)
    ensures IsDigit(c) <==> c in "0123456789"
  {
    var digits := "0123456789";
    assert IsDigit(c) ==> c == digits[c as int - '0' as int];
  }

  lemma NumberedExactly(name: string, prefix: string)
    ensures HasNumberAfter(name, prefix) <==> exists digits :: IsNumberText(digits) && name == prefix + digits
  {
    if HasNumberAfter(name, prefix) {
      var digits := name[|prefix|..];
      forall i | 0 <= i < |digits| ensures digits[i] in "0123456789" {
        DecimalDigit(digits[i]);
      }
      assert IsNumberText(digits) && name == prefix + digits;
    }
    if digits :| IsNumberText(digits) && name == prefix + digits {
      assert name[|prefix|..] == digits;
      forall i | 0 <= i < |digits| ensures IsDigit(digits[i]) {
        DecimalDigit(digits[i]);
      }
    }
  }

  /** A device-mapper node is `dm-` and a number, a loop device `loop` and a number. */
  lemma DeviceNamesExactly(name: string)
    ensures IsDmName(name) <==> exists digits :: IsNumberText(digits) && name == "dm-" + digits
    ensures IsLoopName(name) <==> exists digits :: IsNumberText(digits) && name == "loop" + digits
  {
    NumberedExactly(name, "dm-");
    NumberedExactly(name, "loop");
  }

  /** A name is listed exactly when it is not empty and, trimmed, the content of a reachable node's name file. */
  lemma NameIsListedExactlyWhen(tree: BlockTree, from: string, depth: nat, name: string)
    requires Trace(tree, from, depth).Some?
    ensures name in DmNamesAfter(tree, [], Trace(tree, from, depth).value) <==>
      name != ""
      && exists block :: ReachableDm(tree, from, block) && block in tree.names && Trim(tree.names[block]) == name
  {
    ChainIsReachableNames(tree, from, depth, name);
    if block :| ReachableDm(tree, from, block) && block in tree.names && Trim(tree.names[block]) == name {
      assert NameOf(tree, block) == name;
    }
    if name != "" {
      if block :| ReachableDm(tree, from, block) && NameOf(tree, block) == name {
        assert block in tree.names;
      }
    }
  }

  /** `/dev/loop` and a number is listed exactly when a reachable node has that loop device among its slaves. */
  lemma LoopIsListedExactlyWhen(tree: BlockTree, from: string, depth: nat, digits: string)
    requires Trace(tree, from, depth).Some? && IsNumberText(digits)
    ensures "/dev/loop" + digits in LoopsAfter([], Trace(tree, from, depth).value) <==>
      exists block ::
        ReachableDm(tree, from, block) && block in tree.slaves && "loop" + digits in tree.slaves[block]
  {
    var device := "loop" + digits;
    assert "/dev/loop" + digits == "/dev/" + device;
    DeviceNamesExactly(device);
    assert device[0] == 'l';
    assert Loops(device);
    ChainIsReachableLoops(tree, from, depth, device);
    if block :| ReachableDm(tree, from, block) && block in tree.slaves && device in tree.slaves[block] {
      assert device in SlavesOf(tree, block);
    }
    if block :| ReachableDm(tree, from, block) && device in SlavesOf(tree, block) && Loops(device) {
      assert block in tree.slaves;
    }
  }
}
