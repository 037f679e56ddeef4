/** The stack of block devices under a filesystem (nails-base/src/blockdev/walk.rs). */
module DeviceStack {
  import opened Basics
  import opened Texts
  import opened Mounts
  import opened MountWalk

  const MAX_STACK_DEVICES := 16
  const SYS_DEV_BLOCK := "/sys/dev/block"
  const SYS_CLASS_BLOCK := "/sys/class/block"

  datatype LoopBacking = File(path: PathBuf) | Block(name: string)

  datatype LoopFollow = Never | BlockDevices | BackingFiles

  /** What the walk reads of the filesystem, fixed for one walk. */
  datatype Sysfs = Sysfs(
    links: map<string, string>,            // canonicalize, where it succeeds
    slaves: map<string, seq<string>>,      // the sorted listing of a device's slaves/
    loops: map<string, LoopBacking>,       // what a bound loop device is bound to
    blockDirs: set<string>,                // the directories with a readable dev attribute
    deviceNumbers: map<PathBuf, string>,   // major:minor of the filesystem a file is on
    mountTable: Option<seq<MountEntry>>,   // None when it cannot be read
    blockListing: seq<string>,             // the sorted listing of /sys/block
    dmNames: map<string, string>)          // dm/name of a device-mapper device, trimmed

  datatype Layer = Layer(sysfs: string, slaves: seq<string>, loopDevice: Option<LoopBacking>)

  function Canonical(fs: Sysfs, path: string): string
  {
    if path in fs.links then fs.links[path] else path
  }

  function Below(dir: string, name: string): string
  {
    dir + "/" + name
  }

  function BlockDir(fs: Sysfs, dir: string): Option<string>
  {
    if Canonical(fs, dir) in fs.blockDirs then Some(Canonical(fs, dir)) else None
  }

  function SlavesOf(fs: Sysfs, dir: string): seq<string>
  {
    if dir in fs.slaves then fs.slaves[dir] else []
  }

  /** `names`: the last name of each path that has one. */
  function FileNames(paths: seq<string>): seq<string>
  {
    if paths == [] then []
    else
      var name := FileName(Components(paths[0]));
      (if name.Some? then [name.value] else []) + FileNames(paths[1..])
  }

  function ReadLayer(fs: Sysfs, dir: string): Layer
  {
    Layer(dir, FileNames(SlavesOf(fs, dir)), if dir in fs.loops then Some(fs.loops[dir]) else None)
  }

  // --------------------------------------------------- the device behind a file

  function FileName(path: Path): Option<string>
  {
    if path != [] && path[|path| - 1].Normal? then Some(path[|path| - 1].name) else None
  }

  /** `device_of_mount`: by number, and by the source's name for a filesystem with an anonymous one. */
  function DeviceOfMount(fs: Sysfs, mount: MountEntry): Option<string>
  {
    var byNumber := BlockDir(fs, Below(SYS_DEV_BLOCK, mount.dev));
    var source := mount.source.components;
    if byNumber.Some? then byNumber
    else
      match FileName(source)
      case None => None
      case Some(name) =>
        if [RootDir, Normal("dev"), Normal("mapper")] <= source then
          First(CanonicalAll(fs, fs.blockListing), dir => dir in fs.dmNames && fs.dmNames[dir] == name)
        else if [RootDir, Normal("dev")] <= source then BlockDir(fs, Below(SYS_CLASS_BLOCK, name))
        else None
  }

  function CanonicalAll(fs: Sysfs, paths: seq<string>): seq<string>
  {
    seq(|paths|, i requires 0 <= i < |paths| => Canonical(fs, paths[i]))
  }

  /** The mount of the nearest ancestor of `path` that a lookup finds one at. */
  function MountOver(mounts: seq<MountEntry>, path: Path): Option<MountEntry>
  {
    var here := Lookup(mounts, path);
    if here.Some? || path == [] || path == ROOT then here else MountOver(mounts, path[..|path| - 1])
  }

  /** `device_holding`. */
  function DeviceHolding(fs: Sysfs, file: PathBuf, mounts: seq<MountEntry>): Option<string>
  {
    var byNumber :=
      if file in fs.deviceNumbers then BlockDir(fs, Below(SYS_DEV_BLOCK, fs.deviceNumbers[file])) else None;
    if byNumber.Some? then byNumber
    else
      match MountOver(mounts, file.components)
      case None => None
      case Some(mount) => DeviceOfMount(fs, mount)
  }

  function TableOf(fs: Sysfs): seq<MountEntry>
  {
    if fs.mountTable.Some? then fs.mountTable.value else []
  }

  /** `below_loop`, without the cache: what backs the loop device, if the walk may go on there. */
  function BelowLoop(fs: Sysfs, dir: string, follow: LoopFollow): Option<string>
  {
    if dir !in fs.loops then None
    else
      match fs.loops[dir]
      case Block(name) => if follow.Never? then None else BlockDir(fs, Below(SYS_CLASS_BLOCK, name))
      case File(path) => if follow.BackingFiles? then DeviceHolding(fs, path, TableOf(fs)) else None
  }

  /** `below_loop`: the mount table is read for the first loop over a file, and kept. */
  method FindBelowLoop(fs: Sysfs, layer: Layer, follow: LoopFollow, cached: Option<seq<MountEntry>>)
    returns (below: Option<string>, mounts: Option<seq<MountEntry>>)
    requires layer == ReadLayer(fs, layer.sysfs)
    requires cached.Some? ==> cached.value == TableOf(fs)
    ensures below == BelowLoop(fs, layer.sysfs, follow)
    ensures mounts.Some? ==> mounts.value == TableOf(fs)
    ensures mounts == cached || (follow.BackingFiles? && layer.loopDevice.Some? && layer.loopDevice.value.File?)
  {
    below, mounts := None, cached;
    if layer.loopDevice.Some? {
      match layer.loopDevice.value
      case Block(name) =>
        if !follow.Never? {
          below := BlockDir(fs, Below(SYS_CLASS_BLOCK, name));
        }
      case File(path) =>
        if follow.BackingFiles? {
          if mounts.None? {
            mounts := Some(TableOf(fs));
          }
          below := DeviceHolding(fs, path, mounts.value);
        }
    }
  }

  // --------------------------------------------------------------- reachability

  /** What the walk queues for a device: its slaves, then what lies below it as a loop device. */
  function Children(fs: Sysfs, dir: string, follow: LoopFollow): seq<string>
  {
    var below := BelowLoop(fs, dir, follow);
    SlavesOf(fs, dir) + if below.Some? then [below.value] else []
  }

  ghost predicate Edge(fs: Sysfs, follow: LoopFollow, a: string, b: string)
  {
    exists i :: 0 <= i < |Children(fs, a, follow)| && Canonical(fs, Children(fs, a, follow)[i]) == b
  }

  ghost predicate IsPath(fs: Sysfs, follow: LoopFollow, path: seq<string>)
  {
    forall i :: 0 < i < |path| ==> Edge(fs, follow, path[i - 1], path[i])
  }

  /** Some path of exactly `n` steps leads from `top` to `x`. */
  ghost predicate Steps(fs: Sysfs, follow: LoopFollow, top: string, x: string, n: nat)
  {
    exists path :: Leads(fs, follow, top, x, n, path)
  }

  ghost predicate Leads(fs: Sysfs, follow: LoopFollow, top: string, x: string, n: nat, path: seq<string>)
  {
    IsPath(fs, follow, path) && |path| == n + 1 && path[0] == Canonical(fs, top) && path[n] == x
  }

  ghost predicate IsDistance(fs: Sysfs, follow: LoopFollow, top: string, x: string, d: nat)
  {
    Steps(fs, follow, top, x, d) && forall n :: Steps(fs, follow, top, x, n) ==> d <= n
  }

  lemma StepFurther(fs: Sysfs, follow: LoopFollow, top: string, a: string, n: nat, i: nat)
    requires Steps(fs, follow, top, a, n) && i < |Children(fs, a, follow)|
    ensures Steps(fs, follow, top, Canonical(fs, Children(fs, a, follow)[i]), n + 1)
  {
    var path :| Leads(fs, follow, top, a, n, path);
    var b := Canonical(fs, Children(fs, a, follow)[i]);
    assert Edge(fs, follow, a, b);
    assert Leads(fs, follow, top, b, n + 1, path + [b]);
  }

  lemma StepBack(fs: Sysfs, follow: LoopFollow, top: string, x: string, n: nat) returns (before: string)
    requires n > 0 && Steps(fs, follow, top, x, n)
    ensures Steps(fs, follow, top, before, n - 1) && Edge(fs, follow, before, x)
  {
    var path :| Leads(fs, follow, top, x, n, path);
    before := path[n - 1];
    assert Leads(fs, follow, top, before, n - 1, path[..n]);
  }

  // ------------------------------------------------------- the breadth-first walk

  /** Where a walk stands: the devices read with their distances, and the queue with the distances it promises. */
  datatype Progress = Progress(visited: seq<string>, distances: seq<nat>, pending: seq<string>, promised: seq<nat>)

  /** `x` has been read, or is queued, at a distance of at most `d`. */
  ghost predicate Covered(fs: Sysfs, p: Progress, x: string, d: nat)
    requires |p.distances| == |p.visited| && |p.promised| == |p.pending|
  {
    || (exists j :: 0 <= j < |p.visited| && p.visited[j] == x && p.distances[j] <= d)
    || (exists k :: 0 <= k < |p.pending| && Canonical(fs, p.pending[k]) == x && p.promised[k] <= d)
  }

  ghost predicate Ordered(p: Progress)
    requires |p.distances| == |p.visited| && |p.promised| == |p.pending|
  {
    && (forall i, j :: 0 <= i < j < |p.distances| ==> p.distances[i] <= p.distances[j])
    && (forall i, j :: 0 <= i < j < |p.promised| ==> p.promised[i] <= p.promised[j])
    && (forall i, k :: 0 <= i < |p.distances| && 0 <= k < |p.promised| ==> p.distances[i] <= p.promised[k])
    && (forall k :: 0 <= k < |p.promised| ==> p.promised[k] <= p.promised[0] + 1)
  }

  ghost predicate Sound(fs: Sysfs, follow: LoopFollow, top: string, p: Progress)
    requires |p.distances| == |p.visited| && |p.promised| == |p.pending|
  {
    && (forall i :: 0 <= i < |p.visited| ==> IsDistance(fs, follow, top, p.visited[i], p.distances[i]))
    && (forall k :: 0 <= k < |p.pending| ==> Steps(fs, follow, top, Canonical(fs, p.pending[k]), p.promised[k]))
  }

  ghost predicate Closed(fs: Sysfs, follow: LoopFollow, top: string, p: Progress)
    requires |p.distances| == |p.visited| && |p.promised| == |p.pending|
  {
    && Covered(fs, p, Canonical(fs, top), 0)
    && forall i, x :: 0 <= i < |p.visited| && Edge(fs, follow, p.visited[i], x) ==>
         Covered(fs, p, x, p.distances[i] + 1)
  }

  ghost predicate Distinct(xs: seq<string>)
  {
    forall i, j :: 0 <= i < j < |xs| ==> xs[i] != xs[j]
  }

  ghost predicate Walking(fs: Sysfs, follow: LoopFollow, top: string, p: Progress)
  {
    && |p.distances| == |p.visited| && |p.promised| == |p.pending|
    && Distinct(p.visited) && Ordered(p) && Sound(fs, follow, top, p) && Closed(fs, follow, top, p)
  }

  function Begin(top: string): Progress
  {
    Progress([], [], [top], [0])
  }

  lemma WalkBegins(fs: Sysfs, follow: LoopFollow, top: string)
    ensures Walking(fs, follow, top, Begin(top))
  {
    var x := Canonical(fs, top);
    assert Leads(fs, follow, top, x, 0, [x]);
    assert Begin(top).pending[0] == top;
  }

  /** Whatever is `n` steps away has been read at that distance, or the queue still promises something as near. */
  lemma {:induction false} Frontier(fs: Sysfs, follow: LoopFollow, top: string, p: Progress, x: string, n: nat)
    requires Walking(fs, follow, top, p) && Steps(fs, follow, top, x, n)
    ensures (exists j :: 0 <= j < |p.visited| && p.visited[j] == x && p.distances[j] <= n)
         || (p.pending != [] && p.promised[0] <= n)
    decreases n
  {
    if n == 0 {
      var path :| Leads(fs, follow, top, x, 0, path);
      assert Covered(fs, p, x, 0);
    } else {
      var before := StepBack(fs, follow, top, x, n);
      Frontier(fs, follow, top, p, before, n - 1);
      if j :| 0 <= j < |p.visited| && p.visited[j] == before && p.distances[j] <= n - 1 {
        assert Covered(fs, p, x, p.distances[j] + 1);
      }
    }
  }

  function SkipOne(p: Progress): Progress
    requires p.pending != [] && |p.promised| == |p.pending|
  {
    p.(pending := p.pending[1..], promised := p.promised[1..])
  }

  lemma CoveredAfterSkip(fs: Sysfs, p: Progress, x: string, d: nat)
    requires |p.distances| == |p.visited| && |p.promised| == |p.pending| > 0 && Ordered(p)
    requires Canonical(fs, p.pending[0]) in p.visited && Covered(fs, p, x, d)
    ensures Covered(fs, SkipOne(p), x, d)
  {
    var q := SkipOne(p);
    if k :| 0 <= k < |p.pending| && Canonical(fs, p.pending[k]) == x && p.promised[k] <= d {
      if k == 0 {
        var j :| 0 <= j < |p.visited| && p.visited[j] == x;
        assert p.distances[j] <= p.promised[0];
      } else {
        assert q.pending[k - 1] == p.pending[k] && q.promised[k - 1] == p.promised[k];
      }
    }
  }

  lemma SkipClosed(fs: Sysfs, follow: LoopFollow, top: string, p: Progress)
    requires Walking(fs, follow, top, p) && p.pending != []
    requires Canonical(fs, p.pending[0]) in p.visited
    ensures Closed(fs, follow, top, SkipOne(p))
  {
    var q := SkipOne(p);
    CoveredAfterSkip(fs, p, Canonical(fs, top), 0);
    forall i, x | 0 <= i < |q.visited| && Edge(fs, follow, q.visited[i], x)
      ensures Covered(fs, q, x, q.distances[i] + 1)
    {
      CoveredAfterSkip(fs, p, x, p.distances[i] + 1);
    }
  }

  /** A queued device that was read already can be dropped. */
  lemma SkipKeepsWalking(fs: Sysfs, follow: LoopFollow, top: string, p: Progress)
    requires Walking(fs, follow, top, p) && p.pending != []
    requires Canonical(fs, p.pending[0]) in p.visited
    ensures Walking(fs, follow, top, SkipOne(p))
  {
    var q := SkipOne(p);
    SkipClosed(fs, follow, top, p);
    SkipOrdered(p);
    assert forall k :: 0 <= k < |q.pending| ==> q.promised[k] == p.promised[k + 1] && q.pending[k] == p.pending[k + 1];
  }

  lemma SkipOrdered(p: Progress)
    requires |p.distances| == |p.visited| && |p.promised| == |p.pending| > 0 && Ordered(p)
    ensures Ordered(SkipOne(p))
  {
    var q := SkipOne(p);
    assert forall k :: 0 <= k < |q.promised| ==> q.promised[k] == p.promised[k + 1];
    assert q.promised != [] ==> p.promised[0] <= q.promised[0];
  }

  function Repeat(d: nat, n: nat): (r: seq<nat>)
    ensures |r| == n && forall i :: 0 <= i < n ==> r[i] == d
  {
    seq(n, i => d)
  }

  function VisitOne(fs: Sysfs, follow: LoopFollow, p: Progress): Progress
    requires p.pending != [] && |p.promised| == |p.pending|
  {
    var x := Canonical(fs, p.pending[0]);
    var children := Children(fs, x, follow);
    Progress(
      p.visited + [x], p.distances + [p.promised[0]],
      p.pending[1..] + children, p.promised[1..] + Repeat(p.promised[0] + 1, |children|))
  }

  lemma CoveredAfterVisit(fs: Sysfs, follow: LoopFollow, p: Progress, x: string, d: nat)
    requires |p.distances| == |p.visited| && |p.promised| == |p.pending| > 0
    requires Covered(fs, p, x, d)
    ensures Covered(fs, VisitOne(fs, follow, p), x, d)
  {
    var q := VisitOne(fs, follow, p);
    if j :| 0 <= j < |p.visited| && p.visited[j] == x && p.distances[j] <= d {
      assert q.visited[j] == x && q.distances[j] <= d;
    } else {
      var k :| 0 <= k < |p.pending| && Canonical(fs, p.pending[k]) == x && p.promised[k] <= d;
      if k == 0 {
        assert q.visited[|p.visited|] == x && q.distances[|p.visited|] <= d;
      } else {
        assert q.pending[k - 1] == p.pending[k] && q.promised[k - 1] == p.promised[k];
      }
    }
  }

  lemma ChildCovered(fs: Sysfs, follow: LoopFollow, p: Progress, x: string)
    requires |p.distances| == |p.visited| && |p.promised| == |p.pending| > 0
    requires Edge(fs, follow, Canonical(fs, p.pending[0]), x)
    ensures Covered(fs, VisitOne(fs, follow, p), x, p.promised[0] + 1)
  {
    var q := VisitOne(fs, follow, p);
    var children := Children(fs, Canonical(fs, p.pending[0]), follow);
    var i :| 0 <= i < |children| && Canonical(fs, children[i]) == x;
    var k := |p.pending| - 1 + i;
    assert q.pending[k] == children[i] && q.promised[k] == p.promised[0] + 1;
  }

  lemma VisitClosed(fs: Sysfs, follow: LoopFollow, top: string, p: Progress)
    requires Walking(fs, follow, top, p) && p.pending != []
    ensures Closed(fs, follow, top, VisitOne(fs, follow, p))
  {
    var q := VisitOne(fs, follow, p);
    CoveredAfterVisit(fs, follow, p, Canonical(fs, top), 0);
    forall i, x | 0 <= i < |q.visited| && Edge(fs, follow, q.visited[i], x)
      ensures Covered(fs, q, x, q.distances[i] + 1)
    {
      if i < |p.visited| {
        CoveredAfterVisit(fs, follow, p, x, p.distances[i] + 1);
      } else {
        ChildCovered(fs, follow, p, x);
      }
    }
  }

  lemma VisitSound(fs: Sysfs, follow: LoopFollow, top: string, p: Progress)
    requires Walking(fs, follow, top, p) && p.pending != []
    requires Canonical(fs, p.pending[0]) !in p.visited
    ensures Sound(fs, follow, top, VisitOne(fs, follow, p))
  {
    var q, x, d := VisitOne(fs, follow, p), Canonical(fs, p.pending[0]), p.promised[0];
    forall n | Steps(fs, follow, top, x, n) ensures d <= n {
      Frontier(fs, follow, top, p, x, n);
    }
    assert IsDistance(fs, follow, top, x, d);
    var children := Children(fs, x, follow);
    forall k | 0 <= k < |q.pending| ensures Steps(fs, follow, top, Canonical(fs, q.pending[k]), q.promised[k]) {
      if k < |p.pending| - 1 {
        assert q.pending[k] == p.pending[k + 1] && q.promised[k] == p.promised[k + 1];
      } else {
        var i := k - (|p.pending| - 1);
        assert q.pending[k] == children[i] && q.promised[k] == d + 1;
        StepFurther(fs, follow, top, x, d, i);
      }
    }
  }

  lemma VisitOrdered(fs: Sysfs, follow: LoopFollow, p: Progress)
    requires |p.distances| == |p.visited| && |p.promised| == |p.pending| > 0 && Ordered(p)
    ensures Ordered(VisitOne(fs, follow, p))
  {
    var q, d := VisitOne(fs, follow, p), p.promised[0];
    forall k | 0 <= k < |q.promised| ensures d <= q.promised[k] <= d + 1
    {
      if k < |p.promised| - 1 {
        assert q.promised[k] == p.promised[k + 1];
      }
    }
    forall i, j | 0 <= i < j < |q.promised| ensures q.promised[i] <= q.promised[j] {
      if j < |p.promised| - 1 {
        assert q.promised[i] == p.promised[i + 1] && q.promised[j] == p.promised[j + 1];
      }
    }
  }

  /** Reading a queued device that is new keeps the walk on course: it is at the distance the queue promised. */
  lemma VisitKeepsWalking(fs: Sysfs, follow: LoopFollow, top: string, p: Progress)
    requires Walking(fs, follow, top, p) && p.pending != []
    requires Canonical(fs, p.pending[0]) !in p.visited
    ensures Walking(fs, follow, top, VisitOne(fs, follow, p))
  {
    VisitOrdered(fs, follow, p);
    VisitSound(fs, follow, top, p);
    VisitClosed(fs, follow, top, p);
  }

  function Names(layers: seq<Layer>): (r: seq<string>)
    ensures |r| == |layers| && forall i :: 0 <= i < |layers| ==> r[i] == layers[i].sysfs
  {
    seq(|layers|, i requires 0 <= i < |layers| => layers[i].sysfs)
  }

  /** The layers are the devices nearest to `top`: each at its shortest distance, nearest first, none left
  out that is nearer than one listed, and all that can be reached when there are fewer than the bound. */
  ghost predicate IsStack(fs: Sysfs, follow: LoopFollow, top: string, layers: seq<Layer>, distances: seq<nat>)
  {
    && 1 <= |layers| <= 16 && |distances| == |layers|
    && layers[0].sysfs == Canonical(fs, top)
    && Distinct(Names(layers))
    && (forall i :: 0 <= i < |layers| ==> layers[i] == ReadLayer(fs, layers[i].sysfs))
    && (forall i :: 0 <= i < |layers| ==> IsDistance(fs, follow, top, layers[i].sysfs, distances[i]))
    && (forall i, j :: 0 <= i < j < |layers| ==> distances[i] <= distances[j])
    && (forall x, n :: Steps(fs, follow, top, x, n) && x !in Names(layers) ==>
          |layers| == 16 && forall i :: 0 <= i < |layers| ==> distances[i] <= n)
  }

  /** What a walk that has ended leaves: nothing queued, or the bound reached. */
  lemma WalkEnds(fs: Sysfs, follow: LoopFollow, top: string, p: Progress, layers: seq<Layer>)
    requires Walking(fs, follow, top, p) && p.visited == Names(layers)
    requires 1 <= |layers| <= MAX_STACK_DEVICES && layers[0].sysfs == Canonical(fs, top)
    requires AsRead(fs, layers)
    requires p.pending == [] || |layers| == MAX_STACK_DEVICES
    ensures IsStack(fs, follow, top, layers, p.distances)
  {
    forall i | 0 <= i < |layers| ensures IsDistance(fs, follow, top, layers[i].sysfs, p.distances[i]) {
      assert p.visited[i] == layers[i].sysfs;
    }
    forall x, n | Steps(fs, follow, top, x, n) && x !in Names(layers)
      ensures |layers| == MAX_STACK_DEVICES && forall i :: 0 <= i < |layers| ==> p.distances[i] <= n
    {
      Frontier(fs, follow, top, p, x, n);
    }
  }

  /** The variables of the loop and the progress they stand for. */
  // ------------------------------------------------------------------ the order of the layers

  /** All that is ever queued: the top, and what lies below each device that was read, in the order of reading. */
  function Queue(fs: Sysfs, follow: LoopFollow, top: string, visited: seq<string>): (queue: seq<string>)
    ensures |queue| >= 1
  {
    if visited == [] then [top]
    else
      var n := |visited| - 1;
      Queue(fs, follow, top, visited[..n]) + Children(fs, visited[n], follow)
  }

  /** Each name once, where it first occurs. */
  function FirstOnes(names: seq<string>): seq<string>
  {
    if names == [] then []
    else
      var before, last := FirstOnes(names[..|names| - 1]), names[|names| - 1];
      if last in before then before else before + [last]
  }

  /** Of all that is queued, `c` have been taken off, and the devices read are those, each once. */
  ghost predicate TakenInOrder(
    fs: Sysfs, follow: LoopFollow, top: string, visited: seq<string>, pending: seq<string>, c: nat)
  {
    var queue := Queue(fs, follow, top, visited);
    c <= |queue| && queue[c..] == pending && visited == FirstOnes(CanonicalAll(fs, queue[..c]))
  }

  lemma FirstOnesMore(fs: Sysfs, queue: seq<string>, c: nat)
    requires c < |queue|
    ensures var before, x := FirstOnes(CanonicalAll(fs, queue[..c])), Canonical(fs, queue[c]);
      FirstOnes(CanonicalAll(fs, queue[..c + 1])) == if x in before then before else before + [x]
  {
    var all := CanonicalAll(fs, queue[..c + 1]);
    assert all[..c] == CanonicalAll(fs, queue[..c]) && all[c] == Canonical(fs, queue[c]);
  }

  lemma SkipInOrder(fs: Sysfs, follow: LoopFollow, top: string, visited: seq<string>, pending: seq<string>, c: nat)
    requires TakenInOrder(fs, follow, top, visited, pending, c) && pending != []
    requires Canonical(fs, pending[0]) in visited
    ensures TakenInOrder(fs, follow, top, visited, pending[1..], c + 1)
  {
    var queue := Queue(fs, follow, top, visited);
    assert queue[c] == queue[c..][0] && queue[c + 1..] == queue[c..][1..];
    FirstOnesMore(fs, queue, c);
  }

  lemma VisitInOrder(fs: Sysfs, follow: LoopFollow, top: string, visited: seq<string>, pending: seq<string>, c: nat)
    requires TakenInOrder(fs, follow, top, visited, pending, c) && pending != []
    requires Canonical(fs, pending[0]) !in visited
    ensures var x := Canonical(fs, pending[0]);
      TakenInOrder(fs, follow, top, visited + [x], pending[1..] + Children(fs, x, follow), c + 1)
  {
    var x, queue := Canonical(fs, pending[0]), Queue(fs, follow, top, visited);
    assert (visited + [x])[..|visited|] == visited;
    var more := Queue(fs, follow, top, visited + [x]);
    assert more == queue + Children(fs, x, follow);
    assert queue[c] == queue[c..][0] && queue[c + 1..] == queue[c..][1..];
    assert more[c + 1..] == queue[c + 1..] + Children(fs, x, follow) && more[..c + 1] == queue[..c + 1];
    FirstOnesMore(fs, queue, c);
  }

  /** The layers are what a first-in first-out queue yields: the devices queued, each once, in the order they were
  queued, up to the bound. */
  ghost predicate IsQueueOrder(fs: Sysfs, follow: LoopFollow, top: string, names: seq<string>, c: nat)
  {
    var queue := Queue(fs, follow, top, names);
    && c <= |queue| && names == FirstOnes(CanonicalAll(fs, queue[..c]))
    && (c == |queue| || |names| == 16)
  }

  /** Every layer is what was read of its device. */
  ghost predicate AsRead(fs: Sysfs, layers: seq<Layer>)
  {
    forall i :: 0 <= i < |layers| ==> layers[i] == ReadLayer(fs, layers[i].sysfs)
  }

  ghost predicate InStep(
    fs: Sysfs, follow: LoopFollow, top: string, p: Progress,
    layers: seq<Layer>, pending: seq<string>, seen: set<string>, taken: nat)
  {
    && Walking(fs, follow, top, p)
    && pending == p.pending && p.visited == Names(layers)
    && (forall x :: x in seen <==> x in p.visited)
    && |layers| <= MAX_STACK_DEVICES
    && AsRead(fs, layers)
    && (layers == [] ==> pending == [top])
    && (layers != [] ==> layers[0].sysfs == Canonical(fs, top))
    && TakenInOrder(fs, follow, top, p.visited, pending, taken)
  }

  lemma StepBegins(fs: Sysfs, follow: LoopFollow, top: string)
    ensures InStep(fs, follow, top, Begin(top), [], [top], {}, 0)
  {
    WalkBegins(fs, follow, top);
    assert [top][..0] == [] && [top][0..] == [top];
  }

  lemma SkipInStep(
    fs: Sysfs, follow: LoopFollow, top: string, p: Progress,
    layers: seq<Layer>, pending: seq<string>, seen: set<string>, taken: nat)
    returns (q: Progress, more: nat)
    requires InStep(fs, follow, top, p, layers, pending, seen, taken) && pending != []
    requires Canonical(fs, pending[0]) in seen
    ensures InStep(fs, follow, top, q, layers, pending[1..], seen, more)
  {
    SkipKeepsWalking(fs, follow, top, p);
    SkipInOrder(fs, follow, top, p.visited, pending, taken);
    q, more := SkipOne(p), taken + 1;
  }

  lemma VisitInStep(
    fs: Sysfs, follow: LoopFollow, top: string, p: Progress,
    layers: seq<Layer>, pending: seq<string>, seen: set<string>, taken: nat)
    returns (q: Progress, more: nat)
    requires InStep(fs, follow, top, p, layers, pending, seen, taken) && pending != []
    requires Canonical(fs, pending[0]) !in seen && |layers| < MAX_STACK_DEVICES
    ensures var x := Canonical(fs, pending[0]);
      InStep(fs, follow, top, q, layers + [ReadLayer(fs, x)], pending[1..] + Children(fs, x, follow), seen + {x}, more)
  {
    VisitKeepsWalking(fs, follow, top, p);
    VisitInOrder(fs, follow, top, p.visited, pending, taken);
    ReadMore(fs, layers, Canonical(fs, pending[0]));
    q, more := VisitOne(fs, follow, p), taken + 1;
  }

  lemma StepsEnd(
    fs: Sysfs, follow: LoopFollow, top: string, p: Progress,
    layers: seq<Layer>, pending: seq<string>, seen: set<string>, taken: nat)
    requires InStep(fs, follow, top, p, layers, pending, seen, taken) && layers != []
    requires pending == [] || |layers| == MAX_STACK_DEVICES
    ensures IsStack(fs, follow, top, layers, p.distances) && IsQueueOrder(fs, follow, top, Names(layers), taken)
  {
    WalkEnds(fs, follow, top, p, layers);
  }

  lemma ReadMore(fs: Sysfs, layers: seq<Layer>, x: string)
    ensures Names(layers + [ReadLayer(fs, x)]) == Names(layers) + [x]
    ensures AsRead(fs, layers) ==> AsRead(fs, layers + [ReadLayer(fs, x)])
    ensures (layers + [ReadLayer(fs, x)])[0].sysfs == if layers == [] then x else layers[0].sysfs
  {
  }

  /** The rest of the loop's body: read the device and find what to queue. */
  method ReadDevice(fs: Sysfs, dir: string, follow: LoopFollow, cached: Option<seq<MountEntry>>)
    returns (layer: Layer, children: seq<string>, mounts: Option<seq<MountEntry>>)
    requires cached.Some? ==> cached.value == TableOf(fs)
    ensures layer == ReadLayer(fs, dir) && children == Children(fs, dir, follow)
    ensures mounts.Some? ==> mounts.value == TableOf(fs)
  {
    layer := ReadLayer(fs, dir);
    children := SlavesOf(fs, dir);
    var below;
    below, mounts := FindBelowLoop(fs, layer, follow, cached);
    if below.Some? {
      children := children + [below.value];
    }
  }

  /** `stack`: breadth-first from `top`, each device read once, at most the bound. */
  method Stack(fs: Sysfs, top: string, follow: LoopFollow) returns (layers: seq<Layer>)
    ensures exists distances :: IsStack(fs, follow, top, layers, distances)
    ensures exists c: nat :: IsQueueOrder(fs, follow, top, Names(layers), c)
  {
    layers := [];
    var seen, mounts, pending := {}, None, [top];
    ghost var p, taken := Begin(top), 0;
    StepBegins(fs, follow, top);
    while pending != []
      invariant InStep(fs, follow, top, p, layers, pending, seen, taken)
      invariant mounts.Some? ==> mounts.value == TableOf(fs)
      decreases MAX_STACK_DEVICES - |layers|, |pending|
    {
      if |layers| >= MAX_STACK_DEVICES {
        break;
      }
      var dir := Canonical(fs, pending[0]);
      if dir in seen {
        p, taken := SkipInStep(fs, follow, top, p, layers, pending, seen, taken);
        pending := pending[1..];
        continue;
      }
      p, taken := VisitInStep(fs, follow, top, p, layers, pending, seen, taken);
      seen := seen + {dir};
      var layer, children;
      layer, children, mounts := ReadDevice(fs, dir, follow, mounts);
      pending := pending[1..] + children;
      layers := layers + [layer];
    }
    assert layers != [];
    StepsEnd(fs, follow, top, p, layers, pending, seen, taken);
  }

  // ------------------------------------------------------------- how far to follow

  function Reach(follow: LoopFollow): nat
  {
    match follow
    case Never => 0
    case BlockDevices => 1
    case BackingFiles => 2
  }

  lemma {:induction false} FollowingFurther(
    fs: Sysfs, less: LoopFollow, more: LoopFollow, top: string, x: string, n: nat)
    requires Reach(less) <= Reach(more) && Steps(fs, less, top, x, n)
    ensures Steps(fs, more, top, x, n)
  {
    var path :| Leads(fs, less, top, x, n, path);
    forall i | 0 < i < |path| ensures Edge(fs, more, path[i - 1], path[i]) {
      assert Edge(fs, less, path[i - 1], path[i]);
      var few, many := Children(fs, path[i - 1], less), Children(fs, path[i - 1], more);
      assert few <= many;
    }
    assert Leads(fs, more, top, x, n, path);
  }

  /** Following loops further only adds devices, as long as the bound cuts nothing off. */
  lemma FollowingFurtherFindsMore(
    fs: Sysfs, less: LoopFollow, more: LoopFollow, top: string,
    few: seq<Layer>, fewDistances: seq<nat>, many: seq<Layer>, manyDistances: seq<nat>, i: nat)
    requires Reach(less) <= Reach(more) && i < |few| && |many| < 16
    requires IsStack(fs, less, top, few, fewDistances) && IsStack(fs, more, top, many, manyDistances)
    ensures exists j :: 0 <= j < |many| && few[i] == many[j] && manyDistances[j] <= fewDistances[i]
  {
    var x, n := few[i].sysfs, fewDistances[i];
    FollowingFurther(fs, less, more, top, x, n);
    assert x in Names(many);
    var j :| 0 <= j < |many| && Names(many)[j] == x;
    assert few[i] == ReadLayer(fs, x) == many[j];
    assert IsDistance(fs, more, top, many[j].sysfs, manyDistances[j]);
  }

  // --------------------------------------------------------- what lies below a device, exactly

  /** Prefix `k` of the path is the nearest one that a lookup finds a mount at; below `/` there is none. */
  ghost predicate NearestAt(mounts: seq<MountEntry>, path: Path, k: nat, e: MountEntry)
  {
    && k <= |path| && (k == 0 ==> path == [] || path[0] != RootDir)
    && Lookup(mounts, path[..k]) == Some(e)
    && forall j :: k < j <= |path| ==> Lookup(mounts, path[..j]).None?
  }

  ghost predicate LiesOn(mounts: seq<MountEntry>, path: Path, e: MountEntry)
  {
    exists k: nat :: NearestAt(mounts, path, k, e)
  }

  lemma NearestHere(mounts: seq<MountEntry>, path: Path, e: MountEntry)
    requires Lookup(mounts, path).Some?
    ensures LiesOn(mounts, path, e) <==> Lookup(mounts, path) == Some(e)
  {
    assert path[..|path|] == path;
    if Lookup(mounts, path) == Some(e) {
      assert NearestAt(mounts, path, |path|, e);
    }
  }

  lemma NearestBefore(mounts: seq<MountEntry>, path: Path, e: MountEntry)
    requires Lookup(mounts, path).None? && path != [] && path != ROOT
    ensures LiesOn(mounts, path, e) <==> LiesOn(mounts, path[..|path| - 1], e)
  {
    var n := |path| - 1;
    var less := path[..n];
    assert path[..|path|] == path && forall j :: 0 <= j <= n ==> less[..j] == path[..j];
    if k: nat :| NearestAt(mounts, path, k, e) {
      assert NearestAt(mounts, less, k, e);
    }
    if k: nat :| NearestAt(mounts, less, k, e) {
      assert NearestAt(mounts, path, k, e);
    }
  }

  /** The mount a file lies on is the one at its nearest ancestor that has one. */
  lemma {:induction false} MountOverExactlyWhen(mounts: seq<MountEntry>, path: Path, e: MountEntry)
    ensures MountOver(mounts, path) == Some(e) <==> LiesOn(mounts, path, e)
    decreases |path|
  {
    if Lookup(mounts, path).Some? {
      NearestHere(mounts, path, e);
    } else if path == [] || path == ROOT {
      assert path[..|path|] == path;
      assert forall k: nat :: NearestAt(mounts, path, k, e) ==> path[..k] == path;
    } else {
      NearestBefore(mounts, path, e);
      MountOverExactlyWhen(mounts, path[..|path| - 1], e);
    }
  }

  /** Resolving the links of `path` gives `dir`; what cannot be resolved stays as it is. */
  ghost predicate Resolves(fs: Sysfs, path: string, dir: string)
  {
    (path in fs.links ==> dir == fs.links[path]) && (path !in fs.links ==> dir == path)
  }

  /** `dir` is the resolved directory of a block device, reached as /sys/dev/block/NUMBER. */
  ghost predicate HasNumber(fs: Sysfs, number: string, dir: string)
  {
    Resolves(fs, "/sys/dev/block/" + number, dir) && dir in fs.blockDirs
  }

  /** The same, reached as /sys/class/block/NAME. */
  ghost predicate HasName(fs: Sysfs, name: string, dir: string)
  {
    Resolves(fs, "/sys/class/block/" + name, dir) && dir in fs.blockDirs
  }

  /** `dir` is the first device listed whose device-mapper name is `name`. */
  ghost predicate HasMapperName(fs: Sysfs, name: string, dir: string)
  {
    exists i :: 0 <= i < |fs.blockListing| && IsMapped(fs, name, i) && Resolves(fs, fs.blockListing[i], dir)
      && forall j :: 0 <= j < i ==> !IsMapped(fs, name, j)
  }

  ghost predicate IsMapped(fs: Sysfs, name: string, i: nat)
    requires i < |fs.blockListing|
  {
    exists dir :: Resolves(fs, fs.blockListing[i], dir) && dir in fs.dmNames && fs.dmNames[dir] == name
  }

  /** The source is a node NAME somewhere below /dev, of the device-mapper or not. */
  ghost predicate SourceNamed(source: Path, name: string, mapper: bool)
  {
    && [RootDir, Normal("dev")] <= source && source[|source| - 1] == Normal(name)
    && (mapper <==> [RootDir, Normal("dev"), Normal("mapper")] <= source)
  }

  /** The device a mount sits on: by its number, or by its source when no device has that number. */
  ghost predicate SitsOn(fs: Sysfs, mount: MountEntry, dir: string)
  {
    || HasNumber(fs, mount.dev, dir)
    || (&& (forall d :: !HasNumber(fs, mount.dev, d))
        && ((exists name :: SourceNamed(mount.source.components, name, true) && HasMapperName(fs, name, dir))
            || (exists name :: SourceNamed(mount.source.components, name, false) && HasName(fs, name, dir))))
  }

  /** The device that holds a file: by the number of the file, or that of the mount it lies on. */
  ghost predicate Holds(fs: Sysfs, file: PathBuf, dir: string)
  {
    || NumberOfFile(fs, file, dir)
    || (&& (forall d :: !NumberOfFile(fs, file, d))
        && fs.mountTable.Some? && exists e :: LiesOn(fs.mountTable.value, file.components, e) && SitsOn(fs, e, dir))
  }

  ghost predicate NumberOfFile(fs: Sysfs, file: PathBuf, dir: string)
  {
    file in fs.deviceNumbers && HasNumber(fs, fs.deviceNumbers[file], dir)
  }

  /** What lies directly below a device: its slaves, and what it is bound to as a loop device, as far as loops are
  followed. */
  ghost predicate LiesBelow(fs: Sysfs, follow: LoopFollow, a: string, b: string)
  {
    || (a in fs.slaves && exists i :: 0 <= i < |fs.slaves[a]| && Resolves(fs, fs.slaves[a][i], b))
    || exists d :: BoundTo(fs, follow, a, d) && Resolves(fs, d, b)
  }

  ghost predicate BoundTo(fs: Sysfs, follow: LoopFollow, a: string, d: string)
  {
    && a in fs.loops
    && match fs.loops[a]
       case Block(name) => follow != Never && HasName(fs, name, d)
       case File(path) => follow == BackingFiles && Holds(fs, path, d)
  }

  lemma MappedExactly(fs: Sysfs, name: string, i: nat, dir: string)
    requires i < |fs.blockListing| && dir == Canonical(fs, fs.blockListing[i])
    ensures IsMapped(fs, name, i) <==> dir in fs.dmNames && fs.dmNames[dir] == name
    ensures forall d :: Resolves(fs, fs.blockListing[i], d) <==> d == dir
  {
  }

  lemma MapperNameExactly(fs: Sysfs, name: string, dir: string)
    ensures First(CanonicalAll(fs, fs.blockListing), d => d in fs.dmNames && fs.dmNames[d] == name) == Some(dir)
       <==> HasMapperName(fs, name, dir)
  {
    var all, p := CanonicalAll(fs, fs.blockListing), d => d in fs.dmNames && fs.dmNames[d] == name;
    forall i | 0 <= i < |all|
      ensures p(all[i]) <==> IsMapped(fs, name, i)
      ensures Resolves(fs, fs.blockListing[i], dir) <==> dir == all[i]
    {
      MappedExactly(fs, name, i, all[i]);
    }
    FirstExactly(all, p, dir);
  }

  lemma SitsOnExactly(fs: Sysfs, mount: MountEntry, dir: string)
    ensures DeviceOfMount(fs, mount) == Some(dir) <==> SitsOn(fs, mount, dir)
  {
    assert "/sys/dev/block/" + mount.dev == Below(SYS_DEV_BLOCK, mount.dev);
    var source := mount.source.components;
    var byNumber := BlockDir(fs, Below(SYS_DEV_BLOCK, mount.dev));
    assert forall d :: HasNumber(fs, mount.dev, d) <==> byNumber == Some(d);
    if FileName(source).Some? {
      var name := FileName(source).value;
      assert "/sys/class/block/" + name == Below(SYS_CLASS_BLOCK, name);
      MapperNameExactly(fs, name, dir);
      assert forall other, mapper :: SourceNamed(source, other, mapper) ==> other == name;
      assert [RootDir, Normal("dev")] <= source ==>
        SourceNamed(source, name, [RootDir, Normal("dev"), Normal("mapper")] <= source);
    }
  }

  lemma HoldsExactly(fs: Sysfs, file: PathBuf, dir: string)
    ensures DeviceHolding(fs, file, TableOf(fs)) == Some(dir) <==> Holds(fs, file, dir)
  {
    if file in fs.deviceNumbers {
      var number := fs.deviceNumbers[file];
      assert "/sys/dev/block/" + number == Below(SYS_DEV_BLOCK, number);
      assert forall d :: NumberOfFile(fs, file, d) <==> BlockDir(fs, Below(SYS_DEV_BLOCK, number)) == Some(d);
    }
    var over := MountOver(TableOf(fs), file.components);
    forall e ensures LiesOn(TableOf(fs), file.components, e) <==> over == Some(e) {
      MountOverExactlyWhen(TableOf(fs), file.components, e);
    }
    if over.Some? {
      SitsOnExactly(fs, over.value, dir);
    }
    if fs.mountTable.None? {
      NoMounts(file.components);
    }
  }

  lemma {:induction false} NoMounts(path: Path)
    ensures MountOver([], path).None?
    decreases |path|
  {
    if path != [] && path != ROOT {
      NoMounts(path[..|path| - 1]);
    }
  }

  lemma BoundExactly(fs: Sysfs, follow: LoopFollow, a: string, d: string)
    ensures BelowLoop(fs, a, follow) == Some(d) <==> BoundTo(fs, follow, a, d)
  {
    if a in fs.loops {
      match fs.loops[a]
      case Block(name) => assert "/sys/class/block/" + name == Below(SYS_CLASS_BLOCK, name);
      case File(path) => HoldsExactly(fs, path, d);
    }
  }

  /** A device's slaves are queued as they are listed, and then what it is bound to. */
  lemma ChildrenExactly(fs: Sysfs, follow: LoopFollow, a: string, d: string)
    ensures var slaves := if a in fs.slaves then fs.slaves[a] else [];
      && (BoundTo(fs, follow, a, d) ==> Children(fs, a, follow) == slaves + [d])
      && ((forall x :: !BoundTo(fs, follow, a, x)) ==> Children(fs, a, follow) == slaves)
  {
    BoundExactly(fs, follow, a, d);
    var below := BelowLoop(fs, a, follow);
    if below.Some? {
      BoundExactly(fs, follow, a, below.value);
    }
  }

  /** The walk goes on to exactly what lies below a device. */
  lemma EdgeExactlyWhen(fs: Sysfs, follow: LoopFollow, a: string, b: string)
    ensures Edge(fs, follow, a, b) <==> LiesBelow(fs, follow, a, b)
  {
    var children, slaves, below := Children(fs, a, follow), SlavesOf(fs, a), BelowLoop(fs, a, follow);
    forall d ensures below == Some(d) <==> BoundTo(fs, follow, a, d) {
      BoundExactly(fs, follow, a, d);
    }
    assert forall i :: 0 <= i < |slaves| ==> children[i] == slaves[i];
    assert below.Some? ==> children[|slaves|] == below.value;
  }

  /** A loop device over a file on a filesystem without a number of its own leads the walk to the device that the
  file's mount has as its source. */
  lemma BackingFileIsFollowed(
    fs: Sysfs, top: string, layers: seq<Layer>, distances: seq<nat>, file: PathBuf, e: MountEntry, name: string)
    requires IsStack(fs, BackingFiles, top, layers, distances) && |layers| < 16
    requires var loop := Canonical(fs, top); loop in fs.loops && fs.loops[loop] == File(file)
    requires forall d :: !NumberOfFile(fs, file, d) && !HasNumber(fs, e.dev, d)
    requires fs.mountTable.Some? && LiesOn(fs.mountTable.value, file.components, e)
    requires e.source.components == [RootDir, Normal("dev"), Normal(name)] && name != "mapper"
    requires Canonical(fs, "/sys/class/block/" + name) in fs.blockDirs
    ensures Canonical(fs, Canonical(fs, "/sys/class/block/" + name)) in Names(layers)
  {
    var loop, dir := Canonical(fs, top), Canonical(fs, "/sys/class/block/" + name);
    var b := Canonical(fs, dir);
    assert SourceNamed(e.source.components, name, false) && HasName(fs, name, dir);
    assert SitsOn(fs, e, dir) && Holds(fs, file, dir) && BoundTo(fs, BackingFiles, loop, dir);
    EdgeExactlyWhen(fs, BackingFiles, loop, b);
    assert Leads(fs, BackingFiles, top, b, 1, [loop, b]);
    assert Steps(fs, BackingFiles, top, b, 1);
  }

  /** A layer lists its slaves by name. */
  lemma {:induction false} SlavesByName(dir: seq<string>, names: seq<string>, paths: seq<string>)
    requires AllNames(dir) && AllNames(names) && |paths| == |names|
    requires forall i :: 0 <= i < |names| ==> paths[i] == Absolute(dir + [names[i]])
    ensures FileNames(paths) == names
  {
    if names != [] {
      SlavesByName(dir, names[1..], paths[1..]);
      ComponentsOfNames(dir + [names[0]]);
      assert names == [names[0]] + names[1..];
    }
  }
}
