/**
The recursive walks over a dependency tree: suspend, activate and deactivate.

The tree itself does not change during a walk.  The kernel is a map from each existing
device to its state; every ioctl may fail.  A ghost log records each change the kernel
makes, together with the state it was made in.
*/
module TreeWalk {
  import opened Links

  datatype Table = NoTable | Loaded(deps: set<Device>)

  /** A device the kernel knows: what its live table refers to, its inactive table, and opens from outside. */
  datatype DevState = DevState(suspended: bool, inactive: Table, deps: set<Device>, opens: nat)

  type Kernel = map<Device, DevState>

  /** The cached part of `struct dm_info` that the walks consult. */
  datatype Info = Info(suspended: bool, inactiveTable: bool)

  type Cache = map<Node, Info>

  function InfoOf(k: Kernel, d: Device): Info
    requires d in k
  {
    Info(k[d].suspended, k[d].inactive.Loaded?)
  }

  /** The devices that the tables of a device, live and inactive, refer to. */
  function Refs(st: DevState): set<Device> {
    st.deps + if st.inactive.Loaded? then st.inactive.deps else {}
  }

  function Users(k: Kernel, d: Device): set<Device> {
    set p | p in k && d in Refs(k[p])
  }

  function OpenCount(k: Kernel, d: Device): nat
    requires d in k
  {
    |Users(k, d)| + k[d].opens
  }

  ghost function SuspendedSet(k: Kernel): set<Device> {
    set d | d in k && k[d].suspended
  }

  // ----- the log -----

  datatype Op = Suspend | Resume | Remove

  datatype Step = Step(op: Op, dev: Device, before: Kernel)

  /** A resume brings an inactive table to life. */
  function Resumed(st: DevState): DevState {
    DevState(false, NoTable, if st.inactive.Loaded? then st.inactive.deps else st.deps, st.opens)
  }

  function After(s: Step): Kernel
    requires s.dev in s.before
  {
    var st := s.before[s.dev];
    match s.op
    case Suspend => s.before[s.dev := st.(suspended := true)]
    case Resume => s.before[s.dev := Resumed(st)]
    case Remove => s.before - {s.dev}
  }

  ghost predicate Chained(start: Kernel, steps: seq<Step>, now: Kernel) {
    && (forall i :: 0 <= i < |steps| ==> steps[i].dev in steps[i].before)
    && (steps != [] ==> steps[0].before == start)
    && (forall i, j :: 0 <= i && j == i + 1 < |steps| ==> steps[j].before == After(steps[i]))
    && now == if steps == [] then start else After(steps[|steps|-1])
  }

  // ----- the tree -----

  /** What the walks need of a tree; `rank` witnesses that it has no cycle below the root. */
  ghost predicate WalkableTree(g: Graph, rank: map<Node, nat>) {
    && WellLinked(g)
    && (forall n :: n in g.uses ==> n in rank)
    && (forall p, c :: Edge(g, p, c) && c != Root ==> rank[c] < rank[p])
    && (forall p, c :: Edge(g, Root, c) && Edge(g, p, c) ==> p == Root)
    && (forall p, c :: Edge(g, p, Root) && Edge(g, p, c) ==> c == Root)
  }

  lemma ChildInTree(g: Graph, n: Node, i: nat)
    requires WellLinked(g) && n in g.uses && i < |g.uses[n]|
    ensures g.uses[n][i] in g.uses
  {
    assert Edge(g, n, g.uses[n][i]);
  }

  ghost function Kids(g: Graph, n: Node): set<Node>
    requires n in g.uses
  {
    set c | c in g.uses[n]
  }

  ghost function KidsUpTo(g: Graph, n: Node, i: nat): set<Node>
    requires n in g.uses && i <= |g.uses[n]|
  {
    if i == 0 then {} else KidsUpTo(g, n, i - 1) + {g.uses[n][i-1]}
  }

  lemma {:induction false} KidsUpToIsPrefix(g: Graph, n: Node, i: nat)
    requires n in g.uses && i <= |g.uses[n]|
    ensures KidsUpTo(g, n, i) == set c | c in g.uses[n][..i]
  {
    if i > 0 {
      KidsUpToIsPrefix(g, n, i - 1);
      assert g.uses[n][..i] == g.uses[n][..i-1] + [g.uses[n][i-1]];
    }
  }

  lemma NoKids(g: Graph, n: Node)
    requires n in g.uses
    ensures KidsUpTo(g, n, 0) == {}
  {
  }

  lemma AllKids(g: Graph, n: Node)
    requires n in g.uses
    ensures KidsUpTo(g, n, |g.uses[n]|) == Kids(g, n)
  {
    KidsUpToIsPrefix(g, n, |g.uses[n]|);
    assert g.uses[n][..|g.uses[n]|] == g.uses[n];
  }

  /** The nodes of the walk that are reached from `n` through nodes of the walk. */
  ghost function Reach(g: Graph, rank: map<Node, nat>, sel: set<Node>, n: Node): set<Node>
    requires WalkableTree(g, rank) && n in g.uses
    decreases rank[n], |g.uses[n]| + 1
  {
    Kids(g, n) * sel + ReachThrough(g, rank, sel, n, |g.uses[n]|)
  }

  /** The nodes reached through the first `i` children of `n`. */
  ghost function ReachThrough(g: Graph, rank: map<Node, nat>, sel: set<Node>, n: Node, i: nat): set<Node>
    requires WalkableTree(g, rank) && n in g.uses && i <= |g.uses[n]|
    decreases rank[n], i
  {
    if i == 0 then {}
    else
      var c := g.uses[n][i-1];
      assert Edge(g, n, c) && c in g.uses;
      ReachThrough(g, rank, sel, n, i - 1) + if c in sel && c != Root then Reach(g, rank, sel, c) else {}
  }

  /** What the first `i` children of `n` use. */
  ghost function Grandkids(g: Graph, sel: set<Node>, n: Node, i: nat): set<Node>
    requires WellLinked(g) && n in g.uses && i <= |g.uses[n]|
  {
    if i == 0 then {}
    else
      var c := g.uses[n][i-1];
      assert Edge(g, n, c) && c in g.uses;
      Grandkids(g, sel, n, i - 1) + if c in sel && c != Root then Kids(g, c) else {}
  }

  /** `_children_suspended` with `inverted` set: the parents of `c` in the cache. */
  predicate ParentsSuspended(g: Graph, sel: set<Node>, info: Cache, c: Node)
    requires WellLinked(g) && c in g.uses && info.Keys == g.uses.Keys
  {
    || c in g.uses[Root]
    || forall i :: 0 <= i < |g.usedBy[c]| && g.usedBy[c][i] in sel ==>
         assert Edge(g, g.usedBy[c][i], c); info[g.usedBy[c][i]].suspended
  }

  // ----- what each logged change must satisfy -----

  predicate OnNewestTable(st: DevState) {
    !st.suspended && st.inactive.NoTable?
  }

  /**
  A device is suspended only when its parents are, resumed only when what it uses runs on its
  newest table, and, unless removal is to be retried, removed only when nothing holds it open.
  */
  ghost predicate SafeStep(g: Graph, sel: set<Node>, retry: bool, s: Step) {
    && s.dev in s.before
    && match s.op
       case Suspend =>
         && !s.before[s.dev].suspended
         && forall p :: Edge(g, p, Dev(s.dev)) && p in sel && p.Dev? && p.dev in s.before ==> s.before[p.dev].suspended
       case Resume =>
         forall c :: Edge(g, Dev(s.dev), c) && c in sel && c.Dev? && c.dev in s.before ==>
           OnNewestTable(s.before[c.dev])
       case Remove =>
         retry || OpenCount(s.before, s.dev) == 0
  }

  /** The log leads from `start` to the present state, and every change in it was safe. */
  ghost predicate SafeLog(g: Graph, sel: set<Node>, retry: bool, start: Kernel, steps: seq<Step>, now: Kernel) {
    && Chained(start, steps, now)
    && forall i :: 0 <= i < |steps| ==> SafeStep(g, sel, retry, steps[i])
  }

  ghost predicate Prioritised(g: Graph, priority: map<Node, nat>) {
    forall n :: n in g.uses ==> n in priority && priority[n] < 3
  }

  lemma SafeLogExtends(g: Graph, sel: set<Node>, retry: bool, start: Kernel, steps: seq<Step>, now: Kernel, s: Step)
    requires SafeLog(g, sel, retry, start, steps, now) && s.before == now && SafeStep(g, sel, retry, s)
    ensures SafeLog(g, sel, retry, start, steps + [s], After(s))
  {
    var all := steps + [s];
    assert forall i :: 0 <= i < |steps| ==> all[i] == steps[i];
  }

  // ----- agreement of cache and kernel -----

  ghost predicate CachedSuspendedIsTrue(k: Kernel, info: Cache) {
    forall d :: Dev(d) in info && d in k && info[Dev(d)].suspended ==> k[d].suspended
  }

  /** The cache calls no device live that is suspended or has a table waiting. */
  ghost predicate CachedLiveIsTrue(k: Kernel, info: Cache) {
    forall d :: Dev(d) in info && d in k ==>
      (k[d].suspended ==> info[Dev(d)].suspended) && (k[d].inactive.Loaded? ==> info[Dev(d)].inactiveTable)
  }

  ghost predicate CachedTableIsTrue(k: Kernel, info: Cache) {
    forall d :: Dev(d) in info && d in k ==> (info[Dev(d)].inactiveTable <==> k[d].inactive.Loaded?)
  }

  ghost predicate Coherent(k: Kernel, info: Cache) {
    CachedSuspendedIsTrue(k, info) && CachedLiveIsTrue(k, info) && CachedTableIsTrue(k, info)
  }

  ghost predicate InfoLive(info: Cache, x: Node) {
    x in info && !info[x].suspended && !info[x].inactiveTable
  }

  // ----- what is still to do -----

  /** A device that the suspend walk should still suspend. */
  ghost predicate Unsettled(g: Graph, sel: set<Node>, k: Kernel, info: Cache, c: Node)
    requires WellLinked(g) && info.Keys == g.uses.Keys && c in g.uses
  {
    c in sel && c.Dev? && c.dev in k && !k[c.dev].suspended && ParentsSuspended(g, sel, info, c)
  }

  ghost function Todo(g: Graph, sel: set<Node>, k: Kernel, info: Cache): set<Node>
    requires WellLinked(g) && info.Keys == g.uses.Keys
  {
    set c | c in g.uses && Unsettled(g, sel, k, info, c)
  }

  /** The devices that the deactivate walk should still remove. */
  ghost function Orphans(g: Graph, sel: set<Node>, k: Kernel): set<Node> {
    set c | c in g.uses && c in sel && c.Dev? && c.dev in k && Users(k, c.dev) == {}
  }

  /** The kernel's dependencies of the devices in the tree are links of the tree. */
  ghost predicate DepsAreLinks(g: Graph, k: Kernel) {
    forall p, c :: p in k && Dev(p) in g.uses && c in Refs(k[p]) ==> Edge(g, Dev(p), Dev(c))
  }

  ghost predicate NotHeldOutside(sel: set<Node>, k: Kernel) {
    forall d :: d in k && Dev(d) in sel ==> k[d].opens == 0
  }

  lemma SuspendedSetUpdate(k: Kernel, d: Device, st: DevState)
    requires d in k
    ensures |SuspendedSet(k[d := st])| ==
            |SuspendedSet(k)| - (if k[d].suspended then 1 else 0) + (if st.suspended then 1 else 0)
  {
    var rest := SuspendedSet(k) - {d};
    assert SuspendedSet(k) == if k[d].suspended then rest + {d} else rest;
    assert SuspendedSet(k[d := st]) == if st.suspended then rest + {d} else rest;
  }

  lemma SuspendedSetRemove(k: Kernel, d: Device)
    requires d in k
    ensures |SuspendedSet(k - {d})| == |SuspendedSet(k)| - (if k[d].suspended then 1 else 0)
    ensures |k - {d}| == |k| - 1
  {
    var rest := SuspendedSet(k) - {d};
    assert SuspendedSet(k) == if k[d].suspended then rest + {d} else rest;
    assert SuspendedSet(k - {d}) == rest;
    assert (k - {d}).Keys == k.Keys - {d};
    assert |(k - {d}).Keys| == |k.Keys| - 1;
  }

  /** After a device was suspended, only what it uses can need attention anew. */
  lemma SuspendUnsettles(g: Graph, sel: set<Node>, k: Kernel, info: Cache, d: Device, i: Info)
    requires WellLinked(g) && info.Keys == g.uses.Keys && Dev(d) in g.uses && d in k && i.suspended
    ensures Todo(g, sel, k[d := k[d].(suspended := true)], info[Dev(d) := i]) <=
            Todo(g, sel, k, info) - {Dev(d)} + Kids(g, Dev(d))
  {
    var k1 := k[d := k[d].(suspended := true)];
    var info1 := info[Dev(d) := i];
    forall c | c in Todo(g, sel, k1, info1) && c !in Kids(g, Dev(d)) ensures c in Todo(g, sel, k, info) && c != Dev(d) {
      assert !Edge(g, Dev(d), c);
      if c !in g.uses[Root] {
        forall j | 0 <= j < |g.usedBy[c]| && g.usedBy[c][j] in sel
          ensures Edge(g, g.usedBy[c][j], c) && info[g.usedBy[c][j]].suspended
        {
        }
      }
    }
  }

  /** The children of the children are reached, apart from the root below a leaf. */
  lemma {:induction false} GrandkidsReached(g: Graph, rank: map<Node, nat>, sel: set<Node>, n: Node, i: nat)
    requires WalkableTree(g, rank) && n in g.uses && i <= |g.uses[n]|
    ensures Grandkids(g, sel, n, i) * sel <= ReachThrough(g, rank, sel, n, i)
  {
    hide WellLinked;
    if i != 0 {
      GrandkidsReached(g, rank, sel, n, i - 1);
      var c := g.uses[n][i-1];
      ChildInTree(g, n, i - 1);
      if c in sel && c != Root {
        assert Kids(g, c) * sel <= Reach(g, rank, sel, c);
      }
    }
  }

  lemma {:induction false} ReachThroughGrows(g: Graph, rank: map<Node, nat>, sel: set<Node>, n: Node, i: nat, j: nat)
    requires WalkableTree(g, rank) && n in g.uses && i <= j <= |g.uses[n]|
    ensures ReachThrough(g, rank, sel, n, i) <= ReachThrough(g, rank, sel, n, j)
  {
    if i < j {
      ReachThroughGrows(g, rank, sel, n, i, j - 1);
    }
  }

  lemma AtMostOnce<T>(s: seq<T>, x: T)
    requires Distinct(s)
    ensures (forall i :: 0 <= i < |s| ==> s[i] == x) ==> |s| <= 1
  {
    assert |s| >= 2 ==> s[0] != s[1];
  }

  /** Below a leaf there is nothing but the root. */
  lemma ReachThroughStep(g: Graph, rank: map<Node, nat>, sel: set<Node>, n: Node, i: nat)
    requires WalkableTree(g, rank) && n in g.uses && i < |g.uses[n]| && g.uses[n][i] in g.uses
    ensures ReachThrough(g, rank, sel, n, i + 1) ==
      var before := ReachThrough(g, rank, sel, n, i);
      if g.uses[n][i] in sel && g.uses[n][i] != Root then before + Reach(g, rank, sel, g.uses[n][i]) else before
  {
    hide Reach;
  }

  lemma ReachThroughNone(g: Graph, rank: map<Node, nat>, sel: set<Node>, n: Node)
    requires WalkableTree(g, rank) && n in g.uses
    ensures ReachThrough(g, rank, sel, n, 0) == {}
  {
  }

  lemma LeafReach(g: Graph, rank: map<Node, nat>, sel: set<Node>, n: Node)
    requires WalkableTree(g, rank) && n in g.uses && NumChildren(g, n) == 0
    ensures g.uses[n] <= [Root] && Reach(g, rank, sel, n) <= {Root}
  {
    assert forall i :: 0 <= i < |g.uses[n]| ==> Edge(g, n, g.uses[n][i]);
    AtMostOnce(g.uses[n], Root);
    assert g.uses[n] <= [Root];
    assert ReachThrough(g, rank, sel, n, 0) == {};
  }

  /** The devices on which two kernel states differ. */
  ghost function Changed(k: Kernel, k1: Kernel): set<Node> {
    set d | d in k && (d !in k1 || k1[d] != k[d]) :: Dev(d)
  }

  lemma NothingChanged(k: Kernel)
    ensures Changed(k, k) == {}
  {
  }

  ghost predicate OnlySuspends(k: Kernel, k1: Kernel) {
    && k1.Keys == k.Keys
    && forall d :: d in k ==> k1[d] == k[d] || k1[d] == k[d].(suspended := true)
  }

  /** How the cache may look after the device of a step was changed: refreshed, or not. */
  ghost predicate InfoRefreshed(info: Cache, s: Step, info1: Cache)
    requires s.dev in s.before && s.op != Remove
  {
    info1 == info[Dev(s.dev) := InfoOf(After(s), s.dev)]
  }

  lemma SuspendKeepsCache(g: Graph, sel: set<Node>, k: Kernel, info: Cache, info1: Cache, d: Device)
    requires WellLinked(g) && info.Keys == g.uses.Keys
    requires d in k && Dev(d) in info && !k[d].suspended && ParentsSuspended(g, sel, info, Dev(d))
    requires InfoRefreshed(info, Step(Suspend, d, k), info1) || info1 == info
    requires CachedSuspendedIsTrue(k, info)
    ensures forall f :: f || InfoRefreshed(info, Step(Suspend, d, k), info1) ==>
            SuspendKept(g, sel, f, k, info, After(Step(Suspend, d, k)), info1)
    ensures CachedSuspendedIsTrue(After(Step(Suspend, d, k)), info1)
    ensures Changed(k, After(Step(Suspend, d, k))) == {Dev(d)}
  {
    var k1 := After(Step(Suspend, d, k));
    assert Changed(k, k1) == {Dev(d)};
    ParentsStay(g, sel, info, info1, Dev(d));
  }

  lemma ParentsStay(g: Graph, sel: set<Node>, info: Cache, info1: Cache, c: Node)
    requires WellLinked(g) && c in g.uses && info.Keys == info1.Keys == g.uses.Keys
    requires ParentsSuspended(g, sel, info, c)
    requires forall n :: n in info && info[n].suspended ==> info1[n].suspended
    ensures ParentsSuspended(g, sel, info1, c)
  {
    if c !in g.uses[Root] {
      forall i | 0 <= i < |g.usedBy[c]| && g.usedBy[c][i] in sel
        ensures Edge(g, g.usedBy[c][i], c) && info1[g.usedBy[c][i]].suspended
      {
      }
    }
  }

  /**
  What a suspend walk keeps, whatever fails.  The cache never forgets a suspended node,
  changes only for nodes that were suspended, and shows the parents of those as suspended.
  */
  ghost predicate SuspendKept(g: Graph, sel: set<Node>, infoMayFail: bool, k: Kernel, info: Cache, k1: Kernel,
                              info1: Cache)
    requires WellLinked(g) && info.Keys == g.uses.Keys
  {
    && OnlySuspends(k, k1)
    && info1.Keys == info.Keys
    && CachedSuspendedIsTrue(k1, info1)
    && (!infoMayFail && Coherent(k, info) ==> Coherent(k1, info1))
    && (forall n :: n in info && info[n].suspended ==> info1[n].suspended)
    && (forall n :: n in info && info1[n] != info[n] ==> n in Changed(k, k1))
    && (forall n :: n in Changed(k, k1) ==> n in g.uses && ParentsSuspended(g, sel, info1, n))
  }

  lemma SuspendKeptCompose(g: Graph, sel: set<Node>, f: bool, k: Kernel, info: Cache, k1: Kernel, info1: Cache,
                           k2: Kernel, info2: Cache)
    requires WellLinked(g) && info.Keys == info1.Keys == g.uses.Keys
    requires SuspendKept(g, sel, f, k, info, k1, info1) && SuspendKept(g, sel, f, k1, info1, k2, info2)
    ensures SuspendKept(g, sel, f, k, info, k2, info2)
    ensures Changed(k, k2) == Changed(k, k1) + Changed(k1, k2)
  {
    assert Changed(k, k2) == Changed(k, k1) + Changed(k1, k2);
    forall n | n in Changed(k, k2) ensures ParentsSuspended(g, sel, info2, n) {
      if n in Changed(k, k1) { ParentsStay(g, sel, info1, info2, n); }
    }
  }

  lemma TodoIsDevices(g: Graph, sel: set<Node>, k: Kernel, info: Cache)
    requires WellLinked(g) && info.Keys == g.uses.Keys
    ensures Root !in Todo(g, sel, k, info) && Todo(g, sel, k, info) <= sel
  {
  }

  lemma ChildRank(g: Graph, rank: map<Node, nat>, n: Node, i: nat)
    requires WalkableTree(g, rank) && n in g.uses && i < |g.uses[n]|
    ensures n in rank && g.uses[n][i] in rank && (g.uses[n][i] != Root ==> rank[g.uses[n][i]] < rank[n])
    ensures g.uses[n][i] == Root ==> Root in g.uses[n] && Root !in g.uses[Root]
  {
    assert Edge(g, n, g.uses[n][i]);
    assert g.uses[n][i] in g.uses;
  }

  lemma SuspendKeptSelf(g: Graph, sel: set<Node>, f: bool, k: Kernel, info: Cache)
    requires WellLinked(g) && info.Keys == g.uses.Keys && CachedSuspendedIsTrue(k, info)
    ensures SuspendKept(g, sel, f, k, info, k, info) && Changed(k, k) == {}
  {
  }

  // ----- the law of every moment -----

  function StateAt(start: Kernel, steps: seq<Step>, i: nat): Kernel
    requires i <= |steps| && forall j :: 0 <= j < |steps| ==> steps[j].dev in steps[j].before
  {
    if i == 0 then start else After(steps[i-1])
  }

  /** Nothing live rests on something suspended. */
  ghost predicate TopDown(g: Graph, sel: set<Node>, k: Kernel) {
    forall p, c :: Edge(g, Dev(p), Dev(c)) && Dev(p) in sel && Dev(c) in sel && p in k && c in k && k[c].suspended ==>
      k[p].suspended
  }

  /** No existing device refers to one that existed at the start and is gone. */
  ghost predicate NothingDangles(start: Kernel, k: Kernel) {
    forall p, c :: p in k && c in Refs(k[p]) && c in start ==> c in k
  }

  lemma SafeStepKeepsOrder(g: Graph, sel: set<Node>, retry: bool, s: Step)
    requires SafeStep(g, sel, retry, s) && TopDown(g, sel, s.before)
    ensures TopDown(g, sel, After(s))
  {
  }

  lemma SafeStepLeavesNothingDangling(g: Graph, sel: set<Node>, start: Kernel, s: Step)
    requires SafeStep(g, sel, false, s) && NothingDangles(start, s.before)
    ensures NothingDangles(start, After(s))
  {
    hide Refs;
    if s.op == Remove {
      NobodyUses(s.before, s.dev);
    } else {
      RefsShrink(s);
      RefsOnlyShrink(start, s.before, After(s));
    }
  }

  lemma NobodyUses(k: Kernel, d: Device)
    requires d in k && OpenCount(k, d) == 0
    ensures forall p :: p in k ==> d !in Refs(k[p])
  {
    hide Refs;
    assert Users(k, d) == {};
    forall p | p in k ensures d !in Refs(k[p]) {
      assert p !in Users(k, d);
    }
  }

  lemma RefsShrink(s: Step)
    requires s.dev in s.before && s.op != Remove
    ensures After(s).Keys == s.before.Keys
    ensures forall p :: p in s.before ==> Refs(After(s)[p]) <= Refs(s.before[p])
  {
  }

  lemma RefsOnlyShrink(start: Kernel, k: Kernel, k1: Kernel)
    requires NothingDangles(start, k) && k1.Keys == k.Keys
    requires forall p :: p in k ==> Refs(k1[p]) <= Refs(k[p])
    ensures NothingDangles(start, k1)
  {
    hide Refs;
    forall p, c | p in k1 && c in Refs(k1[p]) && c in start ensures c in k1 {
      assert c in Refs(k[p]);
    }
  }

  /**
  Whatever walks are run and whatever fails: at every moment in between, no live node of
  the tree uses a suspended one, and without retries nothing refers to a removed device.
  */
  lemma {:induction false} EveryMoment(g: Graph, sel: set<Node>, retry: bool, start: Kernel, steps: seq<Step>,
                                       now: Kernel, i: nat)
    requires SafeLog(g, sel, retry, start, steps, now) && TopDown(g, sel, start) && i <= |steps|
    ensures TopDown(g, sel, StateAt(start, steps, i))
    ensures !retry ==> NothingDangles(start, StateAt(start, steps, i))
  {
    if i > 0 {
      EveryMoment(g, sel, retry, start, steps, now, i - 1);
      assert steps[i-1].before == StateAt(start, steps, i - 1);
      SafeStepKeepsOrder(g, sel, retry, steps[i-1]);
      if !retry { SafeStepLeavesNothingDangling(g, sel, start, steps[i-1]); }
    }
  }

  // ----- completeness of the suspend walk -----

  ghost predicate AllSuspended(g: Graph, rank: map<Node, nat>, sel: set<Node>, k: Kernel)
    requires WalkableTree(g, rank)
  {
    forall c :: c in Reach(g, rank, sel, Root) && c.Dev? && c.dev in k ==> k[c.dev].suspended
  }

  /** A node of the walk that is still to be suspended. */
  ghost predicate Wanted(g: Graph, rank: map<Node, nat>, sel: set<Node>, k: Kernel, c: Node)
    requires WalkableTree(g, rank)
  {
    c in Reach(g, rank, sel, Root) && c.Dev? && c.dev in k && !k[c.dev].suspended
  }

  /** The parents that such a node waits for are suspended already, or exist and are visited themselves. */
  ghost predicate ParentsWithin(g: Graph, rank: map<Node, nat>, sel: set<Node>, k: Kernel, info: Cache)
    requires WalkableTree(g, rank) && info.Keys == g.uses.Keys
  {
    forall p, c :: Edge(g, p, c) && Wanted(g, rank, sel, k, c) && p in sel && p != Root ==>
      (p in info && info[p].suspended) || (p in Reach(g, rank, sel, Root) && p.dev in k)
  }

  lemma {:induction false} ReachIsBelow(g: Graph, rank: map<Node, nat>, sel: set<Node>, n: Node, x: Node)
    requires WalkableTree(g, rank) && n in g.uses && x in Reach(g, rank, sel, n)
    ensures x in g.uses && x in sel && (x != Root ==> rank[x] < rank[n])
    decreases rank[n], |g.uses[n]| + 1
  {
    if x in Kids(g, n) * sel {
      assert Edge(g, n, x);
    } else {
      ReachThroughIsBelow(g, rank, sel, n, |g.uses[n]|, x);
    }
  }

  lemma {:induction false} ReachThroughIsBelow(g: Graph, rank: map<Node, nat>, sel: set<Node>, n: Node, i: nat, x: Node)
    requires WalkableTree(g, rank) && n in g.uses && i <= |g.uses[n]| && x in ReachThrough(g, rank, sel, n, i)
    ensures x in g.uses && x in sel && (x != Root ==> rank[x] < rank[n])
    decreases rank[n], i
  {
    var c := g.uses[n][i-1];
    assert Edge(g, n, c) && c in g.uses;
    if x in ReachThrough(g, rank, sel, n, i - 1) {
      ReachThroughIsBelow(g, rank, sel, n, i - 1, x);
    } else {
      ReachIsBelow(g, rank, sel, c, x);
    }
  }

  /** If nothing is left to do, the reached nodes are suspended from the top down. */
  lemma SettledMeansSuspended(g: Graph, rank: map<Node, nat>, sel: set<Node>, k: Kernel, info: Cache, k1: Kernel,
                              info1: Cache)
    requires WalkableTree(g, rank) && info.Keys == g.uses.Keys && SuspendKept(g, sel, false, k, info, k1, info1)
    requires CachedLiveIsTrue(k1, info1) && Todo(g, sel, k1, info1) !! Reach(g, rank, sel, Root)
    requires ParentsWithin(g, rank, sel, k, info)
    ensures AllSuspended(g, rank, sel, k1)
  {
    forall c | c in Reach(g, rank, sel, Root) && c.Dev? && c.dev in k1 ensures k1[c.dev].suspended {
      ReachIsBelow(g, rank, sel, Root, c);
      SettledNodeSuspended(g, rank, sel, k, info, k1, info1, c);
    }
  }

  lemma {:induction false} SettledNodeSuspended(g: Graph, rank: map<Node, nat>, sel: set<Node>, k: Kernel,
                                                info: Cache, k1: Kernel, info1: Cache, c: Node)
    requires WalkableTree(g, rank) && info.Keys == g.uses.Keys && SuspendKept(g, sel, false, k, info, k1, info1)
    requires CachedLiveIsTrue(k1, info1) && Todo(g, sel, k1, info1) !! Reach(g, rank, sel, Root)
    requires ParentsWithin(g, rank, sel, k, info)
    requires c in Reach(g, rank, sel, Root) && c.Dev? && c.dev in k && c in g.uses
    ensures k1[c.dev].suspended
    decreases rank[Root] as int - rank[c] as int
  {
    hide Todo, Reach, Changed, Coherent;
    ReachIsBelow(g, rank, sel, Root, c);
    if !k[c.dev].suspended {
      if c !in g.uses[Root] {
        forall i | 0 <= i < |g.usedBy[c]| && g.usedBy[c][i] in sel
          ensures Edge(g, g.usedBy[c][i], c) && info1[g.usedBy[c][i]].suspended
        {
          var p := g.usedBy[c][i];
          assert Edge(g, p, c);
          if !info[p].suspended {
            ReachIsBelow(g, rank, sel, Root, p);
            SettledNodeSuspended(g, rank, sel, k, info, k1, info1, p);
          }
        }
      }
      assert ParentsSuspended(g, sel, info1, c);
      NotTodo(g, sel, k1, info1, c);
    }
  }

  lemma NotTodo(g: Graph, sel: set<Node>, k: Kernel, info: Cache, c: Node)
    requires WellLinked(g) && info.Keys == g.uses.Keys && c in g.uses && c !in Todo(g, sel, k, info)
    requires c in sel && c.Dev? && c.dev in k && ParentsSuspended(g, sel, info, c)
    ensures k[c.dev].suspended
  {
  }

  /** The converse: a node whose parent is never visited stays as it was. */
  lemma SuspendedOnlyWithParents(g: Graph, rank: map<Node, nat>, sel: set<Node>, k: Kernel, info: Cache, k1: Kernel,
                                 info1: Cache)
    requires WalkableTree(g, rank) && info.Keys == g.uses.Keys
    requires SuspendKept(g, sel, false, k, info, k1, info1) && Changed(k, k1) <= Reach(g, rank, sel, Root)
    requires AllSuspended(g, rank, sel, k1)
    ensures ParentsWithin(g, rank, sel, k, info)
  {
    forall p, c | Edge(g, p, c) && Wanted(g, rank, sel, k, c) && p in sel && p != Root
      ensures (p in info && info[p].suspended) || (p in Reach(g, rank, sel, Root) && p.dev in k)
    {
      ReachIsBelow(g, rank, sel, Root, c);
      assert k1[c.dev].suspended && !k[c.dev].suspended;
      assert c in Changed(k, k1);
      assert ParentsSuspended(g, sel, info1, c);
      assert !Edge(g, Root, c);
      var i :| 0 <= i < |g.usedBy[c]| && g.usedBy[c][i] == p;
      assert info1[p].suspended;
      assert info[p].suspended || p in Changed(k, k1);
    }
  }

  lemma {:induction false} ReachTransitive(g: Graph, rank: map<Node, nat>, sel: set<Node>, n: Node, p: Node)
    requires WalkableTree(g, rank) && n in g.uses && p in g.uses && p != Root && p in Reach(g, rank, sel, n)
    ensures Reach(g, rank, sel, p) <= Reach(g, rank, sel, n)
    decreases rank[n], |g.uses[n]| + 1
  {
    var m := |g.uses[n]|;
    if p in Kids(g, n) * sel {
      var i :| 0 <= i < m && g.uses[n][i] == p;
      ReachThroughGrows(g, rank, sel, n, i + 1, m);
    } else {
      ReachThroughTransitive(g, rank, sel, n, m, p);
    }
  }

  lemma {:induction false} ReachThroughTransitive(g: Graph, rank: map<Node, nat>, sel: set<Node>, n: Node, i: nat,
                                                  p: Node)
    requires WalkableTree(g, rank) && n in g.uses && p in g.uses && p != Root
    requires i <= |g.uses[n]| && p in ReachThrough(g, rank, sel, n, i)
    ensures Reach(g, rank, sel, p) <= ReachThrough(g, rank, sel, n, i)
    decreases rank[n], i
  {
    var c := g.uses[n][i-1];
    assert Edge(g, n, c) && c in g.uses;
    if p in ReachThrough(g, rank, sel, n, i - 1) {
      ReachThroughTransitive(g, rank, sel, n, i - 1, p);
    } else {
      ReachTransitive(g, rank, sel, c, p);
    }
  }

  /** Every node has a parent, as libdevmapper.h says of a tree. */
  ghost predicate EveryNodeHasParent(g: Graph) {
    forall n :: n in g.uses && n in g.usedBy && n != Root ==> g.usedBy[n] != []
  }

  /** A walk from the root that leaves nothing out visits every node. */
  lemma {:induction false} EveryNodeReached(g: Graph, rank: map<Node, nat>, sel: set<Node>, n: Node)
    requires WalkableTree(g, rank) && EveryNodeHasParent(g) && g.uses.Keys <= sel && n in g.uses && n != Root
    ensures n in Reach(g, rank, sel, Root) && rank[n] < rank[Root]
    decreases if rank[n] < Ceiling(rank) then Ceiling(rank) - rank[n] else 0
  {
    RankBelowCeiling(rank, n);
    var p := g.usedBy[n][0];
    assert Edge(g, p, n);
    if p != Root {
      RankBelowCeiling(rank, p);
      EveryNodeReached(g, rank, sel, p);
      ReachTransitive(g, rank, sel, Root, p);
      assert n in Kids(g, p);
    }
  }

  ghost function Ceiling(rank: map<Node, nat>): (c: nat)
  {
    if rank == map[] then 0
    else
      var n :| n in rank;
      var rest := Ceiling(rank - {n});
      if rest <= rank[n] then rank[n] + 1 else rest
  }

  lemma {:induction false} RankBelowCeiling(rank: map<Node, nat>, n: Node)
    requires n in rank
    ensures rank[n] < Ceiling(rank)
  {
    var m :| m in rank && Ceiling(rank) ==
             var rest := Ceiling(rank - {m}); if rest <= rank[m] then rank[m] + 1 else rest;
    if m != n { RankBelowCeiling(rank - {m}, n); }
  }

  lemma WholeTreeWithin(g: Graph, rank: map<Node, nat>, sel: set<Node>, k: Kernel, info: Cache)
    requires WalkableTree(g, rank) && EveryNodeHasParent(g) && g.uses.Keys <= sel && info.Keys == g.uses.Keys
    requires forall p, c :: Edge(g, Dev(p), Dev(c)) ==> p in k
    ensures ParentsWithin(g, rank, sel, k, info)
    ensures g.uses.Keys - {Root} <= Reach(g, rank, sel, Root)
  {
    forall n | n in g.uses && n != Root ensures n in Reach(g, rank, sel, Root) {
      EveryNodeReached(g, rank, sel, n);
    }
  }

  // ----- removal -----

  ghost predicate Shrinks(k: Kernel, k1: Kernel) {
    forall d :: d in k1 ==> d in k && k1[d] == k[d]
  }

  ghost function Gone(k: Kernel, k1: Kernel): set<Node> {
    set d | d in k && d !in k1 :: Dev(d)
  }

  /** The nodes with a parent in the tree that exists. */
  ghost predicate Fostered(g: Graph, k: Kernel, c: Node) {
    exists p :: p in k && Edge(g, Dev(p), c)
  }

  /**
  What a deactivate walk below `n` does, whatever fails: it removes only nodes it reaches,
  each of them a child of `n` or of a removed node, and, unless it retries, no device
  before all its users and none that is open elsewhere.
  */
  ghost predicate RemoveKept(g: Graph, rank: map<Node, nat>, sel: set<Node>, retry: bool, n: Node, k: Kernel,
                             k1: Kernel)
    requires WalkableTree(g, rank) && n in g.uses
  {
    && Shrinks(k, k1)
    && Gone(k, k1) <= Reach(g, rank, sel, n)
    && (forall c :: c in Gone(k, k1) ==> c in Kids(g, n) || Fostered(g, k, c))
    && (!retry ==> forall c, p :: c in Gone(k, k1) && p in Users(k, c.dev) ==> Dev(p) in Gone(k, k1))
    && (!retry ==> forall c :: c in Gone(k, k1) ==> k[c.dev].opens == 0)
  }

  ghost predicate Removable(g: Graph, sel: set<Node>, k: Kernel) {
    DepsAreLinks(g, k) && NotHeldOutside(sel, k)
  }

  ghost predicate KidsUnused(g: Graph, sel: set<Node>, k: Kernel, n: Node)
    requires n in g.uses
  {
    forall c :: c in Kids(g, n) && c in sel && c.Dev? && c.dev in k ==> Users(k, c.dev) == {}
  }

  lemma RemoveKeptSelf(g: Graph, rank: map<Node, nat>, sel: set<Node>, retry: bool, n: Node, k: Kernel)
    requires WalkableTree(g, rank) && n in g.uses
    ensures RemoveKept(g, rank, sel, retry, n, k, k)
  {
  }

  lemma {:induction false} Fewer<T>(a: set<T>, b: set<T>)
    requires a <= b
    ensures |a| <= |b|
  {
    if a != {} {
      var x :| x in a;
      Fewer(a - {x}, b - {x});
    }
  }

  lemma ShrunkStillFine(g: Graph, rank: map<Node, nat>, sel: set<Node>, retry: bool, n: Node, k: Kernel, k1: Kernel,
                        c: Node)
    requires WalkableTree(g, rank) && n in g.uses && RemoveKept(g, rank, sel, retry, n, k, k1) && c in g.uses[n]
    ensures Shrinks(k, k1) && |k1| <= |k|
    ensures Removable(g, sel, k) ==> Removable(g, sel, k1) && NotHeldOutside(sel, k1)
    ensures KidsUnused(g, sel, k, n) && c in sel && c.Dev? && c.dev in k1 ==> Users(k1, c.dev) == {}
  {
    assert c.Dev? ==> Users(k1, c.dev) <= Users(k, c.dev);
    Fewer(k1.Keys, k.Keys);
  }

  /** Removing a device orphans nothing but what it used. */
  lemma RemoveOrphans(g: Graph, sel: set<Node>, k: Kernel, d: Device)
    requires d in k && Dev(d) in g.uses && Removable(g, sel, k)
    ensures Removable(g, sel, k - {d})
    ensures Orphans(g, sel, k - {d}) <= Orphans(g, sel, k) - {Dev(d)} + Kids(g, Dev(d))
  {
    var k2 := k - {d};
    forall c | c in Orphans(g, sel, k2) && c !in Kids(g, Dev(d)) ensures c in Orphans(g, sel, k) {
      assert Users(k, c.dev) <= Users(k2, c.dev) + {d};
      assert d in Users(k, c.dev) ==> Edge(g, Dev(d), c);
    }
  }

  /** One more child of `n` was removed. */
  lemma ChildRemoved(g: Graph, rank: map<Node, nat>, sel: set<Node>, retry: bool, n: Node, i: nat, k: Kernel,
                     k1: Kernel)
    requires WalkableTree(g, rank) && n in g.uses && i < |g.uses[n]| && RemoveKept(g, rank, sel, retry, n, k, k1)
    requires g.uses[n][i] in sel && g.uses[n][i].Dev? && g.uses[n][i].dev in k1 && g.uses[n][i] in g.uses
    requires !retry ==> Users(k1, g.uses[n][i].dev) == {} && k1[g.uses[n][i].dev].opens == 0
    ensures var k2 := k1 - {g.uses[n][i].dev};
            && RemoveKept(g, rank, sel, retry, n, k, k2)
            && (Removable(g, sel, k1) ==> Removable(g, sel, k2))
            && (Removable(g, sel, k1) ==>
                 Orphans(g, sel, k2) <= Orphans(g, sel, k1) - {g.uses[n][i]} + Kids(g, g.uses[n][i]))
            && |k2| < |k1|
  {
    hide Orphans, Removable, Refs, WellLinked;
    var d := g.uses[n][i].dev;
    var k2 := k1 - {d};
    SuspendedSetRemove(k1, d);
    assert Gone(k, k2) == Gone(k, k1) + {Dev(d)};
    forall p | p in Users(k, d) && !retry ensures Dev(p) in Gone(k, k2) {
      assert p in k1 ==> p in Users(k1, d);
    }
    if Removable(g, sel, k1) {
      RemoveOrphans(g, sel, k1, d);
    }
  }

  /** The walk below a removed child of `n` is part of the walk below `n`. */
  lemma ChildWalked(g: Graph, rank: map<Node, nat>, sel: set<Node>, retry: bool, n: Node, i: nat, k: Kernel,
                    k1: Kernel, k3: Kernel)
    requires WalkableTree(g, rank) && n in g.uses && i < |g.uses[n]|
    requires g.uses[n][i] in sel && g.uses[n][i].Dev? && g.uses[n][i].dev in k1 && g.uses[n][i] in g.uses
    requires Shrinks(k, k1)
    requires RemoveKept(g, rank, sel, retry, n, k, k1 - {g.uses[n][i].dev})
    requires RemoveKept(g, rank, sel, retry, g.uses[n][i], k1 - {g.uses[n][i].dev}, k3)
    ensures RemoveKept(g, rank, sel, retry, n, k, k3)
  {
    var child := g.uses[n][i];
    var k2 := k1 - {child.dev};
    assert Gone(k, k3) == Gone(k, k2) + Gone(k2, k3);
    assert child in Kids(g, n) * sel;
    ReachTransitive(g, rank, sel, n, child);
    forall c | c in Gone(k2, k3) ensures Fostered(g, k, c) {
      if c in Kids(g, child) {
        assert child.dev in k && Edge(g, Dev(child.dev), c);
      } else {
        var p :| p in k2 && Edge(g, Dev(p), c);
        assert p in k;
      }
    }
    forall c, p | !retry && c in Gone(k, k3) && p in Users(k, c.dev) ensures Dev(p) in Gone(k, k3) {
      if c in Gone(k2, k3) && p in k2 {
        assert p in Users(k2, c.dev);
      }
    }
  }

  /** One child later, one child less among those still to remove. */
  lemma OrphanStep(g: Graph, n: Node, i: nat, o: set<Node>, o1: set<Node>, o2: set<Node>)
    requires n in g.uses && i < |g.uses[n]| && o1 <= o - KidsUpTo(g, n, i) && o2 <= o1 - {g.uses[n][i]}
    ensures o2 <= o - KidsUpTo(g, n, i + 1)
  {
  }

  lemma LeafRemoved(g: Graph, rank: map<Node, nat>, sel: set<Node>, child: Node, k: Kernel)
    requires WalkableTree(g, rank) && child in g.uses && NumChildren(g, child) == 0
    ensures Kids(g, child) !! Orphans(g, sel, k)
  {
    LeafReach(g, rank, sel, child);
  }

  // ----- what the deactivate walk answers -----

  /** An existing node of the walk that something still uses or holds open. */
  ghost predicate HeldOpen(sel: set<Node>, k: Kernel, c: Node) {
    c in sel && c.Dev? && c.dev in k && OpenCount(k, c.dev) > 0
  }

  ghost predicate SomeHeldOpen(g: Graph, sel: set<Node>, k: Kernel, n: Node)
    requires n in g.uses
  {
    exists c :: c in Kids(g, n) && HeldOpen(sel, k, c)
  }

  ghost predicate Absent(sel: set<Node>, k: Kernel, c: Node) {
    c in sel && c.Dev? ==> c.dev !in k
  }

  /** None of the first `m` children that belong to the walk exists. */
  ghost predicate AllAbsent(g: Graph, sel: set<Node>, k: Kernel, n: Node, m: nat)
    requires n in g.uses && m <= |g.uses[n]|
  {
    forall i :: 0 <= i < m ==> Absent(sel, k, g.uses[n][i])
  }

  lemma NoneAbsent(g: Graph, sel: set<Node>, k: Kernel, n: Node)
    requires n in g.uses
    ensures AllAbsent(g, sel, k, n, 0)
  {
  }

  /** Nothing but a node and what is reached below it is gone. */
  ghost predicate OnlyBelow(g: Graph, rank: map<Node, nat>, sel: set<Node>, c: Node, k: Kernel, k1: Kernel)
    requires WalkableTree(g, rank)
  {
    && c in g.uses && Shrinks(k, k1)
    && forall d :: d in k && d !in k1 ==> c != Root && (Dev(d) == c || Dev(d) in Reach(g, rank, sel, c))
  }

  lemma NothingBelow(g: Graph, rank: map<Node, nat>, sel: set<Node>, c: Node, k: Kernel)
    requires WalkableTree(g, rank) && c in g.uses
    ensures OnlyBelow(g, rank, sel, c, k, k)
  {
  }

  lemma RemovedBelow(g: Graph, rank: map<Node, nat>, sel: set<Node>, c: Node, k: Kernel)
    requires WalkableTree(g, rank) && c in g.uses && c.Dev?
    ensures OnlyBelow(g, rank, sel, c, k, k - {c.dev}) && Absent(sel, k - {c.dev}, c)
  {
  }

  lemma WalkedBelow(g: Graph, rank: map<Node, nat>, sel: set<Node>, retry: bool, c: Node, k: Kernel, k1: Kernel)
    requires WalkableTree(g, rank) && c in g.uses && c.Dev? && RemoveKept(g, rank, sel, retry, c, k - {c.dev}, k1)
    ensures OnlyBelow(g, rank, sel, c, k, k1) && Absent(sel, k1, c)
  {
    hide Reach;
    forall d | d in k && d !in k1 && Dev(d) != c ensures Dev(d) in Reach(g, rank, sel, c) {
      assert Dev(d) in Gone(k - {c.dev}, k1);
    }
  }

  /** A child of the root is not reached through any other node. */
  lemma {:induction false} TopIsNotBelow(g: Graph, rank: map<Node, nat>, sel: set<Node>, c: Node, n: Node)
    requires WalkableTree(g, rank) && n in g.uses && n != Root && Edge(g, Root, c)
    ensures c !in Reach(g, rank, sel, n)
    decreases rank[n], |g.uses[n]| + 1
  {
    assert !Edge(g, n, c);
    TopIsNotBelowThrough(g, rank, sel, c, n, |g.uses[n]|);
  }

  lemma {:induction false} TopIsNotBelowThrough(g: Graph, rank: map<Node, nat>, sel: set<Node>,
                                                c: Node, n: Node, i: nat)
    requires WalkableTree(g, rank) && n in g.uses && n != Root && Edge(g, Root, c) && i <= |g.uses[n]|
    ensures c !in ReachThrough(g, rank, sel, n, i)
    decreases rank[n], i
  {
    if i > 0 {
      var x := g.uses[n][i-1];
      assert Edge(g, n, x) && x in g.uses;
      TopIsNotBelowThrough(g, rank, sel, c, n, i - 1);
      if x != Root { TopIsNotBelow(g, rank, sel, c, x); }
    }
  }

  /** One child later: what was absent stays absent, and a child of the root that is left stays. */
  lemma AnswerStep(g: Graph, rank: map<Node, nat>, sel: set<Node>, retry: bool, n: Node, i: nat, k0: Kernel,
                   k1: Kernel, k2: Kernel)
    requires WalkableTree(g, rank) && n in g.uses && i < |g.uses[n]| && RemoveKept(g, rank, sel, retry, n, k0, k1)
    requires OnlyBelow(g, rank, sel, g.uses[n][i], k1, k2)
    ensures AllAbsent(g, sel, k1, n, i) && Absent(sel, k2, g.uses[n][i]) ==> AllAbsent(g, sel, k2, n, i + 1)
    ensures n == Root && !AllAbsent(g, sel, k1, n, i) ==> !AllAbsent(g, sel, k2, n, i + 1)
    ensures HeldOpen(sel, k1, g.uses[n][i]) ==> SomeHeldOpen(g, sel, k0, n)
    ensures HeldOpen(sel, k1, g.uses[n][i]) && k2 == k1 ==> !AllAbsent(g, sel, k2, n, i + 1)
  {
    var c := g.uses[n][i];
    if HeldOpen(sel, k1, c) {
      Fewer(Users(k1, c.dev), Users(k0, c.dev));
      assert c in Kids(g, n) && HeldOpen(sel, k0, c);
    }
    if n == Root && !AllAbsent(g, sel, k1, n, i) {
      var j :| 0 <= j < i && !Absent(sel, k1, g.uses[n][j]);
      var x := g.uses[n][j];
      assert Edge(g, Root, x) && Edge(g, Root, c) && x != c;
      if c != Root { TopIsNotBelow(g, rank, sel, x, c); }
      assert !Absent(sel, k2, x);
    }
  }

  ghost predicate NoneLeft(g: Graph, rank: map<Node, nat>, sel: set<Node>, k: Kernel)
    requires WalkableTree(g, rank)
  {
    forall c :: c in Reach(g, rank, sel, Root) && c.Dev? ==> c.dev !in k
  }

  /** The links of the devices in the tree are dependencies in the kernel. */
  ghost predicate LinksAreDeps(g: Graph, k: Kernel) {
    forall p, c :: p in k && Edge(g, Dev(p), Dev(c)) ==> c in Refs(k[p])
  }

  /**
  Every user of an existing node of the walk is itself a node of the walk, and such a
  node without users hangs directly below the root.
  */
  ghost predicate HeldWithin(g: Graph, rank: map<Node, nat>, sel: set<Node>, k: Kernel)
    requires WalkableTree(g, rank)
  {
    && (forall p, c :: c in Reach(g, rank, sel, Root) && c.Dev? && c.dev in k && p in Users(k, c.dev) ==>
         Dev(p) in Reach(g, rank, sel, Root))
    && (forall c :: c in Reach(g, rank, sel, Root) && c in Orphans(g, sel, k) ==> c in Kids(g, Root))
  }

  lemma TopUnused(g: Graph, rank: map<Node, nat>, sel: set<Node>, k: Kernel)
    requires WalkableTree(g, rank) && DepsAreLinks(g, k) && HeldWithin(g, rank, sel, k)
    ensures KidsUnused(g, sel, k, Root)
  {
    forall c, p | c in Kids(g, Root) && c in sel && c.Dev? && c.dev in k && p in Users(k, c.dev) ensures false {
      assert c in Reach(g, rank, sel, Root);
      ReachIsBelow(g, rank, sel, Root, Dev(p));
      assert Edge(g, Dev(p), c) && Edge(g, Root, c);
    }
  }

  lemma {:induction false} ReachedIsGone(g: Graph, rank: map<Node, nat>, sel: set<Node>, k: Kernel, k1: Kernel, c: Node)
    requires WalkableTree(g, rank) && Removable(g, sel, k) && HeldWithin(g, rank, sel, k) && Shrinks(k, k1)
    requires Orphans(g, sel, k1) <= Orphans(g, sel, k) - Kids(g, Root)
    requires c in Reach(g, rank, sel, Root) && c.Dev? && c in g.uses
    ensures c.dev !in k1
    decreases rank[Root] as int - rank[c] as int
  {
    ReachIsBelow(g, rank, sel, Root, c);
    if c.dev in k1 {
      assert c !in Orphans(g, sel, k1);
      var p :| p in Users(k1, c.dev);
      assert p in Users(k, c.dev);
      ReachIsBelow(g, rank, sel, Root, Dev(p));
      assert Edge(g, Dev(p), c);
      ReachedIsGone(g, rank, sel, k, k1, Dev(p));
      assert false;
    }
  }

  lemma NoneLeftOnlyIfHeldWithin(g: Graph, rank: map<Node, nat>, sel: set<Node>, k: Kernel, k1: Kernel)
    requires WalkableTree(g, rank) && LinksAreDeps(g, k) && NoneLeft(g, rank, sel, k1)
    requires RemoveKept(g, rank, sel, false, Root, k, k1)
    ensures HeldWithin(g, rank, sel, k)
  {
    forall c | c in Reach(g, rank, sel, Root) && c in Orphans(g, sel, k) ensures c in Kids(g, Root) {
      assert c in Gone(k, k1);
      assert forall p :: p in k && Edge(g, Dev(p), c) ==> p in Users(k, c.dev);
    }
    forall p, c | c in Reach(g, rank, sel, Root) && c.Dev? && c.dev in k && p in Users(k, c.dev)
      ensures Dev(p) in Reach(g, rank, sel, Root)
    {
      assert c in Gone(k, k1);
    }
  }

  // ----- activation -----

  /** Devices of the tree were resumed or removed; all others are as they were. */
  ghost predicate OnlyResumes(k: Kernel, k1: Kernel, nodes: set<Node>) {
    && (forall d :: d in k1 ==> d in k && (k1[d] == k[d] || (Dev(d) in nodes && k1[d] == Resumed(k[d]))))
    && (forall d :: d in k && Dev(d) !in nodes ==> d in k1)
  }

  /**
  What an activate walk keeps, whatever fails: it only resumes devices of the tree, or removes
  them when messages fail; the cache calls no suspended device live, and live nodes stay live.
  */
  ghost predicate ActivateKept(k: Kernel, info: Cache, k1: Kernel, info1: Cache) {
    && OnlyResumes(k, k1, info.Keys)
    && info1.Keys == info.Keys
    && CachedLiveIsTrue(k1, info1)
    && forall n :: InfoLive(info, n) ==> InfoLive(info1, n)
  }

  ghost predicate AllLive(info: Cache, s: set<Node>) {
    forall n :: n in s ==> InfoLive(info, n)
  }

  /** Nodes that activation is done with: live, and no rename pending. */
  ghost predicate Ready(info: Cache, renames: set<Node>, s: set<Node>) {
    forall n :: n in s ==> InfoLive(info, n) && n !in renames
  }

  lemma ReadyIsLive(info: Cache, renames: set<Node>, s: set<Node>)
    requires Ready(info, renames, s)
    ensures AllLive(info, s)
  {
  }

  lemma NothingReady(info: Cache, renames: set<Node>)
    ensures Ready(info, renames, {})
  {
  }

  lemma OneMoreReady(info: Cache, renames: set<Node>, s: set<Node>, n: Node)
    requires Ready(info, renames, s) && InfoLive(info, n) && n !in renames
    ensures Ready(info, renames, s + {n})
  {
  }

  lemma StayReady(k: Kernel, info: Cache, renames: set<Node>,
                  k1: Kernel, info1: Cache, renames1: set<Node>, s: set<Node>)
    requires ActivateKept(k, info, k1, info1) && renames1 <= renames
    ensures Ready(info, renames, s) ==> Ready(info1, renames1, s)
  {
  }

  lemma BothReady(info: Cache, renames: set<Node>, s: set<Node>, t: set<Node>)
    requires Ready(info, renames, s) && Ready(info, renames, t)
    ensures Ready(info, renames, s + t)
  {
  }

  lemma OnlyRootReady(info: Cache, renames: set<Node>, s: set<Node>)
    requires s <= {Root} && InfoLive(info, Root) && Root !in renames
    ensures Ready(info, renames, s)
  {
  }

  lemma StayLive(k: Kernel, info: Cache, k1: Kernel, info1: Cache, s: set<Node>)
    requires ActivateKept(k, info, k1, info1)
    ensures AllLive(info, s) ==> AllLive(info1, s)
  {
  }

  lemma ActivateKeptSelf(k: Kernel, info: Cache)
    requires CachedLiveIsTrue(k, info)
    ensures ActivateKept(k, info, k, info)
  {
  }

  lemma ActivateKeptCompose(k: Kernel, info: Cache, k1: Kernel, info1: Cache, k2: Kernel, info2: Cache)
    requires ActivateKept(k, info, k1, info1) && ActivateKept(k1, info1, k2, info2)
    ensures ActivateKept(k, info, k2, info2) && CachedLiveIsTrue(k2, info2)
  {
  }

  /** What the cache calls live is live, so a node may be resumed once all it uses is live. */
  lemma UsesAreLive(g: Graph, sel: set<Node>, retry: bool, k: Kernel, info: Cache, d: Device)
    requires Dev(d) in g.uses && CachedLiveIsTrue(k, info) && AllLive(info, Kids(g, Dev(d)) * sel)
    ensures d in k ==> SafeStep(g, sel, retry, Step(Resume, d, k))
  {
    forall c | d in k && Edge(g, Dev(d), c) && c in sel && c.Dev? && c.dev in k ensures OnNewestTable(k[c.dev]) {
      assert c in Kids(g, Dev(d)) * sel;
    }
  }

  /** Every node that activation has to resume exists. */
  ghost predicate WantedExist(k: Kernel, info: Cache) {
    forall n :: n in info && !InfoLive(info, n) && n.Dev? ==> n.dev in k
  }

  lemma WantedStillExist(k: Kernel, info: Cache, k1: Kernel, info1: Cache)
    requires ActivateKept(k, info, k1, info1) && k1.Keys == k.Keys
    ensures WantedExist(k, info) ==> WantedExist(k1, info1)
  {
  }

  predicate HasPriority(g: Graph, priority: map<Node, nat>, c: Node, p: nat) {
    c in priority && priority[c] == p
  }

  /** Those of the first `i` children of `n` that have priority `p`. */
  ghost function WithPriority(g: Graph, sel: set<Node>, priority: map<Node, nat>, n: Node, i: nat, p: nat): set<Node>
    requires n in g.uses && i <= |g.uses[n]|
  {
    if i == 0 then {}
    else
      var c := g.uses[n][i-1];
      WithPriority(g, sel, priority, n, i - 1, p) + if c in sel && HasPriority(g, priority, c, p) then {c} else {}
  }

  /** The log grew by resumes of children of `n` with priority `p`. */
  ghost predicate ResumedAt(g: Graph, priority: map<Node, nat>, n: Node, p: nat, before: seq<Step>, after: seq<Step>)
    requires n in g.uses
  {
    && before <= after
    && forall i :: |before| <= i < |after| ==>
         after[i].op == Resume && Dev(after[i].dev) in g.uses[n] && HasPriority(g, priority, Dev(after[i].dev), p)
  }

  lemma NoneResumed(g: Graph, priority: map<Node, nat>, n: Node, p: nat, s: seq<Step>)
    requires n in g.uses
    ensures ResumedAt(g, priority, n, p, s, s)
  {
  }

  lemma ResumedOneMore(g: Graph, priority: map<Node, nat>, n: Node, p: nat, before: seq<Step>, s: seq<Step>,
                       t: seq<Step>, i: nat, k: Kernel)
    requires n in g.uses && ResumedAt(g, priority, n, p, before, s) && i < |g.uses[n]|
    requires HasPriority(g, priority, g.uses[n][i], p)
    requires t == s || (g.uses[n][i].Dev? && t == s + [Step(Resume, g.uses[n][i].dev, k)])
    ensures ResumedAt(g, priority, n, p, before, t)
  {
  }

  lemma NoPriority(g: Graph, sel: set<Node>, priority: map<Node, nat>, n: Node, p: nat)
    requires n in g.uses
    ensures WithPriority(g, sel, priority, n, 0, p) == {}
  {
  }

  lemma PriorityStep(g: Graph, sel: set<Node>, priority: map<Node, nat>, n: Node, i: nat, p: nat)
    requires n in g.uses && i < |g.uses[n]|
    ensures WithPriority(g, sel, priority, n, i + 1, p) ==
      var before := WithPriority(g, sel, priority, n, i, p);
      if g.uses[n][i] in sel && HasPriority(g, priority, g.uses[n][i], p) then before + {g.uses[n][i]} else before
  {
  }

  /** The log grew by resumes of children of `n`, in nondecreasing priority, all below `limit`. */
  ghost predicate ResumedInOrder(g: Graph, priority: map<Node, nat>, n: Node, limit: nat, before: seq<Step>,
                                 after: seq<Step>)
    requires n in g.uses
  {
    && before <= after
    && (forall i :: |before| <= i < |after| ==>
         && after[i].op == Resume && Dev(after[i].dev) in g.uses[n]
         && Dev(after[i].dev) in priority && priority[Dev(after[i].dev)] < limit)
    && (forall i, j :: |before| <= i < j < |after| ==> priority[Dev(after[i].dev)] <= priority[Dev(after[j].dev)])
  }

  lemma NextPriority(g: Graph, priority: map<Node, nat>, n: Node, p: nat, s0: seq<Step>, s1: seq<Step>, s2: seq<Step>)
    requires n in g.uses && ResumedInOrder(g, priority, n, p, s0, s1) && ResumedAt(g, priority, n, p, s1, s2)
    ensures ResumedInOrder(g, priority, n, p + 1, s0, s2)
  {
    assert forall i :: 0 <= i < |s1| ==> s2[i] == s1[i];
  }

  lemma {:induction false} WithPriorityIsPrefix(g: Graph, sel: set<Node>, priority: map<Node, nat>, n: Node, i: nat,
                                                p: nat)
    requires n in g.uses && i <= |g.uses[n]|
    ensures WithPriority(g, sel, priority, n, i, p) ==
            set c | c in KidsUpTo(g, n, i) && c in sel && HasPriority(g, priority, c, p)
  {
    if i > 0 { WithPriorityIsPrefix(g, sel, priority, n, i - 1, p); }
  }

  lemma AllPriorities(g: Graph, sel: set<Node>, priority: map<Node, nat>, info: Cache, renames: set<Node>, n: Node)
    requires WellLinked(g) && n in g.uses && Prioritised(g, priority)
    requires forall p :: 0 <= p < 3 ==> Ready(info, renames, WithPriority(g, sel, priority, n, |g.uses[n]|, p))
    ensures Ready(info, renames, Kids(g, n) * sel)
  {
    AllKids(g, n);
    forall c | c in Kids(g, n) * sel ensures InfoLive(info, c) && c !in renames {
      assert Edge(g, n, c) && c in g.uses;
      var p := priority[c];
      WithPriorityIsPrefix(g, sel, priority, n, |g.uses[n]|, p);
      assert c in WithPriority(g, sel, priority, n, |g.uses[n]|, p);
    }
  }

  lemma KeptIsLive(k: Kernel, info: Cache, k1: Kernel, info1: Cache)
    requires ActivateKept(k, info, k1, info1)
    ensures CachedLiveIsTrue(k1, info1)
  {
  }

  lemma CoherentParts(k: Kernel, info: Cache)
    requires Coherent(k, info)
    ensures CachedSuspendedIsTrue(k, info) && CachedLiveIsTrue(k, info)
  {
  }

  lemma SuspendKeepsCoherent(g: Graph, sel: set<Node>, f: bool, k: Kernel, info: Cache, k1: Kernel, info1: Cache)
    requires WellLinked(g) && info.Keys == g.uses.Keys && SuspendKept(g, sel, f, k, info, k1, info1)
    ensures !f && Coherent(k, info) ==> Coherent(k1, info1)
  {
  }

  /** Only devices of the tree are gone. */
  ghost predicate ShrinksWithin(k: Kernel, k1: Kernel, nodes: set<Node>) {
    Shrinks(k, k1) && Gone(k, k1) <= nodes
  }

  lemma RemovesWithin(g: Graph, rank: map<Node, nat>, sel: set<Node>, retry: bool, n: Node, k: Kernel, k1: Kernel)
    requires WalkableTree(g, rank) && n in g.uses && RemoveKept(g, rank, sel, retry, n, k, k1)
    ensures ShrinksWithin(k, k1, g.uses.Keys)
  {
    forall c | c in Gone(k, k1) ensures c in g.uses {
      ReachIsBelow(g, rank, sel, n, c);
    }
  }

  lemma ShrinkKeepsCache(k: Kernel, info: Cache, k1: Kernel)
    requires ShrinksWithin(k, k1, info.Keys)
    ensures CachedLiveIsTrue(k, info) ==> ActivateKept(k, info, k1, info)
    ensures Coherent(k, info) ==> Coherent(k1, info)
  {
    forall d | d in k && Dev(d) !in info ensures d in k1 {
      assert Dev(d) !in Gone(k, k1);
    }
  }

  lemma NothingResumed(g: Graph, priority: map<Node, nat>, n: Node, s: seq<Step>)
    requires n in g.uses
    ensures ResumedInOrder(g, priority, n, 0, s, s)
  {
  }

  lemma WiderLimit(g: Graph, priority: map<Node, nat>, n: Node, p: nat, s0: seq<Step>, s1: seq<Step>)
    requires n in g.uses && p <= 3 && ResumedInOrder(g, priority, n, p, s0, s1)
    ensures ResumedInOrder(g, priority, n, 3, s0, s1)
  {
  }

  lemma ChildUsesReached(g: Graph, rank: map<Node, nat>, sel: set<Node>, info: Cache, n: Node, i: nat)
    requires WalkableTree(g, rank) && n in g.uses && i < |g.uses[n]| && g.uses[n][i] in sel && g.uses[n][i] in g.uses
    requires g.uses[n][i] != Root
    requires AllLive(info, ReachThrough(g, rank, sel, n, |g.uses[n]|))
    ensures AllLive(info, Kids(g, g.uses[n][i]) * sel)
  {
    hide WalkableTree;
    ReachThroughGrows(g, rank, sel, n, i + 1, |g.uses[n]|);
    assert Kids(g, g.uses[n][i]) * sel <= Reach(g, rank, sel, g.uses[n][i]);
    assert Reach(g, rank, sel, g.uses[n][i]) <= ReachThrough(g, rank, sel, n, i + 1);
  }

  lemma UsesStayLive(g: Graph, rank: map<Node, nat>, sel: set<Node>, k: Kernel, info: Cache, k1: Kernel, info1: Cache,
                     n: Node, i: nat)
    requires WalkableTree(g, rank) && n in g.uses && i < |g.uses[n]| && g.uses[n][i] in sel && g.uses[n][i] in g.uses
    requires ActivateKept(k, info, k1, info1) && AllLive(info, ReachThrough(g, rank, sel, n, |g.uses[n]|))
    ensures g.uses[n][i] != Root ==> AllLive(info1, Kids(g, g.uses[n][i]) * sel)
  {
    hide WalkableTree, ActivateKept, AllLive, Kids;
    StayLive(k, info, k1, info1, ReachThrough(g, rank, sel, n, |g.uses[n]|));
    if g.uses[n][i] != Root { ChildUsesReached(g, rank, sel, info1, n, i); }
  }

  lemma ResumeKeepsCache(k: Kernel, info: Cache, d: Device)
    requires Dev(d) in info && CachedLiveIsTrue(k, info)
    ensures ActivateKept(k, info, k, info)
    ensures d in k && Coherent(k, info) ==> info[Dev(d)].suspended == k[d].suspended
    ensures d in k ==>
              var k1 := After(Step(Resume, d, k));
              var info1 := info[Dev(d) := InfoOf(k1, d)];
              && ActivateKept(k, info, k1, info)
              && ActivateKept(k, info, k1, info1)
              && InfoLive(info1, Dev(d))
              && (Coherent(k, info) ==> Coherent(k1, info1))
  {
  }

  /** The messages of every pool among some nodes were sent, as far as the walk goes below it. */
  ghost predicate Told(g: Graph, messageNodes: set<Node>, messaged: set<Node>, s: set<Node>)
    requires WellLinked(g)
  {
    forall m :: m in s && m in messageNodes && m in g.uses && m != Root && NumChildren(g, m) != 0 ==> m in messaged
  }

  /** So far: the first `i` children and what is reached through them. */
  ghost predicate ToldUpTo(g: Graph, rank: map<Node, nat>, sel: set<Node>, messageNodes: set<Node>,
                           messaged: set<Node>, n: Node, i: nat)
    requires WalkableTree(g, rank) && n in g.uses && i <= |g.uses[n]|
  {
    Told(g, messageNodes, messaged, ReachThrough(g, rank, sel, n, i) + KidsUpTo(g, n, i) * sel)
  }

  lemma ToldNone(g: Graph, rank: map<Node, nat>, sel: set<Node>, messageNodes: set<Node>, messaged: set<Node>, n: Node)
    requires WalkableTree(g, rank) && n in g.uses
    ensures ToldUpTo(g, rank, sel, messageNodes, messaged, n, 0)
  {
  }

  lemma ToldStep(g: Graph, rank: map<Node, nat>, sel: set<Node>, messageNodes: set<Node>, messaged: set<Node>,
                 now: set<Node>, n: Node, i: nat)
    requires WalkableTree(g, rank) && n in g.uses && i < |g.uses[n]| && g.uses[n][i] in g.uses && messaged <= now
    requires ToldUpTo(g, rank, sel, messageNodes, messaged, n, i)
    requires var c := g.uses[n][i];
      c in sel && c != Root && NumChildren(g, c) != 0 ==>
        (c in messageNodes ==> c in now) && Told(g, messageNodes, now, Reach(g, rank, sel, c))
    ensures ToldUpTo(g, rank, sel, messageNodes, now, n, i + 1)
  {
    hide Reach;
    var c := g.uses[n][i];
    ReachThroughStep(g, rank, sel, n, i);
    if c in sel && c != Root && NumChildren(g, c) == 0 { LeafReach(g, rank, sel, c); }
  }

  lemma ToldAll(g: Graph, rank: map<Node, nat>, sel: set<Node>, messageNodes: set<Node>, messaged: set<Node>,
                now: set<Node>, n: Node)
    requires WalkableTree(g, rank) && n in g.uses && messaged <= now
    requires ToldUpTo(g, rank, sel, messageNodes, messaged, n, |g.uses[n]|)
    ensures Told(g, messageNodes, now, Reach(g, rank, sel, n))
  {
    AllKids(g, n);
  }

  datatype Walk = SuspendWalk(n: Node) | ActivateWalk(n: Node) | DeactivateWalk(n: Node)

  class Walker {
    const g: Graph
    ghost const rank: map<Node, nat>
    const selected: set<Node>       // nodes whose uuid has the prefix the walk was asked for
    const priority: map<Node, nat>  // activation_priority
    const messageNodes: set<Node>   // thin pools with send_messages set
    const retryRemove: bool
    const tasksMayFail: bool
    const infoMayFail: bool         // dm_task_get_info after a successful task
    ghost const start: Kernel

    var kernel: Kernel
    var info: Cache
    var renames: set<Node>          // nodes with props.new_name set
    var suspendedCounter: nat
    ghost var steps: seq<Step>
    ghost var belowZero: bool       // dec_suspended met a zero counter
    ghost var refused: nat          // tasks that the kernel did not carry out
    ghost var messaged: set<Node>   // pools whose messages were sent, or failed to be

    constructor (g: Graph, ghost rank: map<Node, nat>, selected: set<Node>, priority: map<Node, nat>,
                 messageNodes: set<Node>, retryRemove: bool, tasksMayFail: bool, infoMayFail: bool,
                 kernel: Kernel, info: Cache, renames: set<Node>, counter: nat)
      requires WalkableTree(g, rank) && info.Keys == g.uses.Keys && InfoLive(info, Root) && Root !in renames
      requires Prioritised(g, priority)
      ensures Valid() && steps == [] && !belowZero && start == kernel && refused == 0 && messaged == {}
      ensures this.g == g && this.rank == rank && this.selected == selected && this.priority == priority
      ensures this.messageNodes == messageNodes && this.retryRemove == retryRemove
      ensures this.tasksMayFail == tasksMayFail && this.infoMayFail == infoMayFail
      ensures this.kernel == kernel && this.info == info && this.renames == renames && suspendedCounter == counter
    {
      this.g, this.rank, this.selected, this.priority := g, rank, selected, priority;
      this.messageNodes, this.retryRemove := messageNodes, retryRemove;
      this.tasksMayFail, this.infoMayFail := tasksMayFail, infoMayFail;
      this.kernel, this.info, this.renames, this.suspendedCounter := kernel, info, renames, counter;
      start, steps, belowZero, refused, messaged := kernel, [], false, 0, {};
    }

    ghost predicate Valid()
      reads this
    {
      && WalkableTree(g, rank)
      && info.Keys == g.uses.Keys
      && WellLinked(g)
      && InfoLive(info, Root) && Root !in renames
      && Prioritised(g, priority)
      && SafeLog(g, selected, retryRemove, start, steps, kernel)
    }

    ghost predicate Counted()
      reads `kernel, `suspendedCounter
    {
      suspendedCounter == |SuspendedSet(kernel)|
    }

    ghost predicate Faultless() {
      !tasksMayFail && !infoMayFail
    }

    /** A task that changes something; the kernel refuses what is not `possible`. */
    method RunTask(possible: bool) returns (ok: bool)
      modifies `refused
      ensures ok ==> possible
      ensures possible && !tasksMayFail ==> ok
      ensures refused == old(refused) + if ok then 0 else 1
    {
      ok := possible;
      if possible && tasksMayFail {
        ok := *;
      }
      refused := refused + if ok then 0 else 1;
    }

    /** A query whose failure is passed over. */
    method Query() returns (ok: bool)
      ensures !tasksMayFail ==> ok
    {
      ok := true;
      if tasksMayFail {
        ok := *;
      }
    }

    method ReadInfo(d: Device) returns (ok: bool, i: Info)
      requires d in kernel
      modifies `refused
      ensures !infoMayFail ==> ok
      ensures i == InfoOf(kernel, d)
      ensures refused == old(refused) + if ok then 0 else 1
    {
      ok := true;
      i := InfoOf(kernel, d);
      if infoMayFail {
        ok := *;
      }
      refused := refused + if ok then 0 else 1;
    }

    method DecSuspended()
      modifies `suspendedCounter, `belowZero
      ensures old(suspendedCounter) > 0 ==> suspendedCounter == old(suspendedCounter) - 1 && belowZero == old(belowZero)
      ensures old(suspendedCounter) == 0 ==> suspendedCounter == 0 && belowZero
    {
      if suspendedCounter == 0 {
        belowZero := true;
        return;
      }
      suspendedCounter := suspendedCounter - 1;
    }

    /** `_suspend_node`: run the ioctl, count the device, read its new state. */
    method SuspendNode(d: Device) returns (ok: bool)
      requires Valid() && d in kernel && Dev(d) in g.uses && !kernel[d].suspended
      requires SafeStep(g, selected, retryRemove, Step(Suspend, d, kernel))
      modifies `refused, `kernel, `info, `suspendedCounter, `steps
      ensures Valid()
      ensures old(Counted()) ==> Counted()
      ensures var s := Step(Suspend, d, old(kernel));
              || (kernel == old(kernel) && info == old(info) && !ok)
              || (kernel == After(s) && info == old(info) && !ok && infoMayFail)
              || (kernel == After(s) && InfoRefreshed(old(info), s, info) && ok)
      ensures Faultless() ==> ok
      ensures refused >= old(refused) && (ok <==> refused == old(refused))
    {
      hide WellLinked, WalkableTree, Prioritised, SafeLog, SafeStep, SuspendedSet;
      var ran := RunTask(true);
      if !ran {
        return false;
      }
      ghost var s := Step(Suspend, d, kernel);
      SuspendedSetUpdate(kernel, d, kernel[d].(suspended := true));
      SafeLogExtends(g, selected, retryRemove, start, steps, kernel, s);
      kernel := kernel[d := kernel[d].(suspended := true)];
      steps := steps + [s];
      suspendedCounter := suspendedCounter + 1;
      var read, newInfo := ReadInfo(d);
      if !read {
        return false;
      }
      info := info[Dev(d) := newInfo];
      return true;
    }

    /** The body of the first loop of `dm_tree_suspend_children`. */
    method SuspendChild(child: Node) returns (ok: bool)
      requires Valid() && child in g.uses && CachedSuspendedIsTrue(kernel, info)
      modifies `refused, `kernel, `info, `suspendedCounter, `steps
      ensures Valid() && CachedSuspendedIsTrue(kernel, info) && (old(Counted()) ==> Counted())
      ensures SuspendKept(g, selected, infoMayFail, old(kernel), old(info), kernel, info)
      ensures Changed(old(kernel), kernel) <= {child} * selected
      ensures Faultless() ==> ok
      ensures refused >= old(refused) && (ok <==> refused == old(refused))
      ensures Faultless() ==>
                Todo(g, selected, kernel, info) <=
                Todo(g, selected, old(kernel), old(info)) - {child}
                + (if child in selected && child != Root then Kids(g, child) else {})
    {
      hide WellLinked, WalkableTree, Prioritised, SafeLog, SafeStep, SuspendKept, Changed, Counted,
        CachedSuspendedIsTrue, ParentsSuspended;
      SuspendKeptSelf(g, selected, infoMayFail, kernel, info);
      if child !in selected {
        return true;
      }
      if !ParentsSuspended(g, selected, info, child) {
        return true;
      }
      var queried := Query();
      if !queried || child == Root || child.dev !in kernel || kernel[child.dev].suspended {
        return true;
      }
      ParentsReallySuspended(child.dev);
      ghost var k, i := kernel, info;
      ok := SuspendNode(child.dev);
      if kernel != k {
        SuspendKeepsCache(g, selected, k, i, info, child.dev);
        if info != i {
          SuspendUnsettles(g, selected, k, i, child.dev, info[child]);
        }
      }
    }

    lemma ParentsReallySuspended(d: Device)
      requires Valid() && Dev(d) in g.uses && d in kernel && !kernel[d].suspended
      requires CachedSuspendedIsTrue(kernel, info) && ParentsSuspended(g, selected, info, Dev(d))
      ensures SafeStep(g, selected, retryRemove, Step(Suspend, d, kernel))
    {
      forall p | Edge(g, p, Dev(d)) && p in selected && p.Dev? && p.dev in kernel ensures kernel[p.dev].suspended {
        assert p in g.usedBy[Dev(d)];
        var i :| 0 <= i < |g.usedBy[Dev(d)]| && g.usedBy[Dev(d)][i] == p;
        if Dev(d) in g.uses[Root] {
          assert Edge(g, Root, Dev(d));
        } else {
          assert info[p].suspended;
        }
      }
    }

    /** The first loop of `dm_tree_suspend_children`: the nodes at this level. */
    method SuspendLevel(n: Node) returns (r: bool)
      requires Valid() && n in g.uses && CachedSuspendedIsTrue(kernel, info)
      modifies `refused, `kernel, `info, `suspendedCounter, `steps
      ensures Valid() && CachedSuspendedIsTrue(kernel, info) && (old(Counted()) ==> Counted())
      ensures SuspendKept(g, selected, infoMayFail, old(kernel), old(info), kernel, info)
      ensures Changed(old(kernel), kernel) <= Kids(g, n) * selected
      ensures Faultless() ==> r
      ensures refused >= old(refused) && (r <==> refused == old(refused))
      ensures Faultless() ==>
                Todo(g, selected, kernel, info) <=
                Todo(g, selected, old(kernel), old(info)) - Kids(g, n) + Grandkids(g, selected, n, |g.uses[n]|)
    {
      hide WellLinked, WalkableTree, Prioritised, SafeLog, SuspendKept, Todo, Changed, Counted, CachedSuspendedIsTrue;
      r := true;
      var children := g.uses[n];
      ghost var todo := Todo(g, selected, kernel, info);
      SuspendKeptSelf(g, selected, infoMayFail, kernel, info);
      for i := 0 to |children|
        invariant Valid() && CachedSuspendedIsTrue(kernel, info) && (old(Counted()) ==> Counted())
        invariant SuspendKept(g, selected, infoMayFail, old(kernel), old(info), kernel, info)
        invariant Changed(old(kernel), kernel) <= KidsUpTo(g, n, i) * selected
        invariant Faultless() ==> r
        invariant refused >= old(refused) && (r <==> refused == old(refused))
        invariant Faultless() ==>
                  Todo(g, selected, kernel, info) <= todo - KidsUpTo(g, n, i) + Grandkids(g, selected, n, i)
      {
        var child := children[i];
        ChildInTree(g, n, i);
        ghost var k, inf := kernel, info;
        var ok := SuspendChild(child);
        if !ok {
          r := false;
        }
        SuspendKeptCompose(g, selected, infoMayFail, old(kernel), old(info), k, inf, kernel, info);
      }
      AllKids(g, n);
    }

    /** The second loop of `dm_tree_suspend_children`: what is below one child. */
    method SuspendBelow(n: Node, i: nat) returns (ok: bool)
      requires Valid() && n in g.uses && i < |g.uses[n]| && CachedSuspendedIsTrue(kernel, info)
      modifies `refused, `kernel, `info, `suspendedCounter, `steps
      ensures Valid() && CachedSuspendedIsTrue(kernel, info) && (old(Counted()) ==> Counted())
      ensures SuspendKept(g, selected, infoMayFail, old(kernel), old(info), kernel, info)
      ensures Root !in g.uses[n] ==> Changed(old(kernel), kernel) <= ReachThrough(g, rank, selected, n, i + 1)
      ensures Faultless() ==> ok
      ensures refused >= old(refused) && (ok <==> refused == old(refused))
      ensures Faultless() ==>
                Todo(g, selected, kernel, info) <=
                Todo(g, selected, old(kernel), old(info)) -
                (ReachThrough(g, rank, selected, n, i + 1) - ReachThrough(g, rank, selected, n, i))
      decreases Root in g.uses[n], rank[n], 0
    {
      hide WellLinked, WalkableTree, Prioritised, SafeLog, SuspendKept, Todo, Changed, Counted,
        CachedSuspendedIsTrue, ReachThrough;
      var child := g.uses[n][i];
      ChildInTree(g, n, i);
      ReachThroughStep(g, rank, selected, n, i);
      SuspendKeptSelf(g, selected, infoMayFail, kernel, info);
      NothingChanged(kernel);
      ok := true;
      if child in selected && NumChildren(g, child) != 0 {
        ChildRank(g, rank, n, i);
        ok := SuspendChildren(child);
      } else if child in selected && child != Root {
        LeafReach(g, rank, selected, child);
        TodoIsDevices(g, selected, kernel, info);
      }
    }

    /** `dm_tree_suspend_children` */
    method SuspendChildren(n: Node) returns (r: bool)
      requires Valid() && n in g.uses && CachedSuspendedIsTrue(kernel, info)
      modifies `refused, `kernel, `info, `suspendedCounter, `steps
      ensures Valid() && CachedSuspendedIsTrue(kernel, info) && (old(Counted()) ==> Counted())
      ensures SuspendKept(g, selected, infoMayFail, old(kernel), old(info), kernel, info)
      ensures Root !in g.uses[n] ==> Changed(old(kernel), kernel) <= Reach(g, rank, selected, n)
      ensures Faultless() ==> r
      ensures refused >= old(refused) && (r <==> refused == old(refused))
      ensures Faultless() ==>
                Todo(g, selected, kernel, info) <=
                Todo(g, selected, old(kernel), old(info)) - Reach(g, rank, selected, n)
      decreases Root in g.uses[n], rank[n], 1
    {
      hide WellLinked, WalkableTree, Prioritised, SafeLog, SuspendKept, Todo, Changed, Counted,
        CachedSuspendedIsTrue, ReachThrough;
      r := SuspendLevel(n);
      var children := g.uses[n];
      ghost var todo := Todo(g, selected, kernel, info);
      ReachThroughNone(g, rank, selected, n);
      for i := 0 to |children|
        invariant Valid() && CachedSuspendedIsTrue(kernel, info) && (old(Counted()) ==> Counted())
        invariant SuspendKept(g, selected, infoMayFail, old(kernel), old(info), kernel, info)
        invariant Root !in g.uses[n] ==>
                    Changed(old(kernel), kernel) <= Kids(g, n) * selected + ReachThrough(g, rank, selected, n, i)
        invariant Faultless() ==> r
        invariant refused >= old(refused) && (r <==> refused == old(refused))
        invariant Faultless() ==> Todo(g, selected, kernel, info) <= todo - ReachThrough(g, rank, selected, n, i)
      {
        ghost var k, inf := kernel, info;
        var ok := SuspendBelow(n, i);
        SuspendKeptCompose(g, selected, infoMayFail, old(kernel), old(info), k, inf, kernel, info);
        ReachThroughGrows(g, rank, selected, n, i, i + 1);
        if !ok {
          ReachThroughGrows(g, rank, selected, n, i + 1, |children|);
          return false;
        }
      }
      GrandkidsReached(g, rank, selected, n, |children|);
      TodoIsDevices(g, selected, kernel, info);
    }

    /** `dm_tree_suspend_children` on the root. */
    method SuspendTree() returns (r: bool)
      requires Valid() && Coherent(kernel, info)
      modifies `refused, `kernel, `info, `suspendedCounter, `steps
      ensures Valid() && (old(Counted()) ==> Counted())
      ensures !infoMayFail ==> Coherent(kernel, info)
      ensures SuspendKept(g, selected, infoMayFail, old(kernel), old(info), kernel, info)
      ensures Faultless() ==> r
      ensures r <==> refused == old(refused)
      ensures Faultless() ==>
              (AllSuspended(g, rank, selected, kernel) <==> ParentsWithin(g, rank, selected, old(kernel), old(info)))
    {
      r := SuspendChildren(Root);
      if Faultless() {
        hide WalkableTree, WellLinked, SuspendKept, AllSuspended, ParentsWithin, Reach, Todo, Changed, CachedLiveIsTrue;
        if ParentsWithin(g, rank, selected, old(kernel), old(info)) {
          SettledMeansSuspended(g, rank, selected, old(kernel), old(info), kernel, info);
        }
        if AllSuspended(g, rank, selected, kernel) {
          SuspendedOnlyWithParents(g, rank, selected, old(kernel), old(info), kernel, info);
        }
      }
    }

    // ----- deactivate -----

    /** `_deactivate_node`, and the counter of suspended devices. */
    method RemoveNode(d: Device) returns (ok: bool)
      requires Valid() && d in kernel && SafeStep(g, selected, retryRemove, Step(Remove, d, kernel))
      modifies `refused, `kernel, `steps, `suspendedCounter, `belowZero
      ensures Valid()
      ensures old(Counted()) ==> Counted() && belowZero == old(belowZero)
      ensures kernel == if ok then old(kernel) - {d} else old(kernel)
      ensures !tasksMayFail ==> ok
      ensures refused >= old(refused) && (ok <==> refused == old(refused))
    {
      hide WellLinked, WalkableTree, Prioritised, SafeLog, SafeStep, SuspendedSet;
      ok := RunTask(true);
      if !ok {
        return;
      }
      var wasSuspended := kernel[d].suspended;
      ghost var s := Step(Remove, d, kernel);
      SuspendedSetRemove(kernel, d);
      SafeLogExtends(g, selected, retryRemove, start, steps, kernel, s);
      kernel := kernel - {d};
      steps := steps + [s];
      if wasSuspended {
        DecSuspended();
      }
    }

    /** The body of the loop of `_dm_tree_deactivate_children`, up to the removal. */
    method DeactivateChild(child: Node, level: nat) returns (ok: bool, removed: bool)
      requires Valid() && child in g.uses
      modifies `refused, `kernel, `steps, `suspendedCounter, `belowZero
      ensures Valid()
      ensures old(Counted()) ==> Counted() && belowZero == old(belowZero)
      ensures removed ==>
              ok && child in selected && child.Dev? && child.dev in old(kernel) && kernel == old(kernel) - {child.dev}
      ensures removed && !retryRemove ==> Users(old(kernel), child.dev) == {} && old(kernel)[child.dev].opens == 0
      ensures !removed ==> kernel == old(kernel)
      ensures !tasksMayFail && NotHeldOutside(selected, old(kernel)) && !removed ==>
              child !in Orphans(g, selected, kernel)
      ensures !tasksMayFail && NotHeldOutside(selected, old(kernel)) ==>
                ok || (level == 0 && child in selected && child.Dev? && child.dev in kernel
                       && Users(kernel, child.dev) != {})
      ensures refused >= old(refused) && (ok ==> refused == old(refused)) && (!tasksMayFail ==> refused == old(refused))
      ensures !ok ==> refused > old(refused) || (level == 0 && HeldOpen(selected, old(kernel), child))
      ensures ok && !tasksMayFail && level == 0 ==> Absent(selected, kernel, child)
    {
      hide WellLinked, WalkableTree, Prioritised, SafeLog, Counted;
      if child !in selected {
        return true, false;
      }
      var queried := Query();
      if !queried || child == Root || child.dev !in kernel {
        return true, false;
      }
      if OpenCount(kernel, child.dev) > 0 {
        if level > 0 {
          return true, false;
        }
        if !retryRemove {
          return false, false;
        }
        var inUse: bool := *;
        if inUse {
          return false, false;
        }
      }
      ok := RemoveNode(child.dev);
      removed := ok;
    }

    /** One round of `_dm_tree_deactivate_children`: a child and, once it is removed, what it used. */
    method DeactivateRound(n: Node, i: nat, level: nat, ghost k0: Kernel) returns (go: bool, ok: bool)
      requires Valid() && n in g.uses && i < |g.uses[n]| && RemoveKept(g, rank, selected, retryRemove, n, k0, kernel)
      modifies `refused, `kernel, `steps, `suspendedCounter, `belowZero
      ensures Valid()
      ensures old(Counted()) ==> Counted() && belowZero == old(belowZero)
      ensures RemoveKept(g, rank, selected, retryRemove, n, k0, kernel)
      ensures !tasksMayFail && Removable(g, selected, k0) ==>
                Orphans(g, selected, kernel) <= Orphans(g, selected, old(kernel)) - {g.uses[n][i]}
      ensures !tasksMayFail && Removable(g, selected, k0) ==> go
      ensures !tasksMayFail && Removable(g, selected, k0) && (level > 0 || KidsUnused(g, selected, k0, n)) ==> ok
      ensures refused >= old(refused) && (go && ok ==> refused == old(refused)) && (!go ==> refused > old(refused))
      ensures !tasksMayFail ==> refused == old(refused)
      ensures !ok ==> refused > old(refused) || (level == 0 && HeldOpen(selected, old(kernel), g.uses[n][i]))
      ensures !ok ==> kernel == old(kernel)
      ensures ok && !tasksMayFail && level == 0 ==> Absent(selected, kernel, g.uses[n][i])
      ensures OnlyBelow(g, rank, selected, g.uses[n][i], old(kernel), kernel)
      decreases |kernel|, 0
    {
      hide WellLinked, WalkableTree, Prioritised, SafeLog, Counted, RemoveKept, Orphans, Removable, KidsUnused,
        Shrinks, NotHeldOutside, Users, HeldOpen, Absent, OnlyBelow;
      var child := g.uses[n][i];
      ChildInTree(g, n, i);
      ghost var k1 := kernel;
      ShrunkStillFine(g, rank, selected, retryRemove, n, k0, k1, child);
      var removed;
      ok, removed := DeactivateChild(child, level);
      go := true;
      NothingBelow(g, rank, selected, child, k1);
      if removed {
        ghost var k2 := kernel;
        ChildRemoved(g, rank, selected, retryRemove, n, i, k0, k1);
        if NumChildren(g, child) != 0 {
          go := DeactivateChildren(child, level + 1);
          ChildWalked(g, rank, selected, retryRemove, n, i, k0, k1, kernel);
          WalkedBelow(g, rank, selected, retryRemove, child, k1, kernel);
        } else {
          LeafRemoved(g, rank, selected, child, k2);
          RemovedBelow(g, rank, selected, child, k1);
        }
      }
    }

    /** `_dm_tree_deactivate_children` */
    method DeactivateChildren(n: Node, level: nat) returns (r: bool)
      requires Valid() && n in g.uses
      modifies `refused, `kernel, `steps, `suspendedCounter, `belowZero
      ensures Valid()
      ensures old(Counted()) ==> Counted() && belowZero == old(belowZero)
      ensures RemoveKept(g, rank, selected, retryRemove, n, old(kernel), kernel)
      ensures !tasksMayFail && Removable(g, selected, old(kernel)) ==>
                Orphans(g, selected, kernel) <= Orphans(g, selected, old(kernel)) - Kids(g, n)
      ensures !tasksMayFail && Removable(g, selected, old(kernel)) ==>
              (level > 0 || KidsUnused(g, selected, old(kernel), n)) ==> r
      ensures refused >= old(refused) && (r ==> refused == old(refused)) && (!tasksMayFail ==> refused == old(refused))
      ensures !r ==> refused > old(refused) || (level == 0 && SomeHeldOpen(g, selected, old(kernel), n))
      ensures r && !tasksMayFail && level == 0 ==> AllAbsent(g, selected, kernel, n, |g.uses[n]|)
      ensures !r && refused == old(refused) && n == Root ==> !AllAbsent(g, selected, kernel, n, |g.uses[n]|)
      decreases |kernel|, 1
    {
      hide WellLinked, WalkableTree, Prioritised, SafeLog, Counted, RemoveKept, Orphans, Removable, KidsUnused,
        KidsUpTo, Kids, HeldOpen, Absent, OnlyBelow, AllAbsent, SomeHeldOpen;
      r := true;
      var children := g.uses[n];
      ghost var k0 := kernel;
      NoKids(g, n);
      NoneAbsent(g, selected, kernel, n);
      RemoveKeptSelf(g, rank, selected, retryRemove, n, kernel);
      for i := 0 to |children|
        invariant Valid() && |kernel| <= |k0|
        invariant old(Counted()) ==> Counted() && belowZero == old(belowZero)
        invariant RemoveKept(g, rank, selected, retryRemove, n, k0, kernel)
        invariant !tasksMayFail && Removable(g, selected, k0) ==>
                    Orphans(g, selected, kernel) <= Orphans(g, selected, k0) - KidsUpTo(g, n, i)
        invariant !tasksMayFail && Removable(g, selected, k0) && (level > 0 || KidsUnused(g, selected, k0, n)) ==> r
        invariant refused >= old(refused) && (r || !tasksMayFail ==> refused == old(refused))
        invariant !r ==> refused > old(refused) || (level == 0 && SomeHeldOpen(g, selected, k0, n))
        invariant r && !tasksMayFail && level == 0 ==> AllAbsent(g, selected, kernel, n, i)
        invariant !r && refused == old(refused) && n == Root ==> !AllAbsent(g, selected, kernel, n, i)
      {
        ghost var k1 := kernel;
        var go, ok := DeactivateRound(n, i, level, k0);
        ShrunkStillFine(g, rank, selected, retryRemove, n, k0, kernel, children[i]);
        if !tasksMayFail && Removable(g, selected, k0) {
          OrphanStep(g, n, i, Orphans(g, selected, k0), Orphans(g, selected, k1), Orphans(g, selected, kernel));
        }
        AnswerStep(g, rank, selected, retryRemove, n, i, k0, k1, kernel);
        if !go {
          return false;
        }
        r := r && ok;
      }
      AllKids(g, n);
    }

    /** `dm_tree_deactivate_children` on the root. */
    method DeactivateTree() returns (r: bool)
      requires Valid()
      modifies `refused, `kernel, `steps, `suspendedCounter, `belowZero
      ensures Valid()
      ensures old(Counted()) ==> Counted() && belowZero == old(belowZero)
      ensures RemoveKept(g, rank, selected, retryRemove, Root, old(kernel), kernel)
      ensures r ==> refused == old(refused)
      ensures !tasksMayFail ==> (r <==> AllAbsent(g, selected, kernel, Root, |g.uses[Root]|))
      ensures !tasksMayFail && Removable(g, selected, old(kernel)) && HeldWithin(g, rank, selected, old(kernel)) ==>
                r && NoneLeft(g, rank, selected, kernel)
      ensures !retryRemove && LinksAreDeps(g, old(kernel)) && NoneLeft(g, rank, selected, kernel) ==>
                HeldWithin(g, rank, selected, old(kernel))
    {
      hide SafeLog, Prioritised, Counted;
      r := DeactivateChildren(Root, 0);
      ghost var k := old(kernel);
      if !tasksMayFail && Removable(g, selected, k) && HeldWithin(g, rank, selected, k) {
        TopUnused(g, rank, selected, k);
        forall c | c in Reach(g, rank, selected, Root) && c.Dev? ensures c.dev !in kernel {
          ReachIsBelow(g, rank, selected, Root, c);
          ReachedIsGone(g, rank, selected, k, kernel, c);
        }
      }
      if !retryRemove && LinksAreDeps(g, k) && NoneLeft(g, rank, selected, kernel) {
        NoneLeftOnlyIfHeldWithin(g, rank, selected, k, kernel);
      }
    }

    // ----- activate -----

    /** Counter and cache are exact. */
    ghost predicate Accounted()
      reads `kernel, `info, `suspendedCounter
    {
      Counted() && Coherent(kernel, info)
    }

    /** `_resume_node` and the refresh of the cached info. */
    method ResumeNode(d: Device) returns (ok: bool)
      requires Valid() && Dev(d) in g.uses && CachedLiveIsTrue(kernel, info)
      requires d in kernel ==> SafeStep(g, selected, retryRemove, Step(Resume, d, kernel))
      modifies `refused, `kernel, `info, `steps, `suspendedCounter, `belowZero
      ensures Valid() && ActivateKept(old(kernel), old(info), kernel, info)
      ensures !infoMayFail && old(Accounted()) ==> Accounted() && belowZero == old(belowZero)
      ensures ok ==> InfoLive(info, Dev(d))
      ensures steps == old(steps) || steps == old(steps) + [Step(Resume, d, old(kernel))]
      ensures kernel.Keys == old(kernel).Keys
      ensures Faultless() && d in kernel ==> ok
      ensures refused >= old(refused) && (ok <==> refused == old(refused))
    {
      hide WellLinked, WalkableTree, Prioritised, SafeLog, SafeStep, SuspendedSet, CachedLiveIsTrue,
        CachedSuspendedIsTrue, CachedTableIsTrue, Coherent, ActivateKept;
      ResumeKeepsCache(kernel, info, d);
      var ran := RunTask(d in kernel);
      if !ran {
        return false;
      }
      ghost var s := Step(Resume, d, kernel);
      SuspendedSetUpdate(kernel, d, After(s)[d]);
      SafeLogExtends(g, selected, retryRemove, start, steps, kernel, s);
      kernel := kernel[d := Resumed(kernel[d])];
      steps := steps + [s];
      if info[Dev(d)].suspended {
        DecSuspended();
      }
      var read, newInfo := ReadInfo(d);
      if !read {
        return false;
      }
      info := info[Dev(d) := newInfo];
      return true;
    }

    /** The body of the resume loop of `dm_tree_activate_children`; `!go` stands for its early return. */
    method ActivateChild(child: Node) returns (go: bool, ok: bool)
      requires Valid() && child in g.uses && child in selected && CachedLiveIsTrue(kernel, info)
      requires child != Root ==> AllLive(info, Kids(g, child) * selected)
      modifies `refused, `kernel, `info, `renames, `steps, `suspendedCounter, `belowZero
      ensures Valid() && ActivateKept(old(kernel), old(info), kernel, info)
      ensures !infoMayFail && old(Accounted()) ==> Accounted() && belowZero == old(belowZero)
      ensures go && ok ==> InfoLive(info, child)
      ensures steps == old(steps) || (child.Dev? && steps == old(steps) + [Step(Resume, child.dev, old(kernel))])
      ensures kernel.Keys == old(kernel).Keys
      ensures Faultless() && WantedExist(old(kernel), old(info)) ==> go && ok
      ensures refused >= old(refused) && (go && ok <==> refused == old(refused))
      ensures renames <= old(renames) && (go && ok ==> child !in renames)
    {
      hide WellLinked, WalkableTree, Prioritised, SafeLog, SafeStep, CachedLiveIsTrue, ActivateKept, Accounted, AllLive;
      ActivateKeptSelf(kernel, info);
      if child in renames {
        var renamed := RunTask(true);
        if !renamed {
          return false, false;
        }
        renames := renames - {child};
      }
      if !info[child].inactiveTable && !info[child].suspended {
        return true, true;
      }
      UsesAreLive(g, selected, retryRemove, kernel, info, child.dev);
      ok := ResumeNode(child.dev);
      go := true;
    }

    /** One round of the resume loop: the children with the given priority. */
    method ActivatePriority(n: Node, p: nat) returns (go: bool, ok: bool)
      requires Valid() && n in g.uses && CachedLiveIsTrue(kernel, info)
      requires AllLive(info, ReachThrough(g, rank, selected, n, |g.uses[n]|))
      modifies `refused, `kernel, `info, `renames, `steps, `suspendedCounter, `belowZero
      ensures Valid() && ActivateKept(old(kernel), old(info), kernel, info)
      ensures !infoMayFail && old(Accounted()) ==> Accounted() && belowZero == old(belowZero)
      ensures go && ok ==> Ready(info, renames, WithPriority(g, selected, priority, n, |g.uses[n]|, p))
      ensures ResumedAt(g, priority, n, p, old(steps), steps)
      ensures kernel.Keys == old(kernel).Keys
      ensures Faultless() && WantedExist(old(kernel), old(info)) ==> go && ok
      ensures refused >= old(refused) && (go && ok <==> refused == old(refused))
      ensures renames <= old(renames)
    {
      hide WellLinked, WalkableTree, Prioritised, SafeLog, SafeStep, CachedLiveIsTrue, ActivateKept, Accounted,
        AllLive, Ready, WantedExist, ResumedAt, WithPriority, HasPriority, ReachThrough;
      ok := true;
      var children := g.uses[n];
      ActivateKeptSelf(kernel, info);
      NothingReady(info, renames);
      NoneResumed(g, priority, n, p, steps);
      NoPriority(g, selected, priority, n, p);
      for i := 0 to |children|
        invariant Valid() && ActivateKept(old(kernel), old(info), kernel, info) && CachedLiveIsTrue(kernel, info)
        invariant !infoMayFail && old(Accounted()) ==> Accounted() && belowZero == old(belowZero)
        invariant ok ==> Ready(info, renames, WithPriority(g, selected, priority, n, i, p))
        invariant ResumedAt(g, priority, n, p, old(steps), steps)
        invariant kernel.Keys == old(kernel).Keys
        invariant Faultless() && WantedExist(old(kernel), old(info)) ==> ok && WantedExist(kernel, info)
        invariant refused >= old(refused) && (ok <==> refused == old(refused))
        invariant renames <= old(renames)
      {
        var child := children[i];
        ChildInTree(g, n, i);
        PriorityStep(g, selected, priority, n, i, p);
        if child in selected && HasPriority(g, priority, child, p) {
          ghost var k, inf, ren, log := kernel, info, renames, steps;
          UsesStayLive(g, rank, selected, old(kernel), old(info), k, inf, n, i);
          var go1, ok1 := ActivateChild(child);
          ActivateKeptCompose(old(kernel), old(info), k, inf, kernel, info);
          WantedStillExist(k, inf, kernel, info);
          ResumedOneMore(g, priority, n, p, old(steps), log, steps, i, k);
          if !go1 {
            return false, false;
          }
          if !ok1 {
            ok := false;
          }
          if ok {
            StayReady(k, inf, ren, kernel, info, renames, WithPriority(g, selected, priority, n, i, p));
            OneMoreReady(info, renames, WithPriority(g, selected, priority, n, i, p), child);
          }
        }
      }
      go := true;
    }

    /** The resume loop of `dm_tree_activate_children`: three rounds, lowest priority first. */
    method ActivateLevel(n: Node) returns (go: bool, ok: bool)
      requires Valid() && n in g.uses && CachedLiveIsTrue(kernel, info)
      requires AllLive(info, ReachThrough(g, rank, selected, n, |g.uses[n]|))
      modifies `refused, `kernel, `info, `renames, `steps, `suspendedCounter, `belowZero
      ensures Valid() && ActivateKept(old(kernel), old(info), kernel, info)
      ensures !infoMayFail && old(Accounted()) ==> Accounted() && belowZero == old(belowZero)
      ensures go && ok ==> Ready(info, renames, Kids(g, n) * selected)
      ensures ResumedInOrder(g, priority, n, 3, old(steps), steps)
      ensures kernel.Keys == old(kernel).Keys
      ensures Faultless() && WantedExist(old(kernel), old(info)) ==> go && ok
      ensures refused >= old(refused) && (go && ok <==> refused == old(refused))
      ensures renames <= old(renames)
    {
      hide WellLinked, WalkableTree, Prioritised, SafeLog, SafeStep, CachedLiveIsTrue, ActivateKept, Accounted,
        AllLive, Ready, WantedExist, ResumedAt, ResumedInOrder, WithPriority;
      ok := true;
      ActivateKeptSelf(kernel, info);
      NothingResumed(g, priority, n, steps);
      for p := 0 to 3
        invariant Valid() && ActivateKept(old(kernel), old(info), kernel, info) && CachedLiveIsTrue(kernel, info)
        invariant !infoMayFail && old(Accounted()) ==> Accounted() && belowZero == old(belowZero)
        invariant ok ==> forall q :: 0 <= q < p ==>
                  Ready(info, renames, WithPriority(g, selected, priority, n, |g.uses[n]|, q))
        invariant ResumedInOrder(g, priority, n, p, old(steps), steps)
        invariant kernel.Keys == old(kernel).Keys
        invariant Faultless() && WantedExist(old(kernel), old(info)) ==> ok && WantedExist(kernel, info)
        invariant refused >= old(refused) && (ok <==> refused == old(refused))
        invariant renames <= old(renames)
      {
        ghost var k, inf, ren, log := kernel, info, renames, steps;
        StayLive(old(kernel), old(info), k, inf, ReachThrough(g, rank, selected, n, |g.uses[n]|));
        var go1, ok1 := ActivatePriority(n, p);
        ActivateKeptCompose(old(kernel), old(info), k, inf, kernel, info);
        WantedStillExist(k, inf, kernel, info);
        NextPriority(g, priority, n, p, old(steps), log, steps);
        if !go1 {
          WiderLimit(g, priority, n, p + 1, old(steps), steps);
          return false, false;
        }
        ok := ok && ok1;
        forall q | 0 <= q < p {
          StayReady(k, inf, ren, kernel, info, renames, WithPriority(g, selected, priority, n, |g.uses[n]|, q));
        }
      }
      go := true;
      if ok { AllPriorities(g, selected, priority, info, renames, n); }
    }

    /** `_node_send_messages` as far as the walk sees it: on failure the nodes below are deactivated. */
    method SendMessages(n: Node) returns (ok: bool)
      requires Valid() && n in g.uses
      modifies `messaged, `refused, `kernel, `steps, `suspendedCounter, `belowZero
      ensures Valid() && RemoveKept(g, rank, selected, retryRemove, n, old(kernel), kernel)
      ensures old(Counted()) ==> Counted() && belowZero == old(belowZero)
      ensures ok ==> kernel == old(kernel)
      ensures messaged == old(messaged) + {n}
      ensures !tasksMayFail ==> ok
      ensures refused >= old(refused) && (ok <==> refused == old(refused))
    {
      RemoveKeptSelf(g, rank, selected, retryRemove, n, kernel);
      messaged := messaged + {n};
      ok := RunTask(true);
      if !ok {
        var _ := DeactivateChildren(n, 0);
      }
    }

    /** A pool with messages to send, below which everything is live: only then can devices be removed. */
    ghost predicate SomePoolLive()
      requires Valid()
      reads this
    {
      exists m :: m in messageNodes && m in g.uses && AllLive(info, Reach(g, rank, selected, m))
    }

    /** The rest of `dm_tree_activate_children` once everything below the children is live. */
    method ActivateOwn(n: Node) returns (r: bool)
      requires Valid() && n in g.uses && CachedLiveIsTrue(kernel, info)
      requires Ready(info, renames, ReachThrough(g, rank, selected, n, |g.uses[n]|))
      modifies `messaged, `refused, `kernel, `info, `renames, `steps, `suspendedCounter, `belowZero
      ensures Valid() && ActivateKept(old(kernel), old(info), kernel, info)
      ensures !infoMayFail && old(Accounted()) ==> Accounted() && belowZero == old(belowZero)
      ensures r ==> Ready(info, renames, Reach(g, rank, selected, n))
      ensures Faultless() ==> kernel.Keys == old(kernel).Keys
      ensures Faultless() && WantedExist(old(kernel), old(info)) ==> r
      ensures refused >= old(refused) && (r <==> refused == old(refused))
      ensures renames <= old(renames)
      ensures kernel.Keys == old(kernel).Keys || (!r && SomePoolLive())
      ensures messaged >= old(messaged) && (r && n in messageNodes ==> n in messaged)
    {
      hide WellLinked, WalkableTree, Prioritised, SafeLog, SafeStep, CachedLiveIsTrue, ActivateKept, AllLive, Ready,
        WantedExist, RemoveKept, ShrinksWithin, Coherent, ReachThrough;
      ghost var below := ReachThrough(g, rank, selected, n, |g.uses[n]|);
      ReadyIsLive(info, renames, below);
      var go, ok := ActivateLevel(n);
      StayReady(old(kernel), old(info), old(renames), kernel, info, renames, below);
      KeptIsLive(old(kernel), old(info), kernel, info);
      if !go {
        return false;
      }
      r := ok;
      if r {
        BothReady(info, renames, Kids(g, n) * selected, below);
        ReadyIsLive(info, renames, Kids(g, n) * selected + below);
        if n in messageNodes {
          ghost var k := kernel;
          r := SendMessages(n);
          RemovesWithin(g, rank, selected, retryRemove, n, k, kernel);
          ShrinkKeepsCache(k, info, kernel);
          ActivateKeptCompose(old(kernel), old(info), k, info, kernel, info);
        }
      }
    }

    /** The first `i` children of `n` and all below them are done with. */
    ghost predicate BelowDone(n: Node, i: nat)
      requires Valid() && n in g.uses && i <= |g.uses[n]|
      reads this
    {
      && Ready(info, renames, ReachThrough(g, rank, selected, n, i))
      && ToldUpTo(g, rank, selected, messageNodes, messaged, n, i)
    }

    lemma NothingBelowDone(n: Node)
      requires Valid() && n in g.uses
      ensures BelowDone(n, 0)
    {
    }

    /** The first loop of `dm_tree_activate_children`: one child. */
    method ActivateBelow(n: Node, i: nat) returns (ok: bool)
      requires Valid() && n in g.uses && i < |g.uses[n]| && CachedLiveIsTrue(kernel, info) && BelowDone(n, i)
      modifies `messaged, `refused, `kernel, `info, `renames, `steps, `suspendedCounter, `belowZero
      ensures Valid() && ActivateKept(old(kernel), old(info), kernel, info)
      ensures !infoMayFail && old(Accounted()) ==> Accounted() && belowZero == old(belowZero)
      ensures Faultless() ==> kernel.Keys == old(kernel).Keys
      ensures Faultless() && WantedExist(old(kernel), old(info)) ==> ok && WantedExist(kernel, info)
      ensures refused >= old(refused) && (ok <==> refused == old(refused))
      ensures renames <= old(renames) && messaged >= old(messaged)
      ensures kernel.Keys == old(kernel).Keys || (!ok && SomePoolLive())
      ensures ok ==> BelowDone(n, i + 1)
      decreases Root in g.uses[n], rank[n], 0
    {
      hide WellLinked, WalkableTree, Prioritised, SafeLog, SafeStep, CachedLiveIsTrue, ActivateKept, AllLive, Ready,
        WantedExist, Accounted, Reach, ReachThrough, Told, ToldUpTo, KidsUpTo, SomePoolLive;
      var child := g.uses[n][i];
      ChildInTree(g, n, i);
      ChildRank(g, rank, n, i);
      ReachThroughStep(g, rank, selected, n, i);
      ActivateKeptSelf(kernel, info);
      ok := true;
      ghost var before := ReachThrough(g, rank, selected, n, i);
      if child in selected && NumChildren(g, child) != 0 {
        ok := ActivateChildren(child);
        StayReady(old(kernel), old(info), old(renames), kernel, info, renames, before);
        if Faultless() { WantedStillExist(old(kernel), old(info), kernel, info); }
        if !ok {
          return;
        }
        if child != Root { BothReady(info, renames, before, Reach(g, rank, selected, child)); }
      } else if child in selected && child != Root {
        LeafReach(g, rank, selected, child);
        OnlyRootReady(info, renames, Reach(g, rank, selected, child));
        BothReady(info, renames, before, Reach(g, rank, selected, child));
      }
      ToldStep(g, rank, selected, messageNodes, old(messaged), messaged, n, i);
    }

    /** `dm_tree_activate_children` */
    method ActivateChildren(n: Node) returns (r: bool)
      requires Valid() && n in g.uses && CachedLiveIsTrue(kernel, info)
      modifies `messaged, `refused, `kernel, `info, `renames, `steps, `suspendedCounter, `belowZero
      ensures Valid() && ActivateKept(old(kernel), old(info), kernel, info)
      ensures !infoMayFail && old(Accounted()) ==> Accounted() && belowZero == old(belowZero)
      ensures Faultless() ==> kernel.Keys == old(kernel).Keys
      ensures Faultless() && WantedExist(old(kernel), old(info)) ==> r
      ensures refused >= old(refused) && (r <==> refused == old(refused))
      ensures renames <= old(renames) && messaged >= old(messaged)
      ensures kernel.Keys == old(kernel).Keys || (!r && SomePoolLive())
      ensures r ==> Ready(info, renames, Reach(g, rank, selected, n))
      ensures r && n in messageNodes ==> n in messaged
      ensures r ==> Told(g, messageNodes, messaged, Reach(g, rank, selected, n))
      decreases Root in g.uses[n], rank[n], 1
    {
      hide WellLinked, WalkableTree, Prioritised, SafeLog, SafeStep, CachedLiveIsTrue, ActivateKept, AllLive, Ready,
        WantedExist, Accounted, Reach, ReachThrough, Told, ToldUpTo, BelowDone, SomePoolLive;
      ActivateKeptSelf(kernel, info);
      NothingBelowDone(n);
      for i := 0 to |g.uses[n]|
        invariant Valid() && ActivateKept(old(kernel), old(info), kernel, info) && CachedLiveIsTrue(kernel, info)
        invariant !infoMayFail && old(Accounted()) ==> Accounted() && belowZero == old(belowZero)
        invariant Faultless() && WantedExist(old(kernel), old(info)) ==> WantedExist(kernel, info)
        invariant refused == old(refused) && kernel.Keys == old(kernel).Keys
        invariant renames <= old(renames) && messaged >= old(messaged)
        invariant BelowDone(n, i)
      {
        ghost var k, inf := kernel, info;
        var ok := ActivateBelow(n, i);
        ActivateKeptCompose(old(kernel), old(info), k, inf, kernel, info);
        if !ok {
          return false;
        }
      }
      ghost var k, inf, told := kernel, info, messaged;
      AllBelowDone(n);
      r := ActivateOwn(n);
      ToldAll(g, rank, selected, messageNodes, told, messaged, n);
      ActivateKeptCompose(old(kernel), old(info), k, inf, kernel, info);
    }

    lemma AllBelowDone(n: Node)
      requires Valid() && n in g.uses && BelowDone(n, |g.uses[n]|)
      ensures Ready(info, renames, ReachThrough(g, rank, selected, n, |g.uses[n]|))
      ensures ToldUpTo(g, rank, selected, messageNodes, messaged, n, |g.uses[n]|)
    {
    }

    /**
    Any sequence of walks.  Starting with no device suspended and nobody else at work,
    the counter equals the number of suspended devices after every walk and never runs
    below zero, and the log of the whole session is safe.
    */
    method RunWalks(walks: seq<Walk>)
      requires Valid() && !infoMayFail && Accounted() && !belowZero
      requires forall i :: 0 <= i < |walks| ==> walks[i].n in g.uses
      modifies this
      ensures Valid() && Accounted() && !belowZero
    {
      hide WellLinked, WalkableTree, Prioritised, SafeLog, Counted, Coherent, SuspendKept, ActivateKept, RemoveKept,
        Reach, Todo, Changed, Orphans, CachedSuspendedIsTrue, CachedLiveIsTrue;
      for i := 0 to |walks|
        invariant Valid() && Accounted() && !belowZero
      {
        match walks[i] {
          case SuspendWalk(n) =>
            ghost var k, inf := kernel, info;
            CoherentParts(k, inf);
            var _ := SuspendChildren(n);
            SuspendKeepsCoherent(g, selected, infoMayFail, k, inf, kernel, info);
          case ActivateWalk(n) =>
            CoherentParts(kernel, info);
            var _ := ActivateChildren(n);
          case DeactivateWalk(n) =>
            ghost var k := kernel;
            var _ := DeactivateChildren(n, 0);
            RemovesWithin(g, rank, selected, retryRemove, n, k, kernel);
            ShrinkKeepsCache(k, info, kernel);
        }
      }
    }
  }
}
