/**
From `dm_tree_add_dev` to the walks: a tree built from an acyclic kernel can be walked,
and tearing it down removes exactly the devices it was built for.
*/
module WholeTree {
  import opened Links
  import opened DepTree
  import opened TreeWalk

  /** The kernel's dependencies have no cycle among the given devices. */
  ghost predicate AcyclicDeps(k: KernelDeps, level: map<Device, nat>) {
    forall d, c :: d in k && c in Deps(k, d) ==> d in level && c in level && level[c] < level[d]
  }

  /** The running kernel holds exactly the tables the tree was built from. */
  ghost predicate Mirrors(running: Kernel, k: KernelDeps) {
    && running.Keys == k.Keys
    && forall d :: d in running ==> Refs(running[d]) == set c | c in Deps(k, d)
  }

  ghost function Levels(g: Graph, level: map<Device, nat>): map<Node, nat> {
    map n | n in g.uses && n.Dev? :: if n.dev in level then level[n.dev] else 0
  }

  ghost function RankOf(g: Graph, level: map<Device, nat>): map<Node, nat> {
    Levels(g, level)[Root := Ceiling(Levels(g, level))]
  }

  lemma EdgeIsDep(g: Graph, k: KernelDeps, added: set<Device>, p: Node, c: Node)
    requires Exact(g, k, added) && Edge(g, p, c) && c != Root
    ensures p in g.uses && c in g.uses
    ensures p != Root ==> p.dev in k && c.dev in Deps(k, p.dev)
  {
    assert c in g.usedBy && p in g.usedBy[c];
  }

  lemma RankFalls(g: Graph, k: KernelDeps, added: set<Device>, level: map<Device, nat>, p: Node, c: Node)
    requires Exact(g, k, added) && AcyclicDeps(k, level) && Edge(g, p, c) && c != Root
    ensures p in RankOf(g, level) && c in RankOf(g, level) && RankOf(g, level)[c] < RankOf(g, level)[p]
  {
    hide DepTree.Exact, Ceiling;
    EdgeIsDep(g, k, added, p, c);
    RankBelowCeiling(Levels(g, level), c);
  }

  lemma SomeParent(g: Graph, k: KernelDeps, added: set<Device>, d: Device)
    requires Exact(g, k, added) && Dev(d) in g.uses
    ensures g.usedBy[Dev(d)] != []
  {
    if HasParent(g, d) {
      var p :| Edge(g, Dev(p), Dev(d));
      assert Dev(p) in g.usedBy[Dev(d)];
    } else {
      assert Edge(g, Root, Dev(d));
      assert Root in g.usedBy[Dev(d)];
    }
  }

  lemma RootStandsAlone(g: Graph, k: KernelDeps, added: set<Device>, p: Node, c: Node)
    requires Exact(g, k, added) && Edge(g, p, c)
    ensures Edge(g, Root, c) ==> p == Root
    ensures Edge(g, p, Root) ==> c == Root
  {
    assert c in g.usedBy && p in g.usedBy[c];
    if p.Dev? && c.Dev? { assert HasParent(g, c.dev); }
  }

  /** Every tree that `dm_tree_add_dev` builds is fit for the walks. */
  lemma BuiltTreeIsWalkable(g: Graph, k: KernelDeps, added: set<Device>, level: map<Device, nat>)
    requires Exact(g, k, added) && AcyclicDeps(k, level)
    ensures WalkableTree(g, RankOf(g, level)) && EveryNodeHasParent(g)
  {
    assert WellLinked(g);
    hide DepTree.Exact, WellLinked;
    var rank := RankOf(g, level);
    forall p, c | Edge(g, p, c) && c != Root ensures p in rank && c in rank && rank[c] < rank[p] {
      RankFalls(g, k, added, level, p, c);
    }
    forall p, c | Edge(g, p, c) ensures (Edge(g, Root, c) ==> p == Root) && (Edge(g, p, Root) ==> c == Root) {
      RootStandsAlone(g, k, added, p, c);
    }
    forall n | n in g.uses && n in g.usedBy && n != Root ensures g.usedBy[n] != [] {
      SomeParent(g, k, added, n.dev);
    }
  }

  lemma BuiltTreeMatchesKernel(g: Graph, k: KernelDeps, added: set<Device>, running: Kernel)
    requires Exact(g, k, added) && Mirrors(running, k)
    ensures DepsAreLinks(g, running) && LinksAreDeps(g, running)
  {
    hide Refs;
    forall p, c | p in running && Edge(g, Dev(p), Dev(c)) ensures c in Refs(running[p]) {
      assert c in Deps(k, p);
    }
    forall p, c | p in running && Dev(p) in g.uses && c in Refs(running[p]) ensures Edge(g, Dev(p), Dev(c)) {
      assert c in Deps(k, p);
    }
  }

  lemma OrphanIsOnTop(g: Graph, k: KernelDeps, added: set<Device>, running: Kernel, d: Device)
    requires Exact(g, k, added) && Mirrors(running, k) && Dev(d) in g.uses && Users(running, d) == {}
    ensures Edge(g, Root, Dev(d))
  {
    hide Refs;
    assert forall p :: p in running ==> p !in Users(running, d);
    forall p ensures !Edge(g, Dev(p), Dev(d)) {
      assert Edge(g, Dev(p), Dev(d)) ==> d in Deps(k, p) && p in running;
    }
  }

  /** If no device outside the tree uses one inside, the tree holds all that keeps it from removal. */
  lemma BuiltTreeHeldWithin(g: Graph, k: KernelDeps, added: set<Device>, level: map<Device, nat>, sel: set<Node>,
                            running: Kernel)
    requires Exact(g, k, added) && AcyclicDeps(k, level) && Mirrors(running, k) && g.uses.Keys <= sel
    requires WalkableTree(g, RankOf(g, level)) && EveryNodeHasParent(g)
    requires forall p, c :: p in k && c in Deps(k, p) && Dev(c) in g.uses ==> Dev(p) in g.uses
    ensures HeldWithin(g, RankOf(g, level), sel, running)
  {
    assert WellLinked(g);
    hide WellLinked, WalkableTree, Refs, DepTree.Exact, EveryNodeHasParent, Reach, RankOf;
    var rank := RankOf(g, level);
    forall p, c | c in Reach(g, rank, sel, Root) && c.Dev? && c.dev in running && p in Users(running, c.dev)
      ensures Dev(p) in Reach(g, rank, sel, Root)
    {
      ReachIsBelow(g, rank, sel, Root, c);
      assert c.dev in Deps(k, p);
      EveryNodeReached(g, rank, sel, Dev(p));
    }
    forall c | c in Reach(g, rank, sel, Root) && c in Orphans(g, sel, running) ensures c in Kids(g, Root) {
      OrphanIsOnTop(g, k, added, running, c.dev);
    }
  }

  /**
  Build the tree for `ds` and deactivate it.  Without failures and without users from
  outside, exactly the devices that `ds` depend on, `ds` included, are gone afterwards.
  */
  method TearDown(k: KernelDeps, ds: seq<Device>, ghost level: map<Device, nat>, ghost members: set<Device>,
                  running: Kernel)
    returns (r: bool, left: Kernel)
    requires AcyclicDeps(k, level) && Mirrors(running, k) && IsClosure(k, Elements(ds), members)
    requires forall p, c :: p in k && c in Deps(k, p) && c in members ==> p in members
    requires forall d :: d in running && d in members ==> running[d].opens == 0
    ensures r
    ensures left == running - members
  {
    var t := BuildTree(k, ds);
    var g := t.g;
    ghost var added := Elements(ds);
    ghost var rank := RankOf(g, level);
    assert Devices(g) == members;
    BuiltTreeIsWalkable(g, k, added, level);
    BuiltTreeMatchesKernel(g, k, added, running);
    forall p, c | p in k && c in Deps(k, p) && Dev(c) in g.uses ensures Dev(p) in g.uses {
      assert c in Devices(g);
      assert p in Devices(g);
    }
    BuiltTreeHeldWithin(g, k, added, level, g.uses.Keys, running);
    r, left := Deactivate(g, rank, running);
    MembersGone(g, rank, running, left, members);
  }

  lemma MembersGone(g: Graph, rank: map<Node, nat>, running: Kernel, left: Kernel, members: set<Device>)
    requires WalkableTree(g, rank) && EveryNodeHasParent(g) && Devices(g) == members
    requires RemoveKept(g, rank, g.uses.Keys, false, Root, running, left) && NoneLeft(g, rank, g.uses.Keys, left)
    ensures left == running - members
  {
    assert WellLinked(g);
    hide WalkableTree, Refs;
    forall d | d in members ensures d !in left {
      assert Dev(d) in g.uses;
      EveryNodeReached(g, rank, g.uses.Keys, Dev(d));
    }
    forall d | d in running && d !in left ensures d in members {
      assert Dev(d) in Gone(running, left);
      ReachIsBelow(g, rank, g.uses.Keys, Root, Dev(d));
    }
  }

  method Deactivate(g: Graph, ghost rank: map<Node, nat>, running: Kernel) returns (r: bool, left: Kernel)
    requires WalkableTree(g, rank) && Removable(g, g.uses.Keys, running) && HeldWithin(g, rank, g.uses.Keys, running)
    ensures r && NoneLeft(g, rank, g.uses.Keys, left)
    ensures RemoveKept(g, rank, g.uses.Keys, false, Root, running, left)
  {
    var info := CacheOf(g, running);
    RootIsNode(g, running);
    var priority := map n | n in g.uses :: 0;
    var w := new Walker(g, rank, g.uses.Keys, priority, {}, false, false, false, running, info, {}, 0);
    r := w.DeactivateTree();
    left := w.kernel;
  }

  // ----- suspending and activating a whole tree -----

  function CacheOf(g: Graph, running: Kernel): Cache {
    map n | n in g.uses :: if n.Dev? && n.dev in running then InfoOf(running, n.dev) else Info(false, false)
  }

  /** In a built tree the parents of existing devices exist, so nothing keeps a suspend walk from completing. */
  lemma BuiltTreeParentsWithin(g: Graph, k: KernelDeps, added: set<Device>, level: map<Device, nat>, running: Kernel,
                               info: Cache)
    requires Exact(g, k, added) && AcyclicDeps(k, level) && running.Keys == k.Keys && info.Keys == g.uses.Keys
    requires WalkableTree(g, RankOf(g, level)) && EveryNodeHasParent(g)
    ensures ParentsWithin(g, RankOf(g, level), g.uses.Keys, running, info)
    ensures g.uses.Keys - {Root} <= Reach(g, RankOf(g, level), g.uses.Keys, Root)
  {
    forall p, c | Edge(g, Dev(p), Dev(c)) ensures p in running {
      EdgeIsDep(g, k, added, Dev(p), Dev(c));
    }
    WholeTreeWithin(g, RankOf(g, level), g.uses.Keys, running, info);
  }

  /** Every device of the tree is suspended, nothing else has changed. */
  ghost predicate Frozen(running: Kernel, frozen: Kernel, members: set<Device>) {
    && frozen.Keys == running.Keys
    && forall d :: d in running ==> frozen[d] == if d in members then running[d].(suspended := true) else running[d]
  }

  /** Every device of the tree runs on its newest table, nothing else has changed. */
  ghost predicate Updated(running: Kernel, now: Kernel, members: set<Device>) {
    && now.Keys == running.Keys
    && forall d :: d in running ==>
         now[d] ==
         if d !in members then running[d]
         else if running[d].inactive.Loaded? then DevState(false, NoTable, running[d].inactive.deps, running[d].opens)
         else DevState(false, NoTable, running[d].deps, running[d].opens)
  }

  lemma AllFrozen(g: Graph, rank: map<Node, nat>, running: Kernel, info: Cache, frozen: Kernel, info1: Cache,
                  members: set<Device>)
    requires WalkableTree(g, rank) && info.Keys == g.uses.Keys && Devices(g) == members
    requires g.uses.Keys - {Root} <= Reach(g, rank, g.uses.Keys, Root)
    requires SuspendKept(g, g.uses.Keys, false, running, info, frozen, info1)
    requires AllSuspended(g, rank, g.uses.Keys, frozen)
    ensures Frozen(running, frozen, members)
  {
    forall d | d in running ensures frozen[d] == if d in members then running[d].(suspended := true) else running[d] {
      if d in members {
        assert Dev(d) in Reach(g, rank, g.uses.Keys, Root);
      } else {
        assert frozen[d] != running[d] ==> Dev(d) in Changed(running, frozen);
      }
    }
  }

  lemma AllUpdated(g: Graph, rank: map<Node, nat>, running: Kernel, frozen: Kernel, info: Cache, now: Kernel,
                   info1: Cache, members: set<Device>)
    requires WalkableTree(g, rank) && info.Keys == g.uses.Keys && Devices(g) == members
    requires g.uses.Keys - {Root} <= Reach(g, rank, g.uses.Keys, Root)
    requires Frozen(running, frozen, members) && now.Keys == frozen.Keys
    requires ActivateKept(frozen, info, now, info1) && AllLive(info1, Reach(g, rank, g.uses.Keys, Root))
    ensures Updated(running, now, members)
  {
    forall d | d in running ensures now[d] == if d in members then Resumed(running[d]) else running[d] {
      if d in members {
        assert Dev(d) in Reach(g, rank, g.uses.Keys, Root);
        assert InfoLive(info1, Dev(d));
        assert !now[d].suspended && frozen[d].suspended;
      } else {
        assert Dev(d) !in info;
      }
    }
  }

  lemma NothingMissing(g: Graph, running: Kernel, info: Cache, frozen: Kernel, info1: Cache)
    requires WellLinked(g) && info == CacheOf(g, running)
    requires SuspendKept(g, g.uses.Keys, false, running, info, frozen, info1)
    ensures WantedExist(frozen, info1)
  {
    forall n | n in info1 && !InfoLive(info1, n) && n.Dev? ensures n.dev in frozen {
      if info1[n] != info[n] { assert n in Changed(running, frozen); }
    }
  }

  /**
  Build the tree for `ds`, suspend it and activate it.  Without failures every device that `ds`
  depend on, `ds` included, is suspended in between and afterwards live, on its inactive table if
  it had one; no other device changes.
  */
  method Refresh(k: KernelDeps, ds: seq<Device>, ghost level: map<Device, nat>, ghost members: set<Device>,
                 running: Kernel)
    returns (r: bool, frozen: Kernel, now: Kernel)
    requires AcyclicDeps(k, level) && running.Keys == k.Keys && IsClosure(k, Elements(ds), members)
    ensures r && Frozen(running, frozen, members) && Updated(running, now, members)
  {
    var t := BuildTree(k, ds);
    var g := t.g;
    ghost var added := Elements(ds);
    ghost var rank := RankOf(g, level);
    assert Devices(g) == members;
    BuiltTreeIsWalkable(g, k, added, level);
    BuiltTreeParentsWithin(g, k, added, level, running, CacheOf(g, running));
    r, frozen, now := SuspendAndActivate(g, rank, running, members);
  }

  method SuspendAndActivate(g: Graph, ghost rank: map<Node, nat>, running: Kernel, ghost members: set<Device>)
    returns (r: bool, frozen: Kernel, now: Kernel)
    requires WalkableTree(g, rank) && Devices(g) == members
    requires ParentsWithin(g, rank, g.uses.Keys, running, CacheOf(g, running))
    requires g.uses.Keys - {Root} <= Reach(g, rank, g.uses.Keys, Root)
    ensures r && Frozen(running, frozen, members) && Updated(running, now, members)
  {
    assert WellLinked(g);
    hide WalkableTree, WellLinked, ParentsWithin, SuspendKept, ActivateKept, AllSuspended, AllLive, Reach,
      WantedExist, Frozen, Updated;
    var info := CacheOf(g, running);
    var priority := map n | n in g.uses :: 0;
    RootIsNode(g, running);
    var w := new Walker(g, rank, g.uses.Keys, priority, {}, false, false, false, running, info, {}, 0);
    var suspended := w.SuspendTree();
    frozen := w.kernel;
    ghost var info1 := w.info;
    AllFrozen(g, rank, running, info, frozen, info1, members);
    NothingMissing(g, running, info, frozen, info1);
    r := w.ActivateChildren(Root);
    now := w.kernel;
    SameNodes(g, info, info1, running, frozen);
    AllUpdated(g, rank, running, frozen, info1, now, w.info, members);
  }

  lemma RootIsNode(g: Graph, running: Kernel)
    requires WellLinked(g)
    ensures Root in g.uses && InfoLive(CacheOf(g, running), Root) && Coherent(running, CacheOf(g, running))
  {
  }

  lemma SameNodes(g: Graph, info: Cache, info1: Cache, running: Kernel, frozen: Kernel)
    requires WellLinked(g) && info.Keys == g.uses.Keys
    requires SuspendKept(g, g.uses.Keys, false, running, info, frozen, info1)
    ensures info1.Keys == g.uses.Keys
  {
  }
}
