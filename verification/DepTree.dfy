/**
Building the dependency tree from the kernel (`dm_tree_add_dev`).

The kernel is a map from every mapped device to the devices its table refers to.  A
device outside the map is not a mapped device: it has no table and no dependencies.
*/
module DepTree {
  import opened Links

  type KernelDeps = map<Device, seq<Device>>

  function Deps(k: KernelDeps, d: Device): seq<Device> {
    if d in k then k[d] else []
  }

  ghost predicate Closed(k: KernelDeps, s: set<Device>) {
    forall d, c :: d in s && c in Deps(k, d) ==> c in s
  }

  /** `s` is the least set that holds the seeds and everything they depend on. */
  ghost predicate IsClosure(k: KernelDeps, seeds: set<Device>, s: set<Device>) {
    seeds <= s && Closed(k, s) && forall t :: seeds <= t && Closed(k, t) ==> s <= t
  }

  ghost function Devices(g: Graph): set<Device> {
    set n | n in g.uses && n.Dev? :: n.dev
  }

  /**
  What libdevmapper.h promises of a tree: one node for each device reachable from the
  added ones, links exactly where the kernel reports dependencies, and the root standing
  in wherever a node has no parent or no child of its own.
  */
  ghost predicate Exact(g: Graph, k: KernelDeps, added: set<Device>) {
    && WellLinked(g)
    && IsClosure(k, added, Devices(g))
    && (forall d, c :: Dev(d) in g.uses ==> (Edge(g, Dev(d), Dev(c)) <==> c in Deps(k, d)))
    && (forall d :: Dev(d) in g.uses ==> (Edge(g, Dev(d), Root) <==> Deps(k, d) == []))
    && (forall d :: Dev(d) in g.uses ==> (Edge(g, Root, Dev(d)) <==> !HasParent(g, d)))
  }

  ghost predicate HasParent(g: Graph, d: Device) {
    exists p :: Edge(g, Dev(p), Dev(d))
  }

  /** The tree does not depend on the order in which devices were added. */
  lemma SameTree(g: Graph, h: Graph, k: KernelDeps, added: set<Device>)
    requires Exact(g, k, added) && Exact(h, k, added)
    ensures g.uses.Keys == h.uses.Keys
    ensures forall p, c :: Edge(g, p, c) <==> Edge(h, p, c)
    ensures forall n :: n in g.uses ==>
            multiset(g.uses[n]) == multiset(h.uses[n]) && multiset(g.usedBy[n]) == multiset(h.usedBy[n])
  {
    assert Devices(g) == Devices(h);
    forall n ensures n in g.uses <==> n in h.uses {
      if n.Dev? { assert n in g.uses <==> n.dev in Devices(g); assert n in h.uses <==> n.dev in Devices(h); }
    }
    forall p, c ensures Edge(g, p, c) <==> Edge(h, p, c) {
      if Edge(g, p, c) { EdgeDetermined(g, h, k, added, p, c); }
      if Edge(h, p, c) { EdgeDetermined(h, g, k, added, p, c); }
    }
    forall n | n in g.uses
      ensures multiset(g.uses[n]) == multiset(h.uses[n]) && multiset(g.usedBy[n]) == multiset(h.usedBy[n])
    {
      assert forall c :: c in g.uses[n] <==> Edge(g, n, c);
      assert forall c :: c in h.uses[n] <==> Edge(h, n, c);
      assert forall c :: c in g.usedBy[n] <==> Edge(g, c, n);
      assert forall c :: c in h.usedBy[n] <==> Edge(h, c, n);
      SameElements(g.uses[n], h.uses[n]);
      SameElements(g.usedBy[n], h.usedBy[n]);
    }
  }

  lemma EdgeDetermined(g: Graph, h: Graph, k: KernelDeps, added: set<Device>, p: Node, c: Node)
    requires Exact(g, k, added) && Exact(h, k, added) && g.uses.Keys == h.uses.Keys
    requires Edge(g, p, c)
    ensures Edge(h, p, c)
  {
    assert c in g.usedBy && p in g.usedBy[c];
    if p == Root && c.Dev? {
      assert forall q :: Edge(h, Dev(q), c) <==> Edge(g, Dev(q), c);
    }
  }

  lemma {:induction false} DistinctCount<T>(s: seq<T>, x: T)
    requires Distinct(s)
    ensures multiset(s)[x] == if x in s then 1 else 0
  {
    if s != [] {
      assert s == [s[0]] + s[1..];
      DistinctCount(s[1..], x);
    }
  }

  lemma SameElements<T>(s: seq<T>, t: seq<T>)
    requires Distinct(s) && Distinct(t)
    requires forall x :: x in s <==> x in t
    ensures multiset(s) == multiset(t)
  {
    forall x ensures multiset(s)[x] == multiset(t)[x] {
      DistinctCount(s, x);
      DistinctCount(t, x);
    }
  }

  function LinkedInTree(g: Graph, parent: Node, child: Node): (h: Graph)
    requires g.uses.Keys == g.usedBy.Keys && Root in g.uses && parent in g.uses && child in g.uses
  {
    if parent == Root && NumParents(g, child) != 0 then g
    else
      var g1 := if parent == Root then g else Unlinked(g, Root, child);
      if child == Root && NumChildren(g1, parent) != 0 then g1
      else
        var g2 := if child == Root then g1 else Unlinked(g1, parent, Root);
        Linked(g2, parent, child)
  }

  /** Hanging a device below the root has no effect when it already has a parent. */
  lemma LinkedBelowRoot(g: Graph, d: Device)
    requires WellLinked(g) && Dev(d) in g.uses
    ensures var h := LinkedInTree(g, Root, Dev(d));
            && WellLinked(h) && h.uses.Keys == g.uses.Keys
            && forall p, c :: Edge(h, p, c) <==> Edge(g, p, c) || (p == Root && c == Dev(d) && !HasParent(g, d))
  {
    if NumParents(g, Dev(d)) != 0 {
      var p := g.usedBy[Dev(d)][0];
      assert Edge(g, p, Dev(d)) && p != Root;
    } else {
      var g2 := Unlinked(g, Root, Root);
      assert g2 == g;
      LinkedEdges(g, Root, Dev(d));
      assert forall p :: Edge(g, Dev(p), Dev(d)) ==> Dev(p) in g.usedBy[Dev(d)];
    }
  }

  /** Linking two devices takes the root out of the way on both sides. */
  lemma LinkedBelowDevice(g: Graph, p0: Device, c0: Device)
    requires WellLinked(g) && Dev(p0) in g.uses && Dev(c0) in g.uses
    ensures var h := LinkedInTree(g, Dev(p0), Dev(c0));
            && WellLinked(h) && h.uses.Keys == g.uses.Keys
            && forall p, c :: Edge(h, p, c) <==>
                 (p == Dev(p0) && c == Dev(c0))
                 || (Edge(g, p, c) && (p, c) != (Root, Dev(c0)) && (p, c) != (Dev(p0), Root))
  {
    UnlinkedEdges(g, Root, Dev(c0));
    var g1 := Unlinked(g, Root, Dev(c0));
    UnlinkedEdges(g1, Dev(p0), Root);
    LinkedEdges(Unlinked(g1, Dev(p0), Root), Dev(p0), Dev(c0));
  }

  /** The devices outside `open` have all their links. */
  ghost predicate FinishedLinks(g: Graph, k: KernelDeps, open: set<Device>) {
    && (forall d, c :: Dev(d) in g.uses && d !in open ==> (Edge(g, Dev(d), Dev(c)) <==> c in Deps(k, d)))
    && (forall d :: Dev(d) in g.uses && d !in open ==> (Edge(g, Dev(d), Root) <==> Deps(k, d) == []))
  }

  /** The devices in `open` have some of their links, and the root not yet below them. */
  ghost predicate OpenLinks(g: Graph, k: KernelDeps, open: set<Device>) {
    && (forall d :: d in open ==> Dev(d) in g.uses && !Edge(g, Dev(d), Root))
    && (forall d, c :: d in open && Edge(g, Dev(d), Dev(c)) ==> c in Deps(k, d))
  }

  /** The root is the parent of exactly the devices without another. */
  ghost predicate RootAbove(g: Graph) {
    forall d :: Dev(d) in g.uses ==> (Edge(g, Root, Dev(d)) <==> !HasParent(g, d))
  }

  ghost predicate InEveryClosure(g: Graph, k: KernelDeps, seeds: set<Device>) {
    forall t :: seeds <= t && Closed(k, t) ==> Devices(g) <= t
  }

  /**
  The tree while `_add_dev` is at work.  `open` holds the devices whose dependencies are
  still being added; every other device already has all its links.
  */
  ghost predicate Growing(g: Graph, k: KernelDeps, seeds: set<Device>, open: set<Device>) {
    WellLinked(g) && FinishedLinks(g, k, open) && OpenLinks(g, k, open) && RootAbove(g) && InEveryClosure(g, k, seeds)
  }

  /** How the links out of devices change when `d` is linked below `parent`. */
  ghost predicate LinkEffect(g: Graph, h: Graph, parent: Node, d: Device) {
    forall e, c :: Edge(h, Dev(e), c) <==>
      (parent == Dev(e) && c == Dev(d)) || (Edge(g, Dev(e), c) && !(parent == Dev(e) && c == Root))
  }

  /** The links of the devices in `open`, before and after `parent -> d` was added. */
  ghost predicate OnlyNewLink(before: Graph, after: Graph, open: set<Device>, parent: Node, d: Device) {
    && before.uses.Keys <= after.uses.Keys
    && forall o, c :: o in open ==>
         (Edge(after, Dev(o), Dev(c)) <==> Edge(before, Dev(o), Dev(c)) || (parent == Dev(o) && c == d))
  }

  ghost predicate SameLinks(before: Graph, after: Graph, open: set<Device>) {
    && before.uses.Keys <= after.uses.Keys
    && forall o, c :: o in open ==> (Edge(after, Dev(o), Dev(c)) <==> Edge(before, Dev(o), Dev(c)))
  }

  ghost predicate MayLink(k: KernelDeps, seeds: set<Device>, open: set<Device>, parent: Node, d: Device) {
    match parent
    case Root => open == {} && d in seeds
    case Dev(p) => p in open && d in Deps(k, p)
  }

  function WithNode(g: Graph, n: Node): Graph {
    Graph(g.uses[n := []], g.usedBy[n := []])
  }

  lemma WithNodeEdges(g: Graph, n: Node)
    requires WellLinked(g) && n !in g.uses
    ensures var h := WithNode(g, n);
            && WellLinked(h) && h.uses.Keys == g.uses.Keys + {n}
            && forall p, c :: Edge(h, p, c) <==> Edge(g, p, c)
  {
    var h := WithNode(g, n);
    forall p, c
      ensures Edge(h, p, c) <==> Edge(g, p, c)
      ensures Edge(h, p, c) <==> c in h.usedBy && p in h.usedBy[c]
    {
      assert Edge(g, p, c) <==> c in g.usedBy && p in g.usedBy[c];
    }
  }

  lemma NoEdgeToStranger(g: Graph, n: Node)
    requires WellLinked(g) && n !in g.uses
    ensures forall p :: !Edge(g, p, n)
  {
  }

  lemma LinkPreservesParents(g: Graph, h: Graph, parent: Node, d: Device)
    requires WellLinked(g) && parent in g.uses && Dev(d) in g.uses
    requires h == LinkedInTree(g, parent, Dev(d))
    requires forall e :: Dev(e) in g.uses && e != d ==> (Edge(g, Root, Dev(e)) <==> !HasParent(g, e))
    requires HasParent(g, d) ==> !Edge(g, Root, Dev(d))
    ensures RootAbove(h) && LinkEffect(g, h, parent, d)
    ensures WellLinked(h) && h.uses.Keys == g.uses.Keys
  {
    hide LinkedInTree, WellLinked;
    if parent == Root {
      LinkedBelowRoot(g, d);
    } else {
      LinkedBelowDevice(g, parent.dev, d);
    }
    forall e | Dev(e) in h.uses ensures Edge(h, Root, Dev(e)) <==> !HasParent(h, e) {
      if e == d && parent != Root {
        assert Edge(h, parent, Dev(d));
      } else {
        assert forall p :: Edge(h, Dev(p), Dev(e)) <==> Edge(g, Dev(p), Dev(e));
        assert HasParent(h, e) <==> HasParent(g, e);
      }
    }
  }

  lemma LinkKeepsFinished(g: Graph, h: Graph, k: KernelDeps, open: set<Device>, parent: Node, d: Device)
    requires FinishedLinks(g, k, open) && LinkEffect(g, h, parent, d)
    requires parent.Dev? ==> parent.dev in open
    requires h.uses.Keys == g.uses.Keys
    ensures FinishedLinks(h, k, open)
  {
  }

  lemma LinkKeepsOpen(g: Graph, h: Graph, k: KernelDeps, open: set<Device>, parent: Node, d: Device)
    requires OpenLinks(g, k, open) && LinkEffect(g, h, parent, d)
    requires parent.Dev? ==> d in Deps(k, parent.dev)
    requires g.uses.Keys <= h.uses.Keys
    ensures OpenLinks(h, k, open) && OnlyNewLink(g, h, open, parent, d)
  {
  }

  /** One more link below `parent` keeps a growing tree growing. */
  lemma LinkKeepsGrowing(g: Graph, h: Graph, k: KernelDeps, seeds: set<Device>, open: set<Device>, parent: Node,
                         d: Device)
    requires Growing(g, k, seeds, open) && MayLink(k, seeds, open, parent, d) && Dev(d) in g.uses
    requires parent in g.uses && h == LinkedInTree(g, parent, Dev(d))
    ensures Growing(h, k, seeds, open) && OnlyNewLink(g, h, open, parent, d)
    ensures Devices(h) == Devices(g) && (parent != Root ==> Edge(h, parent, Dev(d)))
  {
    LinkPreservesParents(g, h, parent, d);
    hide LinkedInTree, FinishedLinks, OpenLinks, RootAbove, OnlyNewLink;
    LinkKeepsFinished(g, h, k, open, parent, d);
    LinkKeepsOpen(g, h, k, open, parent, d);
    assert Devices(h) == Devices(g);
  }

  /** The links after a node was created below `parent`. */
  lemma NewNodeEdges(g: Graph, h: Graph, parent: Node, d: Device)
    requires WellLinked(g) && Dev(d) !in g.uses && parent in g.uses && RootAbove(g)
    requires h == LinkedInTree(WithNode(g, Dev(d)), parent, Dev(d))
    ensures WellLinked(h) && h.uses.Keys == g.uses.Keys + {Dev(d)}
    ensures RootAbove(h) && LinkEffect(g, h, parent, d)
  {
    WithNodeEdges(g, Dev(d));
    var g1 := WithNode(g, Dev(d));
    forall e | Dev(e) in g.uses ensures Edge(g1, Root, Dev(e)) <==> !HasParent(g1, e) {
      assert forall p :: Edge(g1, Dev(p), Dev(e)) <==> Edge(g, Dev(p), Dev(e));
      assert HasParent(g1, e) <==> HasParent(g, e);
    }
    NoEdgeToStranger(g, Dev(d));
    assert !HasParent(g1, d);
    LinkPreservesParents(g1, h, parent, d);
  }

  lemma NewNodeFinished(g: Graph, h: Graph, k: KernelDeps, open: set<Device>, parent: Node, d: Device)
    requires FinishedLinks(g, k, open) && LinkEffect(g, h, parent, d)
    requires parent.Dev? ==> parent.dev in open
    requires h.uses.Keys == g.uses.Keys + {Dev(d)}
    ensures FinishedLinks(h, k, open + {d})
  {
  }

  lemma NewNodeOpen(g: Graph, h: Graph, k: KernelDeps, open: set<Device>, parent: Node, d: Device)
    requires OpenLinks(h, k, open) && LinkEffect(g, h, parent, d) && Dev(d) !in g.uses && parent in g.uses
    requires h.uses.Keys == g.uses.Keys + {Dev(d)}
    ensures OpenLinks(h, k, open + {d})
  {
    assert forall c :: !Edge(g, Dev(d), c);
    assert forall c :: !Edge(h, Dev(d), c);
  }

  lemma NewNodeInEveryClosure(g: Graph, h: Graph, k: KernelDeps, seeds: set<Device>, open: set<Device>, parent: Node,
                              d: Device)
    requires InEveryClosure(g, k, seeds) && MayLink(k, seeds, open, parent, d) && parent in g.uses
    requires h.uses.Keys == g.uses.Keys + {Dev(d)}
    ensures InEveryClosure(h, k, seeds) && Devices(h) == Devices(g) + {d}
  {
    assert Devices(h) == Devices(g) + {d};
    assert parent.Dev? ==> parent.dev in Devices(g);
    forall t | seeds <= t && Closed(k, t) ensures Devices(h) <= t {
      assert Devices(g) <= t;
    }
  }

  /** A node that was just created and linked becomes the newest open device. */
  lemma OpenNode(g: Graph, h: Graph, k: KernelDeps, seeds: set<Device>, open: set<Device>, parent: Node, d: Device)
    requires Growing(g, k, seeds, open) && MayLink(k, seeds, open, parent, d) && Dev(d) !in g.uses && parent in g.uses
    requires WellLinked(h) && h.uses.Keys == g.uses.Keys + {Dev(d)} && RootAbove(h) && LinkEffect(g, h, parent, d)
    ensures Growing(h, k, seeds, open + {d}) && OnlyNewLink(g, h, open, parent, d)
    ensures Devices(h) == Devices(g) + {d}
  {
    hide FinishedLinks, OpenLinks, RootAbove, InEveryClosure, OnlyNewLink, LinkEffect, WellLinked;
    NewNodeFinished(g, h, k, open, parent, d);
    LinkKeepsOpen(g, h, k, open, parent, d);
    NewNodeOpen(g, h, k, open, parent, d);
    NewNodeInEveryClosure(g, h, k, seeds, open, parent, d);
  }

  function Attached(g: Graph, parent: Node, d: Device): Graph
    requires g.uses.Keys == g.usedBy.Keys && Root in g.uses && parent in g.uses
  {
    LinkedInTree(if Dev(d) in g.uses then g else WithNode(g, Dev(d)), parent, Dev(d))
  }

  lemma AttachedGrows(g: Graph, k: KernelDeps, seeds: set<Device>, open: set<Device>, parent: Node, d: Device)
    requires Growing(g, k, seeds, open) && parent in g.uses && MayLink(k, seeds, open, parent, d)
    ensures var h := Attached(g, parent, d);
            && Growing(h, k, seeds, if Dev(d) in g.uses then open else open + {d})
            && OnlyNewLink(g, h, open, parent, d)
            && Devices(h) == Devices(g) + {d}
            && h.uses.Keys == g.uses.Keys + {Dev(d)}
            && (parent != Root ==> Edge(h, parent, Dev(d)))
  {
    var h := Attached(g, parent, d);
    if Dev(d) in g.uses {
      LinkKeepsGrowing(g, h, k, seeds, open, parent, d);
    } else {
      NewNodeEdges(g, h, parent, d);
      assert parent != Root ==> Edge(h, parent, Dev(d));
      OpenNode(g, h, k, seeds, open, parent, d);
    }
  }

  ghost predicate LinkedUpTo(g: Graph, d: Device, deps: seq<Device>, n: nat)
    requires n <= |deps|
  {
    forall j :: 0 <= j < n ==> Edge(g, Dev(d), Dev(deps[j]))
  }

  lemma OneMoreLink(start: Graph, before: Graph, after: Graph, open: set<Device>, d: Device, deps: seq<Device>, i: nat)
    requires i < |deps| && d !in open && SameLinks(start, before, open)
    requires LinkedUpTo(before, d, deps, i) && Edge(after, Dev(d), Dev(deps[i]))
    requires OnlyNewLink(before, after, open + {d}, Dev(d), deps[i])
    ensures LinkedUpTo(after, d, deps, i + 1) && SameLinks(start, after, open)
  {
    forall j | 0 <= j < i + 1 ensures Edge(after, Dev(d), Dev(deps[j])) {
      if j < i { assert Edge(before, Dev(d), Dev(deps[j])); }
    }
    forall o, c | o in open ensures Edge(after, Dev(o), Dev(c)) <==> Edge(start, Dev(o), Dev(c)) {
      assert Edge(before, Dev(o), Dev(c)) <==> Edge(start, Dev(o), Dev(c));
      assert o in open + {d};
    }
  }

  /** A device all of whose dependencies were linked is finished. */
  lemma CloseNode(g: Graph, k: KernelDeps, seeds: set<Device>, open: set<Device>, d: Device)
    requires Growing(g, k, seeds, open + {d}) && d !in open && Deps(k, d) != []
    requires LinkedUpTo(g, d, Deps(k, d), |Deps(k, d)|)
    ensures Growing(g, k, seeds, open)
  {
  }

  /** A device without dependencies is finished once the root is its child. */
  lemma CloseLeaf(g: Graph, h: Graph, k: KernelDeps, seeds: set<Device>, open: set<Device>, d: Device)
    requires Growing(g, k, seeds, open + {d}) && d !in open && Deps(k, d) == []
    requires h == Linked(g, Dev(d), Root)
    ensures Growing(h, k, seeds, open) && Devices(h) == Devices(g)
    ensures forall p, c :: Edge(h, p, Dev(c)) <==> Edge(g, p, Dev(c))
  {
    assert Dev(d) in g.uses;
    LinkedEdges(g, Dev(d), Root);
    hide WellLinked, Linked, FinishedLinks, OpenLinks, RootAbove;
    LeafKeepsRootAbove(g, h, d);
    LeafFinished(g, h, k, open, d);
    LeafKeepsOpen(g, h, k, open, d);
    assert Devices(h) == Devices(g);
  }

  lemma LeafFinished(g: Graph, h: Graph, k: KernelDeps, open: set<Device>, d: Device)
    requires FinishedLinks(g, k, open + {d}) && OpenLinks(g, k, open + {d}) && Deps(k, d) == []
    requires h.uses.Keys == g.uses.Keys
    requires forall p, c :: Edge(h, p, c) <==> Edge(g, p, c) || (p == Dev(d) && c == Root)
    ensures FinishedLinks(h, k, open)
  {
  }

  lemma LeafKeepsOpen(g: Graph, h: Graph, k: KernelDeps, open: set<Device>, d: Device)
    requires OpenLinks(g, k, open + {d}) && d !in open && h.uses.Keys == g.uses.Keys
    requires forall p, c :: Edge(h, p, c) <==> Edge(g, p, c) || (p == Dev(d) && c == Root)
    ensures OpenLinks(h, k, open)
  {
  }

  lemma LeafKeepsRootAbove(g: Graph, h: Graph, d: Device)
    requires RootAbove(g) && h.uses.Keys == g.uses.Keys
    requires forall p, c :: Edge(h, p, c) <==> Edge(g, p, c) || (p == Dev(d) && c == Root)
    ensures RootAbove(h)
  {
    forall e | Dev(e) in h.uses ensures Edge(h, Root, Dev(e)) <==> !HasParent(h, e) {
      assert forall p :: Edge(h, Dev(p), Dev(e)) <==> Edge(g, Dev(p), Dev(e));
      assert HasParent(h, e) <==> HasParent(g, e);
    }
  }

  lemma GrownIsExact(g: Graph, k: KernelDeps, seeds: set<Device>)
    requires Growing(g, k, seeds, {}) && seeds <= Devices(g)
    ensures Exact(g, k, seeds)
  {
    forall d, c | d in Devices(g) && c in Deps(k, d) ensures c in Devices(g) {
      assert Edge(g, Dev(d), Dev(c));
      assert Dev(c) in g.usedBy && Dev(d) in g.usedBy[Dev(c)];
    }
  }

  lemma ExactIsGrowing(g: Graph, k: KernelDeps, added: set<Device>, seeds: set<Device>)
    requires Exact(g, k, added) && added <= seeds
    ensures Growing(g, k, seeds, {})
  {
  }

  /** Every device the kernel knows of; the recursion of `_add_dev` stays inside it. */
  ghost function Universe(k: KernelDeps): set<Device> {
    k.Keys + set p, c | p in k && c in k[p] :: c
  }

  lemma DevicesInUniverse(k: KernelDeps, seeds: set<Device>, open: set<Device>, parent: Node, d: Device)
    requires MayLink(k, seeds, open, parent, d)
    ensures d in Universe(k) + seeds
  {
  }

  /** Nodes are only added, and none for a device whose dependency query fails. */
  ghost predicate OnlyAnswered(before: Graph, after: Graph, failing: set<Device>) {
    before.uses.Keys <= after.uses.Keys && forall d :: d in failing && Dev(d) in after.uses ==> Dev(d) in before.uses
  }

  /** Everything in the closed set `s` is in the tree already or answers its query. */
  ghost predicate Spares(k: KernelDeps, g: Graph, failing: set<Device>, s: set<Device>) {
    Closed(k, s) && forall d :: d in s && d in failing ==> Dev(d) in g.uses
  }

  lemma AnsweredSelf(g: Graph, failing: set<Device>)
    ensures OnlyAnswered(g, g, failing)
  {
  }

  lemma AnsweredSame(g: Graph, h: Graph, failing: set<Device>)
    requires h.uses.Keys == g.uses.Keys
    ensures OnlyAnswered(g, h, failing)
  {
  }

  lemma OnlyNewLinkThenSame(a: Graph, b: Graph, c: Graph, open: set<Device>, parent: Node, d: Device)
    requires OnlyNewLink(a, b, open, parent, d) && Dev(d) in b.uses
    ensures SameLinks(b, c, open) ==> OnlyNewLink(a, c, open, parent, d) && Dev(d) in c.uses
  {
  }

  lemma AnsweredOn(a: Graph, b: Graph, c: Graph, failing: set<Device>)
    requires OnlyAnswered(a, b, failing) && OnlyAnswered(b, c, failing)
    ensures OnlyAnswered(a, c, failing)
  {
  }

  lemma AnsweredAttached(g: Graph, h: Graph, failing: set<Device>, d: Device)
    requires h.uses.Keys == g.uses.Keys + {Dev(d)} && (d in failing ==> Dev(d) in g.uses)
    ensures OnlyAnswered(g, h, failing)
  {
  }

  lemma SparesOn(k: KernelDeps, g: Graph, h: Graph, failing: set<Device>, s: set<Device>)
    requires OnlyAnswered(g, h, failing) && Spares(k, g, failing, s)
    ensures Spares(k, h, failing, s)
  {
  }

  class Tree {
    var g: Graph

    constructor ()
      ensures Exact(g, map[], {}) && Devices(g) == {}
      ensures forall k :: Exact(g, k, {})
    {
      g := Graph(map[Root := []], map[Root := []]);
      new;
      assert Devices(g) == {};
    }

    method LinkNodes(parent: Node, child: Node)
      requires parent in g.uses && child in g.usedBy
      modifies this
      ensures g == Linked(old(g), parent, child)
    {
      if child in g.uses[parent] {
        return;
      }
      g := g.(uses := g.uses[parent := g.uses[parent] + [child]]);
      g := g.(usedBy := g.usedBy[child := g.usedBy[child] + [parent]]);
    }

    method UnlinkNodes(parent: Node, child: Node)
      requires parent in g.uses && child in g.usedBy
      modifies this
      ensures g == Unlinked(old(g), parent, child)
    {
      if child !in g.uses[parent] {
        return;
      }
      g := g.(uses := g.uses[parent := WithoutFirst(g.uses[parent], child)]);
      g := g.(usedBy := g.usedBy[child := WithoutFirst(g.usedBy[child], parent)]);
    }

    method LinkTreeNodes(parent: Node, child: Node)
      requires WellLinked(g) && parent in g.uses && child in g.uses
      requires parent != Root || child != Root
      modifies this
      ensures g == LinkedInTree(old(g), parent, child)
    {
      if parent == Root {
        if NumParents(g, child) != 0 {
          return;
        }
      } else {
        UnlinkNodes(Root, child);
      }
      if child == Root {
        if NumChildren(g, parent) != 0 {
          return;
        }
      } else {
        UnlinkNodes(parent, Root);
      }
      LinkNodes(parent, child);
    }

    /** The part of `_add_dev` that finds or creates the node and links it to its parent. */
    method FindOrCreate(failing: set<Device>, parent: Node, d: Device) returns (ok: bool, isNew: bool)
      requires WellLinked(g) && parent in g.uses
      modifies this
      ensures isNew == (Dev(d) !in old(g).uses)
      ensures ok == !(isNew && d in failing)
      ensures g == if !ok then old(g) else Attached(old(g), parent, d)
    {
      isNew := Dev(d) !in g.uses;
      if isNew {
        if d in failing {
          return false, isNew;
        }
        WithNodeEdges(g, Dev(d));
        g := WithNode(g, Dev(d));
      }
      LinkTreeNodes(parent, Dev(d));
      return true, isNew;
    }

    /**
    `_add_dev`.  `failing` holds the devices whose dependency query fails; the first such
    failure ends the whole call.
    */
    method AddDev(k: KernelDeps, failing: set<Device>, parent: Node, d: Device,
                  ghost seeds: set<Device>, ghost open: set<Device>) returns (ok: bool)
      requires Growing(g, k, seeds, open) && parent in g.uses && MayLink(k, seeds, open, parent, d)
      modifies this
      ensures WellLinked(g)
      ensures ok ==> Growing(g, k, seeds, open) && Dev(d) in g.uses && OnlyNewLink(old(g), g, open, parent, d)
      ensures ok && parent != Root ==> Edge(g, parent, Dev(d))
      ensures OnlyAnswered(old(g), g, failing)
      ensures forall s :: d in s && Spares(k, old(g), failing, s) ==> ok
      decreases Universe(k) + seeds - Devices(g), 1
    {
      hide FinishedLinks, RootAbove, InEveryClosure, OnlyAnswered, OnlyNewLink, SameLinks;
      DevicesInUniverse(k, seeds, open, parent, d);
      AnsweredSelf(g, failing);
      var found, isNew := FindOrCreate(failing, parent, d);
      if !found {
        return false;
      }
      AttachedGrows(old(g), k, seeds, open, parent, d);
      ghost var h := g;
      AnsweredAttached(old(g), h, failing, d);
      if !isNew {
        return true;
      }
      ok := Descend(k, failing, d, seeds, open);
      AnsweredOn(old(g), h, g, failing);
      OnlyNewLinkThenSame(old(g), h, g, open, parent, d);
      forall s | d in s && Spares(k, old(g), failing, s) ensures ok { SparesOn(k, old(g), h, failing, s); }
    }

    /** What `_add_dev` does with a node it created: hang it above the root, or go on with its dependencies. */
    method Descend(k: KernelDeps, failing: set<Device>, d: Device, ghost seeds: set<Device>, ghost open: set<Device>)
      returns (ok: bool)
      requires Growing(g, k, seeds, open + {d}) && d !in open
      modifies this
      ensures WellLinked(g)
      ensures ok ==> Growing(g, k, seeds, open) && SameLinks(old(g), g, open)
      ensures OnlyAnswered(old(g), g, failing)
      ensures forall s :: d in s && Spares(k, old(g), failing, s) ==> ok
      decreases Universe(k) + seeds - Devices(g), 3
    {
      hide FinishedLinks, RootAbove, InEveryClosure, OnlyAnswered;
      if Deps(k, d) == [] {
        CloseLeaf(g, Linked(g, Dev(d), Root), k, seeds, open, d);
        AnsweredSame(g, Linked(g, Dev(d), Root), failing);
        LinkNodes(Dev(d), Root);
        ok := true;
      } else {
        ok := AddDependencies(k, failing, d, seeds, open);
      }
    }

    /** The loop of `_add_dev` over the dependencies of a new node. */
    method AddDependencies(k: KernelDeps, failing: set<Device>, d: Device,
                           ghost seeds: set<Device>, ghost open: set<Device>) returns (ok: bool)
      requires Growing(g, k, seeds, open + {d}) && d !in open && Deps(k, d) != []
      modifies this
      ensures WellLinked(g)
      ensures ok ==> Growing(g, k, seeds, open) && SameLinks(old(g), g, open)
      ensures OnlyAnswered(old(g), g, failing)
      ensures forall s :: d in s && Spares(k, old(g), failing, s) ==> ok
      decreases Universe(k) + seeds - Devices(g), 2
    {
      hide FinishedLinks, RootAbove, InEveryClosure, OnlyNewLink, WellLinked, OnlyAnswered;
      var deps := Deps(k, d);
      ghost var start := g;
      AnsweredSelf(g, failing);
      for i := 0 to |deps|
        invariant OnlyAnswered(start, g, failing)
        invariant Growing(g, k, seeds, open + {d})
        invariant LinkedUpTo(g, d, deps, i)
        invariant SameLinks(start, g, open)
      {
        ghost var before := g;
        var done := AddDev(k, failing, Dev(d), deps[i], seeds, open + {d});
        AnsweredOn(start, before, g, failing);
        if !done {
          forall s | d in s && Spares(k, start, failing, s) ensures false { SparesOn(k, start, before, failing, s); }
          return false;
        }
        OneMoreLink(start, before, g, open, d, deps, i);
      }
      CloseNode(g, k, seeds, open, d);
      return true;
    }

    /** `dm_tree_add_dev`: the tree of `added` becomes the tree of `added + {d}`. */
    method AddDevice(k: KernelDeps, failing: set<Device>, d: Device, ghost added: set<Device>) returns (ok: bool)
      requires Exact(g, k, added)
      modifies this
      ensures WellLinked(g)
      ensures ok ==> Exact(g, k, added + {d})
      ensures OnlyAnswered(old(g), g, failing)
      ensures ok <==> exists s :: d in s && Spares(k, old(g), failing, s)
    {
      ExactIsGrowing(g, k, added, added + {d});
      ghost var before := g;
      ok := AddDev(k, failing, Root, d, added + {d}, {});
      if ok {
        forall x | x in added + {d} ensures x in Devices(g) {
          if x in added { assert Dev(x) in before.uses; }
        }
        GrownIsExact(g, k, added + {d});
        assert d in Devices(g) && Spares(k, before, failing, Devices(g));
      }
    }
  }

  lemma EverythingSpared(k: KernelDeps, g: Graph, d: Device)
    ensures exists s :: d in s && Spares(k, g, {}, s)
  {
    assert d in Universe(k) + {d} && Closed(k, Universe(k) + {d});
    assert Spares(k, g, {}, Universe(k) + {d});
  }

  /** Any sequence of successful additions gives the tree of all of them. */
  method BuildTree(k: KernelDeps, ds: seq<Device>) returns (t: Tree)
    ensures fresh(t) && Exact(t.g, k, Elements(ds))
  {
    hide Exact;
    t := new Tree();
    ghost var added: set<Device> := {};
    for i := 0 to |ds|
      invariant fresh(t)
      invariant added == Elements(ds[..i])
      invariant Exact(t.g, k, added)
    {
      EverythingSpared(k, t.g, ds[i]);
      var ok := t.AddDevice(k, {}, ds[i], added);
      added := added + {ds[i]};
      assert ds[..i+1] == ds[..i] + [ds[i]];
    }
    assert ds[..|ds|] == ds;
  }
}
