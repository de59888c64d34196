/**
The nodes and links of a device dependency tree (`dm_tree_node`, `dm_tree_link`).

A tree has one root and one node per device number.  Every link is stored twice:
in the `uses` list of the parent and in the `usedBy` list of the child.  The root is
at once the parent of every node without another parent and the child of every node
without another child.
*/
module Links {

  /** A device number, major and minor packed together. */
  type Device = nat

  datatype Node = Root | Dev(dev: Device)

  datatype Graph = Graph(uses: map<Node, seq<Node>>, usedBy: map<Node, seq<Node>>)

  ghost predicate Distinct<T>(s: seq<T>) {
    forall i, j :: 0 <= i < j < |s| ==> s[i] != s[j]
  }

  ghost function Elements<T>(s: seq<T>): set<T> {
    set x | x in s
  }

  function WithoutFirst<T(==)>(s: seq<T>, x: T): seq<T> {
    if s == [] then []
    else if s[0] == x then s[1..]
    else [s[0]] + WithoutFirst(s[1..], x)
  }

  lemma {:induction false} WithoutFirstOfDistinct<T>(s: seq<T>, x: T)
    requires Distinct(s)
    ensures Distinct(WithoutFirst(s, x))
    ensures forall y :: y in WithoutFirst(s, x) <==> y in s && y != x
  {
    if s != [] {
      var rest := s[1..];
      assert forall y :: y in s <==> y == s[0] || y in rest;
      if s[0] != x {
        WithoutFirstOfDistinct(rest, x);
        var w := WithoutFirst(rest, x);
        assert forall y :: y in [s[0]] + w <==> y == s[0] || y in w;
        assert s[0] !in w;
      }
    }
  }

  ghost predicate Edge(g: Graph, parent: Node, child: Node) {
    parent in g.uses && child in g.uses[parent]
  }

  /** Both lists of every link exist, agree, and hold no node twice. */
  ghost predicate WellLinked(g: Graph) {
    && g.uses.Keys == g.usedBy.Keys
    && Root in g.uses
    && (forall n :: n in g.uses ==> Distinct(g.uses[n]) && Distinct(g.usedBy[n]))
    && (forall p, c :: Edge(g, p, c) <==> c in g.usedBy && p in g.usedBy[c])
    && !Edge(g, Root, Root)
  }

  function Linked(g: Graph, parent: Node, child: Node): Graph
    requires parent in g.uses && child in g.usedBy
  {
    if child in g.uses[parent] then g
    else Graph(g.uses[parent := g.uses[parent] + [child]], g.usedBy[child := g.usedBy[child] + [parent]])
  }

  function Unlinked(g: Graph, parent: Node, child: Node): Graph
    requires parent in g.uses && child in g.usedBy
  {
    if child !in g.uses[parent] then g
    else Graph(g.uses[parent := WithoutFirst(g.uses[parent], child)],
               g.usedBy[child := WithoutFirst(g.usedBy[child], parent)])
  }

  /** `dm_tree_node_num_children` with `inverted` clear. */
  function NumChildren(g: Graph, n: Node): nat
    requires n in g.uses
  {
    if Root in g.uses[n] then 0 else |g.uses[n]|
  }

  /** `dm_tree_node_num_children` with `inverted` set. */
  function NumParents(g: Graph, n: Node): nat
    requires Root in g.uses && n in g.usedBy
  {
    if n in g.uses[Root] then 0 else |g.usedBy[n]|
  }

  lemma LinkedEdges(g: Graph, parent: Node, child: Node)
    requires WellLinked(g) && parent in g.uses && child in g.uses
    requires parent != Root || child != Root
    ensures WellLinked(Linked(g, parent, child))
    ensures Linked(g, parent, child).uses.Keys == g.uses.Keys
    ensures forall p, c :: Edge(Linked(g, parent, child), p, c) <==> Edge(g, p, c) || (p == parent && c == child)
  {
    var h := Linked(g, parent, child);
    forall p, c
      ensures Edge(h, p, c) <==> Edge(g, p, c) || (p == parent && c == child)
      ensures Edge(h, p, c) <==> c in h.usedBy && p in h.usedBy[c]
    {
      assert Edge(g, p, c) <==> c in g.usedBy && p in g.usedBy[c];
    }
    assert !Edge(g, parent, child) ==> parent !in g.usedBy[child];
  }

  lemma UnlinkedEdges(g: Graph, parent: Node, child: Node)
    requires WellLinked(g) && parent in g.uses && child in g.uses
    ensures WellLinked(Unlinked(g, parent, child))
    ensures Unlinked(g, parent, child).uses.Keys == g.uses.Keys
    ensures forall p, c :: Edge(Unlinked(g, parent, child), p, c) <==> Edge(g, p, c) && !(p == parent && c == child)
  {
    var h := Unlinked(g, parent, child);
    WithoutFirstOfDistinct(g.uses[parent], child);
    WithoutFirstOfDistinct(g.usedBy[child], parent);
    forall p, c
      ensures Edge(h, p, c) <==> Edge(g, p, c) && !(p == parent && c == child)
      ensures Edge(h, p, c) <==> c in h.usedBy && p in h.usedBy[c]
    {
      assert Edge(g, p, c) <==> c in g.usedBy && p in g.usedBy[c];
    }
  }
}
