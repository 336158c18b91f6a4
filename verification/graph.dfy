/** The level-2 graph frame (`NetworkFrame`): an ordered node index and an ordered
    table of directed `(source, target)` edges, with the operations the edit code uses
    and its undirected connected components.

    The frame library itself is not part of this model. Two of its behaviours are
    assumptions made explicit here:
    - removing nodes also drops every edge that touches a removed node;
    - two frames are equal when they hold the same node ids and the same ordered
      edge pairs, regardless of row order. */
module Graphs {
  import opened Seqs
  import opened Wrappers

  /** One row of an edge table; edges are ordered pairs. */
  datatype Edge = Edge(source: int, target: int)

  /** A frame: node index and edge table, both in row order. */
  datatype Graph = Graph(nodes: seq<int>, edges: seq<Edge>)

  function NodeSet(g: Graph): set<int> { Elems(g.nodes) }

  function EdgeSet(g: Graph): set<Edge> { Elems(g.edges) }

  /** Frame equality as assumed for `==`: same node ids, same ordered edge pairs. */
  predicate Same(g: Graph, h: Graph) {
    NodeSet(g) == NodeSet(h) && EdgeSet(g) == EdgeSet(h)
  }

  predicate Touches(e: Edge, ids: set<int>) {
    e.source in ids || e.target in ids
  }

  /** `add_nodes`: the new rows are appended to the node table. */
  function PlusNodes(g: Graph, ns: seq<int>): (r: Graph)
    ensures NodeSet(r) == NodeSet(g) + Elems(ns)
    ensures r.edges == g.edges
  {
    Graph(g.nodes + ns, g.edges)
  }

  /** `add_edges`: the new rows are appended to the edge table. */
  function PlusEdges(g: Graph, es: seq<Edge>): (r: Graph)
    ensures EdgeSet(r) == EdgeSet(g) + Elems(es)
    ensures r.nodes == g.nodes
  {
    Graph(g.nodes, g.edges + es)
  }

  /** `remove_nodes`: drops the listed node ids and (assumed) every edge touching one. */
  function MinusNodes(g: Graph, ids: seq<int>): (r: Graph)
    ensures NodeSet(r) == NodeSet(g) - Elems(ids)
    ensures EdgeSet(r) == set e | e in EdgeSet(g) && !Touches(e, Elems(ids))
  {
    var keepNode := (v: int) => v !in ids;
    var keepEdge := (e: Edge) => e.source !in ids && e.target !in ids;
    Graph(Filter(g.nodes, keepNode), Filter(g.edges, keepEdge))
  }

  /** `remove_edges`: drops every edge row whose `(source, target)` pair is listed. */
  function MinusEdges(g: Graph, es: seq<Edge>): (r: Graph)
    ensures EdgeSet(r) == EdgeSet(g) - Elems(es)
    ensures r.nodes == g.nodes
  {
    var keepEdge := (e: Edge) => e !in es;
    Graph(g.nodes, Filter(g.edges, keepEdge))
  }

  /** The sub-frame on the node ids in `s`, with the edges among them. */
  function Induced(g: Graph, s: set<int>): (r: Graph)
    ensures NodeSet(r) == NodeSet(g) * s
    ensures EdgeSet(r) == set e | e in EdgeSet(g) && e.source in s && e.target in s
  {
    var keepNode := (v: int) => v in s;
    var keepEdge := (e: Edge) => e.source in s && e.target in s;
    Graph(Filter(g.nodes, keepNode), Filter(g.edges, keepEdge))
  }

  // ---------------------------------------------------------------------------
  // Undirected connected components, computed by merging labels edge by edge.

  /** Two nodes are adjacent when an edge joins them in either direction. */
  predicate Adjacent(es: set<Edge>, u: int, v: int) {
    Edge(u, v) in es || Edge(v, u) in es
  }

  /** `p` walks along edges of `es`, ignoring their direction. */
  ghost predicate Walk(es: set<Edge>, p: seq<int>) {
    forall k :: 0 <= k < |p| - 1 ==> Adjacent(es, p[k], p[k + 1])
  }

  /** `a` and `b` are joined by a walk in `es`. */
  ghost predicate Linked(es: set<Edge>, a: int, b: int) {
    exists p :: |p| > 0 && p[0] == a && p[|p| - 1] == b && Walk(es, p)
  }

  /** Every node starts alone, labelled by its own id. */
  function InitialLabels(nodes: seq<int>): (m: map<int, int>)
    ensures m.Keys == Elems(nodes)
    ensures forall v :: v in m ==> m[v] == v
  {
    map v | v in Elems(nodes) :: v
  }

  /** Joining the two classes of an edge's endpoints: the target's class takes the
      source's label. Edges with an endpoint outside the node index are ignored. */
  function Join(m: map<int, int>, e: Edge): (r: map<int, int>)
    ensures r.Keys == m.Keys
    ensures forall x, y :: x in m && y in m && m[x] == m[y] ==> r[x] == r[y]
    ensures e.source in m && e.target in m ==> r[e.source] == r[e.target]
  {
    if e.source in m && e.target in m then
      var a, b := m[e.source], m[e.target];
      map k | k in m :: if m[k] == b then a else m[k]
    else m
  }

  /** The component label of every node after joining along the first `|es|` edges. */
  function Labels(nodes: seq<int>, es: seq<Edge>): (m: map<int, int>)
    ensures m.Keys == Elems(nodes)
    ensures forall i :: 0 <= i < |es| && es[i].source in m && es[i].target in m ==>
      m[es[i].source] == m[es[i].target]
  {
    if |es| == 0 then InitialLabels(nodes)
    else
      var m0 := Labels(nodes, es[..|es| - 1]);
      var m := Join(m0, es[|es| - 1]);
      assert forall i :: 0 <= i < |es| - 1 ==> es[i] == es[..|es| - 1][i];
      m
  }

  lemma WalkMono(es: set<Edge>, fs: set<Edge>, p: seq<int>)
    requires es <= fs && Walk(es, p)
    ensures Walk(fs, p)
  {
  }

  lemma WalkJoin(es: set<Edge>, p: seq<int>, q: seq<int>)
    requires |p| > 0 && |q| > 0 && Walk(es, p) && Walk(es, q)
    requires Adjacent(es, p[|p| - 1], q[0])
    ensures Walk(es, p + q)
  {
    var w := p + q;
    forall k | 0 <= k < |w| - 1 ensures Adjacent(es, w[k], w[k + 1]) {
      if k < |p| - 1 {
        assert w[k] == p[k] && w[k + 1] == p[k + 1];
      } else if k == |p| - 1 {
        assert w[k] == p[|p| - 1] && w[k + 1] == q[0];
      } else {
        assert w[k] == q[k - |p|] && w[k + 1] == q[k - |p| + 1];
      }
    }
  }

  /** Extends a walk from `a` to `x` by a walk from `y` to `b`, across an edge `x`–`y`. */
  lemma LinkedAcross(es: set<Edge>, a: int, x: int, y: int, b: int)
    requires Linked(es, a, x) && Adjacent(es, x, y) && Linked(es, y, b)
    ensures Linked(es, a, b)
  {
    var p :| |p| > 0 && p[0] == a && p[|p| - 1] == x && Walk(es, p);
    var q :| |q| > 0 && q[0] == y && q[|q| - 1] == b && Walk(es, q);
    WalkJoin(es, p, q);
    assert (p + q)[0] == a && (p + q)[|p + q| - 1] == b;
  }

  lemma LinkedMono(es: set<Edge>, fs: set<Edge>, a: int, b: int)
    requires es <= fs && Linked(es, a, b)
    ensures Linked(fs, a, b)
  {
    var p :| |p| > 0 && p[0] == a && p[|p| - 1] == b && Walk(es, p);
    WalkMono(es, fs, p);
  }

  /** Labels never join more than connectivity allows: two nodes with the same label
      are linked by a walk along the edges. */
  lemma {:induction false} LabelsLinked(nodes: seq<int>, es: seq<Edge>, a: int, b: int)
    requires a in Labels(nodes, es) && b in Labels(nodes, es)
    requires Labels(nodes, es)[a] == Labels(nodes, es)[b]
    ensures Linked(Elems(es), a, b)
  {
    if |es| == 0 {
      assert a == b;
      var p := [a];
      assert p[0] == a && p[|p| - 1] == b && Walk(Elems(es), p);
    } else {
      var pre := es[..|es| - 1];
      var e := es[|es| - 1];
      var m0 := Labels(nodes, pre);
      assert Elems(pre) <= Elems(es);
      assert Adjacent(Elems(es), e.source, e.target) by { assert e in Elems(es); }
      if e.source in m0 && e.target in m0 && m0[a] != m0[b] {
        var la, lb := m0[e.source], m0[e.target];
        if m0[a] == lb {
          // a lies in the target's class, b in the source's class
          LabelsLinked(nodes, pre, a, e.target);
          LabelsLinked(nodes, pre, e.source, b);
          LinkedMono(Elems(pre), Elems(es), a, e.target);
          LinkedMono(Elems(pre), Elems(es), e.source, b);
          LinkedAcross(Elems(es), a, e.target, e.source, b);
        } else {
          LabelsLinked(nodes, pre, a, e.source);
          LabelsLinked(nodes, pre, e.target, b);
          LinkedMono(Elems(pre), Elems(es), a, e.source);
          LinkedMono(Elems(pre), Elems(es), e.target, b);
          LinkedAcross(Elems(es), a, e.source, e.target, b);
        }
      } else {
        LabelsLinked(nodes, pre, a, b);
        LinkedMono(Elems(pre), Elems(es), a, b);
      }
    }
  }

  /** The component label of each node of `g`. */
  function NodeLabels(g: Graph): map<int, int> {
    Labels(g.nodes, g.edges)
  }

  /** The node ids of the undirected component of `x`. */
  function ComponentOf(g: Graph, x: int): set<int>
    requires x in NodeSet(g)
  {
    var m := NodeLabels(g);
    set v | v in NodeSet(g) && m[v] == m[x]
  }

  /** The component labels in order of first appearance in the node index, which is
      the order in which components are enumerated. */
  function ComponentLabels(g: Graph): (labs: seq<int>)
    ensures NoDup(labs)
  {
    var m := NodeLabels(g);
    Dedup(seq(|g.nodes|, i requires 0 <= i < |g.nodes| => m[g.nodes[i]]))
  }

  /** `connected_components()`: one sub-frame per component, in enumeration order. */
  function Components(g: Graph): (cs: seq<Graph>)
    ensures |cs| == |ComponentLabels(g)|
  {
    var m := NodeLabels(g);
    var labs := ComponentLabels(g);
    seq(|labs|, i requires 0 <= i < |labs| =>
      Induced(g, set v | v in NodeSet(g) && m[v] == labs[i]))
  }

  /** The index of the first frame in `cs` whose node index holds `x`. */
  function FirstContaining(cs: seq<Graph>, x: int): (r: Option<nat>)
    ensures r.Some? ==> r.value < |cs| && x in NodeSet(cs[r.value])
    ensures r.Some? ==> forall j :: 0 <= j < r.value ==> x !in NodeSet(cs[j])
    ensures r.None? ==> forall j :: 0 <= j < |cs| ==> x !in NodeSet(cs[j])
  {
    if |cs| == 0 then None
    else if x in NodeSet(cs[0]) then Some(0)
    else match FirstContaining(cs[1..], x)
      case None => None
      case Some(k) => Some(k + 1)
  }

  /** The first component that holds `x`, or None: the lookup every script does by
      looping over `connected_components()`. */
  function FindComponent(g: Graph, x: int): Option<Graph> {
    var cs := Components(g);
    match FirstContaining(cs, x)
    case None => None
    case Some(i) => Some(cs[i])
  }

  /** The loop over `connected_components()` that returns the first component whose
      node index holds `x`, or None once the components are exhausted. */
  method SearchComponents(g: Graph, x: int) returns (r: Option<Graph>)
    ensures r == FindComponent(g, x)
  {
    var cs := Components(g);
    var i := 0;
    while i < |cs|
      invariant 0 <= i <= |cs|
      invariant forall j :: 0 <= j < i ==> x !in NodeSet(cs[j])
    {
      if x in cs[i].nodes {
        return Some(cs[i]);
      }
      i := i + 1;
    }
    return None;
  }

  /** A component holds exactly the nodes that carry its label. */
  lemma ComponentNodes(g: Graph, i: nat)
    requires i < |Components(g)|
    ensures NodeSet(Components(g)[i]) ==
      set v | v in NodeSet(g) && NodeLabels(g)[v] == ComponentLabels(g)[i]
  {
  }

  /** The components are pairwise disjoint, and every node lies in one of them. */
  lemma ComponentsPartition(g: Graph)
    ensures forall i, j :: 0 <= i < j < |Components(g)| ==>
      NodeSet(Components(g)[i]) !! NodeSet(Components(g)[j])
    ensures forall v :: v in NodeSet(g) ==>
      exists i :: 0 <= i < |Components(g)| && v in NodeSet(Components(g)[i])
  {
    var m := NodeLabels(g);
    var labs := ComponentLabels(g);
    var cs := Components(g);
    var ls := seq(|g.nodes|, i requires 0 <= i < |g.nodes| => m[g.nodes[i]]);
    forall i, j | 0 <= i < j < |cs| ensures NodeSet(cs[i]) !! NodeSet(cs[j]) {
      ComponentNodes(g, i);
      ComponentNodes(g, j);
    }
    forall v | v in NodeSet(g)
      ensures exists i :: 0 <= i < |cs| && v in NodeSet(cs[i])
    {
      var k :| 0 <= k < |g.nodes| && g.nodes[k] == v;
      assert ls[k] in Elems(labs);
      var i :| 0 <= i < |labs| && labs[i] == m[v];
      ComponentNodes(g, i);
      assert v in NodeSet(cs[i]);
    }
  }

  /** No component is empty: each label comes from a node that carries it. */
  lemma ComponentNonEmpty(g: Graph, i: nat)
    requires i < |Components(g)|
    ensures NodeSet(Components(g)[i]) != {}
  {
    var m := NodeLabels(g);
    var labs := ComponentLabels(g);
    var ls := seq(|g.nodes|, k requires 0 <= k < |g.nodes| => m[g.nodes[k]]);
    assert labs[i] in Elems(ls);
    var k :| 0 <= k < |ls| && ls[k] == labs[i];
    ComponentNodes(g, i);
    assert g.nodes[k] in NodeSet(Components(g)[i]);
  }

  /** The lookup finds a component exactly when `x` is a node, and then it is the
      sub-frame on the component of `x`. */
  lemma FindComponentSpec(g: Graph, x: int)
    ensures FindComponent(g, x).Some? <==> x in NodeSet(g)
    ensures x in NodeSet(g) ==>
      var c := FindComponent(g, x).value;
      NodeSet(c) == ComponentOf(g, x) &&
      EdgeSet(c) == (set e | e in EdgeSet(g) && e.source in NodeSet(c) && e.target in NodeSet(c))
  {
    var cs := Components(g);
    ComponentsPartition(g);
    var r := FirstContaining(cs, x);
    if x in NodeSet(g) {
      assert r.Some?;
      ComponentNodes(g, r.value);
    } else if r.Some? {
      ComponentNodes(g, r.value);
    }
  }

  /** Every node of the component of `x` is linked to `x` by a walk. */
  lemma ComponentLinked(g: Graph, x: int)
    requires x in NodeSet(g)
    ensures forall v :: v in ComponentOf(g, x) ==> Linked(EdgeSet(g), x, v)
  {
    forall v | v in ComponentOf(g, x) ensures Linked(EdgeSet(g), x, v) {
      LabelsLinked(g.nodes, g.edges, x, v);
    }
  }

  /** An edge between two nodes never leaves a component: the component of `x`
      holds both of its ends or neither. */
  lemma ComponentClosed(g: Graph, x: int)
    requires x in NodeSet(g)
    ensures forall e :: e in EdgeSet(g) && e.source in NodeSet(g) && e.target in NodeSet(g) ==>
      (e.source in ComponentOf(g, x) <==> e.target in ComponentOf(g, x))
  {
    var m := NodeLabels(g);
    forall e | e in EdgeSet(g) && e.source in NodeSet(g) && e.target in NodeSet(g)
      ensures e.source in ComponentOf(g, x) <==> e.target in ComponentOf(g, x)
    {
      var j :| 0 <= j < |g.edges| && g.edges[j] == e;
      assert m[e.source] == m[e.target];
    }
  }

  /** Enumerated components are closed too: an edge between two nodes has both ends
      in component `i` or neither. */
  lemma ComponentEdgeInside(g: Graph, i: nat, e: Edge)
    requires i < |Components(g)|
    requires e in EdgeSet(g) && e.source in NodeSet(g) && e.target in NodeSet(g)
    ensures e.source in NodeSet(Components(g)[i]) <==> e.target in NodeSet(Components(g)[i])
  {
    var m := NodeLabels(g);
    ComponentNodes(g, i);
    var j :| 0 <= j < |g.edges| && g.edges[j] == e;
    assert m[e.source] == m[e.target];
  }

  /** A frame whose node and edge tables are updated in place. */
  class Frame {
    var nodes: seq<int>
    var edges: seq<Edge>

    function View(): Graph
      reads this
    {
      Graph(nodes, edges)
    }

    constructor (g: Graph)
      ensures View() == g
    {
      nodes := g.nodes;
      edges := g.edges;
    }

    method AddNodes(ns: seq<int>)
      modifies this
      ensures View() == PlusNodes(old(View()), ns)
    {
      nodes := nodes + ns;
    }

    method AddEdges(es: seq<Edge>)
      modifies this
      ensures View() == PlusEdges(old(View()), es)
    {
      edges := edges + es;
    }

    method RemoveNodes(ids: seq<int>)
      modifies this
      ensures View() == MinusNodes(old(View()), ids)
    {
      var g := MinusNodes(View(), ids);
      nodes, edges := g.nodes, g.edges;
    }

    method RemoveEdges(es: seq<Edge>)
      modifies this
      ensures View() == MinusEdges(old(View()), es)
    {
      var g := MinusEdges(View(), es);
      edges := g.edges;
    }
  }
}
