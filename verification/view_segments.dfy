/** Segments of a neuron: the connected pieces left when every edge that crosses
    between two edits, or that some edit removed, is cut. Each segment is labelled by
    the edit that added it and the edit that removed it, every node gets the number
    of its segment, and the segments are joined by the cut edges into a segment
    graph of sorted, distinct, loop-free pairs. */
module ViewSegments {
  import opened Seqs
  import opened Wrappers
  import opened Graphs
  import opened NeuronFrames

  /** In a node index without repeats, `loc[id]` finds every row with that id. */
  lemma NodeAtFinds(nodes: seq<NodeRow>, id: int)
    ensures UniqueIds(nodes) ==> forall v :: v in nodes && v.id == id ==> NodeAt(nodes, id) == Some(v)
  {
    if UniqueIds(nodes) {
      forall v | v in nodes && v.id == id ensures NodeAt(nodes, id) == Some(v) {
        NodeAtUnique(nodes, v);
      }
    }
  }

  // ---------------------------------------------------------------------------
  // Edge labels and the view without crossing or removed edges.

  /** `apply_node_features`: the `added` column of the node at one end of an edge;
      NaN (`None`) when that end is not in the node index. */
  function EndAdded(nodes: seq<NodeRow>, id: int, prefix: Prefix): (r: Option<int>)
    ensures r.None? <==> id !in IdSet(nodes)
    ensures UniqueIds(nodes) ==> forall v :: v in nodes && v.id == id ==> r == Some(AddedBy(v.prov, prefix))
  {
    NodeAtFinds(nodes, id);
    match NodeAt(nodes, id)
    case None => None
    case Some(v) => Some(AddedBy(v.prov, prefix))
  }

  /** `cross_operation` (or `cross_metaoperation`): the two ends were added by
      different edits. A NaN end compares unequal, so an edge with an end outside the
      node index crosses. */
  function CrossOperation(nodes: seq<NodeRow>, e: EdgeRow, prefix: Prefix): (r: bool)
    ensures e.source !in IdSet(nodes) || e.target !in IdSet(nodes) ==> r
    ensures UniqueIds(nodes) ==> forall u, v :: u in nodes && v in nodes && u.id == e.source && v.id == e.target ==>
      (r <==> AddedBy(u.prov, prefix) != AddedBy(v.prov, prefix))
  {
    var s := EndAdded(nodes, e.source, prefix);
    var t := EndAdded(nodes, e.target, prefix);
    s.None? || t.None? || s.value != t.value
  }

  /** `was_removed`, for edges and nodes alike: some operation removed the row. The
      column is always the plain `operation_removed`, whatever the prefix. */
  predicate WasRemoved(p: Provenance) {
    p.operationRemoved != -1
  }

  predicate InView(nodes: seq<NodeRow>, e: EdgeRow, prefix: Prefix) {
    !CrossOperation(nodes, e, prefix) && !WasRemoved(e.prov)
  }

  /** `query_edges("(~cross_operation) & (~was_removed)")`: every node stays; an edge
      stays when it joins two nodes added by the same edit and no edit removed it. */
  function NoCrossView(n: Neuron, prefix: Prefix): (r: Neuron)
    ensures r.nodes == n.nodes && r.pre == n.pre && r.post == n.post && r.edits == n.edits
    ensures forall e :: e in r.edges <==> e in n.edges && InView(n.nodes, e, prefix)
    ensures forall e :: e in r.edges ==> e.source in IdSet(n.nodes) && e.target in IdSet(n.nodes)
  {
    QueryEdges(n, (e: EdgeRow) => InView(n.nodes, e, prefix))
  }

  /** The components of the view, as `connected_components()` enumerates them. */
  function ViewComponents(n: Neuron, prefix: Prefix): (r: seq<Graph>)
    ensures forall v :: v in IdSet(n.nodes) ==> exists i :: 0 <= i < |r| && v in NodeSet(r[i])
    ensures forall i, j :: 0 <= i < j < |r| ==> NodeSet(r[i]) !! NodeSet(r[j])
  {
    ComponentsPartition(Shape(NoCrossView(n, prefix)));
    Components(Shape(NoCrossView(n, prefix)))
  }

  // ---------------------------------------------------------------------------
  // A walk along edges that agree on a node value keeps that value.

  /** Along a walk whose every edge joins two nodes with the same value of `f`, the
      value never changes. */
  lemma {:induction false} WalkKeeps(es: set<Edge>, p: seq<int>, f: int -> int)
    requires |p| > 0 && Walk(es, p)
    requires forall e :: e in es ==> f(e.source) == f(e.target)
    ensures f(p[0]) == f(p[|p| - 1])
  {
    if |p| > 1 {
      var q := p[..|p| - 1];
      assert Walk(es, q) by {
        forall k | 0 <= k < |q| - 1 ensures Adjacent(es, q[k], q[k + 1]) {
          assert q[k] == p[k] && q[k + 1] == p[k + 1];
        }
      }
      WalkKeeps(es, q, f);
      assert Adjacent(es, p[|p| - 2], p[|p| - 1]);
      if Edge(p[|p| - 2], p[|p| - 1]) in es {
        assert f(p[|p| - 2]) == f(p[|p| - 1]);
      } else {
        assert Edge(p[|p| - 1], p[|p| - 2]) in es;
      }
    }
  }

  /** Hence one component of a graph whose edges agree on `f` has one value of `f`. */
  lemma ComponentKeeps(g: Graph, i: nat, f: int -> int, a: int, b: int)
    requires i < |Components(g)|
    requires a in NodeSet(Components(g)[i]) && b in NodeSet(Components(g)[i])
    requires forall e :: e in EdgeSet(g) ==> f(e.source) == f(e.target)
    ensures f(a) == f(b)
  {
    ComponentNodes(g, i);
    LabelsLinked(g.nodes, g.edges, a, b);
    var p :| |p| > 0 && p[0] == a && p[|p| - 1] == b && Walk(EdgeSet(g), p);
    WalkKeeps(EdgeSet(g), p, f);
  }

  /** The `added` value of a node id (the one of its row), `-2` when there is none. */
  function AddedOf(nodes: seq<NodeRow>, prefix: Prefix): int -> int {
    (id: int) => match NodeAt(nodes, id) case None => -2 case Some(v) => AddedBy(v.prov, prefix)
  }

  /** The `removed` value of a node id (the one of its row), `-2` when there is none. */
  function RemovedOf(nodes: seq<NodeRow>, prefix: Prefix): int -> int {
    (id: int) => match NodeAt(nodes, id) case None => -2 case Some(v) => RemovedBy(v.prov, prefix)
  }

  /** Every edge of the view joins two nodes added by the same edit. */
  lemma ViewEdgesKeepAdded(n: Neuron, prefix: Prefix)
    requires UniqueIds(n.nodes)
    ensures var f := AddedOf(n.nodes, prefix);
      forall e :: e in EdgeSet(Shape(NoCrossView(n, prefix))) ==> f(e.source) == f(e.target)
  {
    var view := NoCrossView(n, prefix);
    var f := AddedOf(n.nodes, prefix);
    var pairs := EdgePairs(view.edges);
    forall e | e in EdgeSet(Shape(view)) ensures f(e.source) == f(e.target) {
      var k :| 0 <= k < |pairs| && pairs[k] == e;
      var row := view.edges[k];
      assert row in view.edges;
      var u := NodeAt(n.nodes, row.source).value;
      var v := NodeAt(n.nodes, row.target).value;
      assert !CrossOperation(n.nodes, row, prefix);
    }
  }

  // ---------------------------------------------------------------------------
  // Segment rows.

  /** `segment_type`, from the added and removed ids shared by a segment. */
  datatype SegmentType = Unmodified | Removed | Added | Modified

  function TypeOf(added: int, removed: int): (t: SegmentType)
    ensures t == Unmodified <==> added == -1 && removed == -1
    ensures t == Removed <==> added == -1 && removed != -1
    ensures t == Added <==> added != -1 && removed == -1
    ensures t == Modified <==> added != -1 && removed != -1
  {
    if added == -1 && removed == -1 then Unmodified
    else if added == -1 && removed != -1 then Removed
    else if added != -1 && removed == -1 then Added
    else Modified
  }

  /** How a segment's type decides its presence after applying a list of edits that
      never holds `-1`: unmodified rows are always present, removed rows until their
      remover is applied, added rows once their adder is, modified rows in between. */
  lemma TypePresence(p: Provenance, prefix: Prefix, ids: seq<int>)
    requires -1 !in ids
    ensures var added := AddedBy(p, prefix);
      var removed := RemovedBy(p, prefix);
      match TypeOf(added, removed)
      case Unmodified => Kept(p, prefix, ids)
      case Removed => Kept(p, prefix, ids) <==> removed !in ids
      case Added => Kept(p, prefix, ids) <==> added in ids
      case Modified => Kept(p, prefix, ids) <==> added in ids && removed !in ids
  {
  }

  /** One row of `segment_nodes`. */
  datatype SegmentRow = SegmentRow(segment: int, nNodes: nat, nEdges: nat, added: int, removed: int, kind: SegmentType)

  /** `component.nodes`: the node rows whose id lies in the component, in index order. */
  function RowsIn(nodes: seq<NodeRow>, s: set<int>): (r: seq<NodeRow>)
    ensures forall v :: v in r <==> v in nodes && v.id in s
  {
    var keep := (v: NodeRow) => v.id in s;
    var r := Filter(nodes, keep);
    assert forall v :: v in nodes && v.id in s ==> v in r by {
      forall v | v in nodes && v.id in s ensures v in r {
        var i :| 0 <= i < |nodes| && nodes[i] == v;
      }
    }
    r
  }

  /** The rows of `rows` all share one added and one removed id. */
  predicate Uniform(rows: seq<NodeRow>, prefix: Prefix) {
    forall u, v :: u in rows && v in rows ==>
      AddedBy(u.prov, prefix) == AddedBy(v.prov, prefix) && RemovedBy(u.prov, prefix) == RemovedBy(v.prov, prefix)
  }

  /** The body of the segment loop for component `i`: the first row's added and
      removed ids (an empty component is an `IndexError`), the two assertions that
      every row shares them (an `AssertionError` otherwise), then the row. */
  function SegmentOf(nodes: seq<NodeRow>, comp: Graph, i: int, prefix: Prefix): (r: Result<SegmentRow>)
    ensures var rows := RowsIn(nodes, NodeSet(comp));
      r.Ok? <==> |rows| > 0 && Uniform(rows, prefix)
    ensures var rows := RowsIn(nodes, NodeSet(comp));
      r.Err? ==> r.error == if |rows| == 0 then IndexError else AssertionError
    ensures r.Ok? ==> r.value.segment == i && r.value.nNodes == |comp.nodes| && r.value.nEdges == |comp.edges|
    ensures r.Ok? ==> r.value.kind == TypeOf(r.value.added, r.value.removed)
    ensures r.Ok? ==> forall v :: v in RowsIn(nodes, NodeSet(comp)) ==>
      r.value.added == AddedBy(v.prov, prefix) && r.value.removed == RemovedBy(v.prov, prefix)
  {
    var rows := RowsIn(nodes, NodeSet(comp));
    if |rows| == 0 then Err(IndexError)
    else
      var added := AddedBy(rows[0].prov, prefix);
      var removed := RemovedBy(rows[0].prov, prefix);
      if exists v :: v in rows && AddedBy(v.prov, prefix) != added then Err(AssertionError)
      else if exists v :: v in rows && RemovedBy(v.prov, prefix) != removed then Err(AssertionError)
      else Ok(SegmentRow(i, |comp.nodes|, |comp.edges|, added, removed, TypeOf(added, removed)))
  }

  /** The outcome of the segment loop: the `segment` column and the rows. */
  datatype Segments = Segments(segment: map<int, int>, rows: seq<SegmentRow>)

  /** `neuron.nodes.loc[ids, "segment"] = i`: the listed nodes move to segment `i`. */
  function Assign(segment: map<int, int>, ids: set<int>, i: int): (r: map<int, int>)
    requires ids <= segment.Keys
    ensures r.Keys == segment.Keys
    ensures forall v :: v in r ==> r[v] == if v in ids then i else segment[v]
  {
    segment + map v | v in ids :: i
  }

  /** The segment loop over the node sets `comps` of the enumerated components and
      the outcomes `results` of the loop body on each: every node starts in segment
      `-1`; the nodes of component `i` are moved to segment `i` and its row is
      appended. The first failing component ends the loop with its error. */
  method SegmentLoop(ids: set<int>, comps: seq<set<int>>, results: seq<Result<SegmentRow>>) returns (r: Result<Segments>)
    requires |comps| == |results|
    requires forall k :: 0 <= k < |comps| ==> comps[k] <= ids
    ensures r.Ok? <==> forall k :: 0 <= k < |results| ==> results[k].Ok?
    ensures r.Err? ==> exists k :: 0 <= k < |results| && results[k] == Err(r.error)
    ensures r.Ok? ==> |r.value.rows| == |results| && r.value.segment.Keys == ids
    ensures r.Ok? ==> forall k :: 0 <= k < |results| ==> results[k] == Ok(r.value.rows[k])
    ensures r.Ok? ==> forall v :: v in r.value.segment ==>
      (r.value.segment[v] == -1 && forall k :: 0 <= k < |comps| ==> v !in comps[k]) ||
      (0 <= r.value.segment[v] < |comps| && v in comps[r.value.segment[v]])
  {
    var segment := map v | v in ids :: -1;
    var rows: seq<SegmentRow> := [];
    for i := 0 to |comps|
      invariant |rows| == i
      invariant forall k :: 0 <= k < i ==> results[k] == Ok(rows[k])
      invariant segment.Keys == ids
      invariant forall v :: v in segment ==>
        (segment[v] == -1 && forall k :: 0 <= k < i ==> v !in comps[k]) ||
        (0 <= segment[v] < i && v in comps[segment[v]])
    {
      if results[i].Err? {
        return Err(results[i].error);
      }
      segment := Assign(segment, comps[i], i);
      rows := rows + [results[i].value];
    }
    return Ok(Segments(segment, rows));
  }

  /** What the segment loop yields over the enumerated components `cs`: it succeeds
      exactly when every component's row does, fails with the error of a failing
      component, and otherwise holds one row per component, in order. */
  ghost predicate SegmentOutcome(nodes: seq<NodeRow>, cs: seq<Graph>, prefix: Prefix, r: Result<Segments>) {
    (r.Ok? <==> forall k :: 0 <= k < |cs| ==> SegmentOf(nodes, cs[k], k, prefix).Ok?) &&
    (r.Err? ==> exists k :: 0 <= k < |cs| && SegmentOf(nodes, cs[k], k, prefix) == Err(r.error)) &&
    (r.Ok? ==> |r.value.rows| == |cs|) &&
    (r.Ok? ==> forall k :: 0 <= k < |cs| ==> SegmentOf(nodes, cs[k], k, prefix) == Ok(r.value.rows[k]))
  }

  /** The same outcome over given loop-body results. */
  ghost predicate LoopOutcome(results: seq<Result<SegmentRow>>, r: Result<Segments>) {
    (r.Ok? <==> forall k :: 0 <= k < |results| ==> results[k].Ok?) &&
    (r.Err? ==> exists k :: 0 <= k < |results| && results[k] == Err(r.error)) &&
    (r.Ok? ==> |r.value.rows| == |results|) &&
    (r.Ok? ==> forall k :: 0 <= k < |results| ==> results[k] == Ok(r.value.rows[k]))
  }

  /** The loop body's result on each enumerated component. */
  function Outcomes(nodes: seq<NodeRow>, cs: seq<Graph>, prefix: Prefix): seq<Result<SegmentRow>> {
    seq(|cs|, k requires 0 <= k < |cs| => SegmentOf(nodes, cs[k], k, prefix))
  }

  /** The outcome over the body's results on the components is the segment outcome. */
  lemma OutcomesSegments(nodes: seq<NodeRow>, cs: seq<Graph>, prefix: Prefix, r: Result<Segments>)
    requires LoopOutcome(Outcomes(nodes, cs, prefix), r)
    ensures SegmentOutcome(nodes, cs, prefix, r)
  {
    var results := Outcomes(nodes, cs, prefix);
    assert forall k :: 0 <= k < |cs| ==> results[k] == SegmentOf(nodes, cs[k], k, prefix);
    if r.Err? {
      var k :| 0 <= k < |results| && results[k] == Err(r.error);
      assert SegmentOf(nodes, cs[k], k, prefix) == Err(r.error);
    }
  }

  /** Every id of `ids` carries the number of the one component of `cs` that holds it. */
  ghost predicate LabelsComponents(ids: set<int>, cs: seq<Graph>, segment: map<int, int>) {
    segment.Keys == ids &&
    forall v :: v in segment ==>
      0 <= segment[v] < |cs| && v in NodeSet(cs[segment[v]]) &&
      forall k :: 0 <= k < |cs| && v in NodeSet(cs[k]) ==> k == segment[v]
  }

  /** The segment loop run on the enumerated components `cs`, each within the node
      index: every node keeps `-1` or gets the number of a component holding it. */
  method SegmentsOver(nodes: seq<NodeRow>, cs: seq<Graph>, prefix: Prefix) returns (r: Result<Segments>)
    requires forall k :: 0 <= k < |cs| ==> NodeSet(cs[k]) <= IdSet(nodes)
    ensures SegmentOutcome(nodes, cs, prefix, r)
    ensures r.Ok? ==> r.value.segment.Keys == IdSet(nodes)
    ensures r.Ok? ==> forall v :: v in r.value.segment ==>
      (r.value.segment[v] == -1 && forall k :: 0 <= k < |cs| ==> v !in NodeSet(cs[k])) ||
      (0 <= r.value.segment[v] < |cs| && v in NodeSet(cs[r.value.segment[v]]))
  {
    var comps := seq(|cs|, k requires 0 <= k < |cs| => NodeSet(cs[k]));
    assert forall k :: 0 <= k < |cs| ==> comps[k] == NodeSet(cs[k]);
    r := SegmentLoop(IdSet(nodes), comps, Outcomes(nodes, cs, prefix));
    OutcomesSegments(nodes, cs, prefix, r);
  }

  /** When the components are pairwise disjoint and cover the index, no node keeps
      `-1` and the label of each node is the only component holding it. */
  lemma PartitionLabels(ids: set<int>, cs: seq<Graph>, segment: map<int, int>)
    requires segment.Keys == ids
    requires forall v :: v in segment ==>
      (segment[v] == -1 && forall k :: 0 <= k < |cs| ==> v !in NodeSet(cs[k])) ||
      (0 <= segment[v] < |cs| && v in NodeSet(cs[segment[v]]))
    requires forall i, j :: 0 <= i < j < |cs| ==> NodeSet(cs[i]) !! NodeSet(cs[j])
    requires forall v :: v in ids ==> exists i :: 0 <= i < |cs| && v in NodeSet(cs[i])
    ensures LabelsComponents(ids, cs, segment)
  {
    forall v, k | v in segment && 0 <= k < |cs| && v in NodeSet(cs[k])
      ensures 0 <= segment[v] < |cs| && k == segment[v]
    {
    }
  }

  /** The script's segment labelling on the components of the view. Every node lies in
      exactly one component, so every node gets a segment (none keeps `-1`), and it is
      the one component holding it. */
  method LabelSegments(n: Neuron, prefix: Prefix) returns (r: Result<Segments>)
    ensures SegmentOutcome(n.nodes, ViewComponents(n, prefix), prefix, r)
    ensures r.Ok? ==> SegmentsOfComponents(n, prefix, r.value.segment)
  {
    var cs := ViewComponents(n, prefix);
    forall k | 0 <= k < |cs| ensures NodeSet(cs[k]) <= IdSet(n.nodes) {
      ComponentsWithin(n, prefix, k);
    }
    r := SegmentsOver(n.nodes, cs, prefix);
    if r.Ok? {
      ComponentsPartition(Shape(NoCrossView(n, prefix)));
      PartitionLabels(IdSet(n.nodes), cs, r.value.segment);
    }
  }

  /** Every node id carries the number of the one component of the view that holds it. */
  ghost predicate SegmentsOfComponents(n: Neuron, prefix: Prefix, segment: map<int, int>) {
    LabelsComponents(IdSet(n.nodes), ViewComponents(n, prefix), segment)
  }

  /** The components lie within the node index. */
  lemma ComponentsWithin(n: Neuron, prefix: Prefix, i: nat)
    requires i < |ViewComponents(n, prefix)|
    ensures NodeSet(ViewComponents(n, prefix)[i]) <= IdSet(n.nodes)
  {
    ComponentNodes(Shape(NoCrossView(n, prefix)), i);
  }

  // ---------------------------------------------------------------------------
  // What the segment rows mean.

  /** With one row per node id, the `added` assertion always holds: every component
      of the view has rows, and all of them were added by the same edit, since every
      edge of the view joins two nodes added by one edit. */
  lemma ComponentRowsShareAdded(n: Neuron, prefix: Prefix, k: nat)
    requires UniqueIds(n.nodes) && k < |ViewComponents(n, prefix)|
    ensures var rows := RowsIn(n.nodes, NodeSet(ViewComponents(n, prefix)[k]));
      |rows| > 0 && forall u, v :: u in rows && v in rows ==> AddedBy(u.prov, prefix) == AddedBy(v.prov, prefix)
  {
    var g := Shape(NoCrossView(n, prefix));
    var c := ViewComponents(n, prefix)[k];
    var rows := RowsIn(n.nodes, NodeSet(c));
    var f := AddedOf(n.nodes, prefix);
    ComponentNonEmpty(g, k);
    ComponentsWithin(n, prefix, k);
    var x :| x in NodeSet(c);
    var i :| 0 <= i < |n.nodes| && n.nodes[i].id == x;
    assert n.nodes[i] in rows;
    ViewEdgesKeepAdded(n, prefix);
    forall u, v | u in rows && v in rows ensures AddedBy(u.prov, prefix) == AddedBy(v.prov, prefix) {
      ComponentKeeps(g, k, f, u.id, v.id);
      NodeAtUnique(n.nodes, u);
      NodeAtUnique(n.nodes, v);
    }
  }

  /** Hence, with one row per node id, a component's row is refused only by the
      `removed` assertion: exactly when two of its rows were removed by different
      edits. */
  lemma SegmentRefusedOnRemoved(n: Neuron, prefix: Prefix, k: nat)
    requires UniqueIds(n.nodes) && k < |ViewComponents(n, prefix)|
    ensures var c := ViewComponents(n, prefix)[k];
      var rows := RowsIn(n.nodes, NodeSet(c));
      SegmentOf(n.nodes, c, k, prefix).Err? <==>
        exists u, v :: u in rows && v in rows && RemovedBy(u.prov, prefix) != RemovedBy(v.prov, prefix)
    ensures var c := ViewComponents(n, prefix)[k];
      SegmentOf(n.nodes, c, k, prefix).Err? ==> SegmentOf(n.nodes, c, k, prefix).error == AssertionError
  {
    ComponentRowsShareAdded(n, prefix, k);
    RefusedOnRemoved(n.nodes, ViewComponents(n, prefix)[k], k, prefix);
  }

  /** A row is refused only by the `removed` assertion when the rows are present and
      share their `added` id. */
  lemma RefusedOnRemoved(nodes: seq<NodeRow>, c: Graph, k: nat, prefix: Prefix)
    requires var rows := RowsIn(nodes, NodeSet(c));
      |rows| > 0 && forall u, v :: u in rows && v in rows ==> AddedBy(u.prov, prefix) == AddedBy(v.prov, prefix)
    ensures var rows := RowsIn(nodes, NodeSet(c));
      SegmentOf(nodes, c, k, prefix).Err? <==>
        exists u, v :: u in rows && v in rows && RemovedBy(u.prov, prefix) != RemovedBy(v.prov, prefix)
    ensures SegmentOf(nodes, c, k, prefix).Err? ==> SegmentOf(nodes, c, k, prefix).error == AssertionError
  {
  }

  /** The segment type says when the segment is present in a state: after applying a
      list of edits (none of them `-1`), every row of a segment with type
      `unmodified` is present, one of type `removed` until its remover is applied,
      one of type `added` once its adder is, and one of type `modified` in between. */
  lemma SegmentPresence(n: Neuron, comp: Graph, k: int, prefix: Prefix, ids: seq<int>)
    requires SegmentOf(n.nodes, comp, k, prefix).Ok? && -1 !in ids
    ensures var s := SegmentOf(n.nodes, comp, k, prefix).value;
      var kept := SetEdits(n, Many(ids), prefix).nodes;
      forall v :: v in RowsIn(n.nodes, NodeSet(comp)) ==>
        (v in kept <==> match s.kind
          case Unmodified => true
          case Removed => s.removed !in ids
          case Added => s.added in ids
          case Modified => s.added in ids && s.removed !in ids)
  {
    SetEditsRule(n, Many(ids), prefix);
    forall v | v in RowsIn(n.nodes, NodeSet(comp)) {
      TypePresence(v.prov, prefix, ids);
    }
  }

  // ---------------------------------------------------------------------------
  // The segment graph's edges.

  /** `apply_node_features("segment")` on one edge, then `np.sort(axis=1)`: the
      segments of its two ends, the smaller first; None when an end has no
      segment. */
  function SegmentPair(segment: map<int, int>, e: EdgeRow): (r: Option<Edge>)
    ensures r.Some? <==> e.source in segment && e.target in segment
    ensures r.Some? ==> r.value.source <= r.value.target
    ensures r.Some? ==>
      (r.value.source == segment[e.source] && r.value.target == segment[e.target]) ||
      (r.value.source == segment[e.target] && r.value.target == segment[e.source])
  {
    if e.source in segment && e.target in segment then
      var a := segment[e.source];
      var b := segment[e.target];
      Some(if a <= b then Edge(a, b) else Edge(b, a))
    else None
  }

  /** The row order of `np.unique(axis=0)`: by source, then by target. */
  predicate Before(a: Edge, b: Edge) {
    a.source < b.source || (a.source == b.source && a.target < b.target)
  }

  /** Rows in that order, without repeats. */
  predicate StrictlySorted(s: seq<Edge>) {
    forall i, j :: 0 <= i < j < |s| ==> Before(s[i], s[j])
  }

  /** Adding one pair to a sorted table without repeats keeps it so. */
  function InsertPair(s: seq<Edge>, p: Edge): (r: seq<Edge>)
    requires StrictlySorted(s)
    ensures StrictlySorted(r)
    ensures Elems(r) == Elems(s) + {p}
  {
    if |s| == 0 then [p]
    else if s[0] == p then s
    else if Before(p, s[0]) then
      assert Elems([p] + s) == {p} + Elems(s);
      [p] + s
    else
      var t := InsertPair(s[1..], p);
      assert s == [s[0]] + s[1..];
      assert Elems(s) == {s[0]} + Elems(s[1..]);
      assert forall x :: x in Elems(t) ==> Before(s[0], x);
      assert Elems([s[0]] + t) == {s[0]} + Elems(t);
      [s[0]] + t
  }

  /** The pairs of the segment graph: the sorted segment pair of every edge whose ends
      both have a segment, loops dropped (`source != target`). */
  function PairsOf(segment: map<int, int>, edges: seq<EdgeRow>): (r: set<Edge>)
    ensures forall p :: p in r ==> p.source < p.target
  {
    set e | e in edges && SegmentPair(segment, e).Some? &&
      SegmentPair(segment, e).value.source != SegmentPair(segment, e).value.target :: SegmentPair(segment, e).value
  }

  /** `segment_edges`: the distinct sorted segment pairs of all edges, loops dropped,
      in the row order `np.unique` gives. */
  function SegmentEdges(segment: map<int, int>, edges: seq<EdgeRow>): (r: seq<Edge>)
    ensures StrictlySorted(r)
    ensures Elems(r) == PairsOf(segment, edges)
  {
    if |edges| == 0 then []
    else
      var init := edges[..|edges| - 1];
      var e := edges[|edges| - 1];
      var r := SegmentEdges(segment, init);
      assert edges == init + [e];
      assert forall x :: x in edges <==> x in init || x == e;
      match SegmentPair(segment, e)
      case Some(p) => if p.source != p.target then InsertPair(r, p) else r
      case None => r
  }

  /** Two sorted tables without repeats holding the same pairs are equal. */
  lemma {:induction false} SortedUnique(a: seq<Edge>, b: seq<Edge>)
    requires StrictlySorted(a) && StrictlySorted(b) && Elems(a) == Elems(b)
    ensures a == b
  {
    assert NoDup(a) && NoDup(b);
    NoDupCard(a);
    NoDupCard(b);
    if |a| > 0 {
      assert a[0] in Elems(b) && b[0] in Elems(a);
      assert a[0] == b[0];
      assert Elems(a[1..]) == Elems(a) - {a[0]} by {
        assert a == [a[0]] + a[1..];
        assert a[0] !in a[1..];
      }
      assert Elems(b[1..]) == Elems(b) - {b[0]} by {
        assert b == [b[0]] + b[1..];
        assert b[0] !in b[1..];
      }
      SortedUnique(a[1..], b[1..]);
      assert a == [a[0]] + a[1..] && b == [b[0]] + b[1..];
    }
  }

  /** The segment graph depends only on which edges there are, not on their order
      or repeats in the edge table. */
  lemma SegmentEdgesOrderFree(segment: map<int, int>, e1: seq<EdgeRow>, e2: seq<EdgeRow>)
    requires Elems(e1) == Elems(e2)
    ensures SegmentEdges(segment, e1) == SegmentEdges(segment, e2)
  {
    assert PairsOf(segment, e1) == PairsOf(segment, e2) by {
      assert forall e :: e in e1 <==> e in e2 by {
        assert forall e :: e in e1 <==> e in Elems(e1);
        assert forall e :: e in e2 <==> e in Elems(e2);
      }
    }
    SortedUnique(SegmentEdges(segment, e1), SegmentEdges(segment, e2));
  }

  /** An edge read the other way round. */
  function Flip(e: EdgeRow): EdgeRow {
    e.(source := e.target, target := e.source)
  }

  /** Because each pair is sorted first, the direction of the edges does not matter:
      flipping every edge gives the same segment graph. */
  lemma SegmentEdgesUndirected(segment: map<int, int>, edges: seq<EdgeRow>)
    ensures var flipped := seq(|edges|, i requires 0 <= i < |edges| => Flip(edges[i]));
      SegmentEdges(segment, flipped) == SegmentEdges(segment, edges)
  {
    var flipped := seq(|edges|, i requires 0 <= i < |edges| => Flip(edges[i]));
    forall p | p in PairsOf(segment, edges) ensures p in PairsOf(segment, flipped) {
      var e :| e in edges && SegmentPair(segment, e) == Some(p);
      var i :| 0 <= i < |edges| && edges[i] == e;
      assert flipped[i] == Flip(e) && SegmentPair(segment, Flip(e)) == Some(p);
      assert flipped[i] in flipped;
    }
    forall p | p in PairsOf(segment, flipped) ensures p in PairsOf(segment, edges) {
      var e :| e in flipped && SegmentPair(segment, e) == Some(p);
      var i :| 0 <= i < |flipped| && flipped[i] == e;
      assert Flip(e) == edges[i] && SegmentPair(segment, Flip(e)) == Some(p);
      assert edges[i] in edges;
    }
    SortedUnique(SegmentEdges(segment, flipped), SegmentEdges(segment, edges));
  }

  /** Under the labelling of `LabelSegments`, an edge of the view joins two nodes of
      one segment. */
  lemma ViewEdgeSameSegment(n: Neuron, prefix: Prefix, segment: map<int, int>, e: EdgeRow)
    requires SegmentsOfComponents(n, prefix, segment)
    requires e in n.edges
    ensures InView(n.nodes, e, prefix) ==>
      e.source in segment && e.target in segment && segment[e.source] == segment[e.target]
  {
    if InView(n.nodes, e, prefix) {
      var view := NoCrossView(n, prefix);
      var g := Shape(view);
      var pairs := EdgePairs(view.edges);
      var j :| 0 <= j < |view.edges| && view.edges[j] == e;
      assert pairs[j] == Edge(e.source, e.target);
      var k := segment[e.source];
      ComponentEdgeInside(g, k, Edge(e.source, e.target));
    }
  }

  /** So every pair of the segment graph comes from an edge that the view cut: one
      that crosses between two edits or that some edit removed. */
  lemma SegmentEdgesAreCut(n: Neuron, prefix: Prefix, segment: map<int, int>, p: Edge)
    requires SegmentsOfComponents(n, prefix, segment)
    requires p in SegmentEdges(segment, n.edges)
    ensures exists e :: e in n.edges && SegmentPair(segment, e) == Some(p) && !InView(n.nodes, e, prefix)
  {
    assert p in PairsOf(segment, n.edges);
    var e :| e in n.edges && SegmentPair(segment, e) == Some(p) && p.source != p.target;
    ViewEdgeSameSegment(n, prefix, segment, e);
  }
}
