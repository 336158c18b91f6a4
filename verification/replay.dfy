/** Chronological replay of per-operation deltas on the level-2 frame built from the
    lineage leaves, the nucleus fragment of the result, and the lineage-tree
    bookkeeping around it (leaf status, nearest common ancestor of odd leaves). The
    delta, lineage and meta-operation construction of the same script repeats the one
    in the `Changes` module. */
module Replay {
  import opened Seqs
  import opened Wrappers
  import opened Graphs
  import opened Changes

  // ---------------------------------------------------------------------------
  // The starting frame: every lineage leaf's level-2 graph, concatenated

  /** The node ids of all frames together. */
  function UnionNodes(frames: seq<Graph>): set<int> {
    if |frames| == 0 then {} else UnionNodes(frames[..|frames| - 1]) + NodeSet(frames[|frames| - 1])
  }

  /** The edge pairs of all frames together. */
  function UnionEdges(frames: seq<Graph>): set<Edge> {
    if |frames| == 0 then {} else UnionEdges(frames[..|frames| - 1]) + EdgeSet(frames[|frames| - 1])
  }

  /** Node tables and edge tables concatenated in order (`pd.concat`). */
  function Concatenated(frames: seq<Graph>): (g: Graph)
    ensures NodeSet(g) == UnionNodes(frames)
    ensures EdgeSet(g) == UnionEdges(frames)
  {
    if |frames| == 0 then Graph([], [])
    else
      var g := Concatenated(frames[..|frames| - 1]);
      var h := frames[|frames| - 1];
      Graph(g.nodes + h.nodes, g.edges + h.edges)
  }

  /** A node is in the union exactly when some frame holds it. */
  lemma {:induction false} UnionNodesSpec(frames: seq<Graph>)
    ensures forall v :: v in UnionNodes(frames) <==> exists g :: g in frames && v in NodeSet(g)
  {
    if |frames| > 0 {
      var init := frames[..|frames| - 1];
      UnionNodesSpec(init);
      assert forall g :: g in frames <==> g in init || g == frames[|frames| - 1] by {
        assert frames == init + [frames[|frames| - 1]];
      }
    }
  }

  /** An edge is in the union exactly when some frame holds it. */
  lemma {:induction false} UnionEdgesSpec(frames: seq<Graph>)
    ensures forall e :: e in UnionEdges(frames) <==> exists g :: g in frames && e in EdgeSet(g)
  {
    if |frames| > 0 {
      var init := frames[..|frames| - 1];
      UnionEdgesSpec(init);
      assert forall g :: g in frames <==> g in init || g == frames[|frames| - 1] by {
        assert frames == init + [frames[|frames| - 1]];
      }
    }
  }

  /** The leaf frames fetched in order: a leaf whose fetch raises `HTTPError` is
      skipped (`continue`); any other failure ends the script. */
  function LeafFrames(leaves: seq<int>, fetch: int -> Result<Graph>): (r: Result<seq<Graph>>)
    ensures r.Ok? ==> |r.value| <= |leaves|
    ensures r.Err? ==> r.error != HTTPError && exists i :: 0 <= i < |leaves| && fetch(leaves[i]) == Err(r.error)
  {
    if |leaves| == 0 then Ok([])
    else
      assert forall i :: 0 <= i < |leaves| - 1 ==> leaves[..|leaves| - 1][i] == leaves[i];
      match LeafFrames(leaves[..|leaves| - 1], fetch)
      case Err(e) => Err(e)
      case Ok(fs) =>
        match fetch(leaves[|leaves| - 1])
        case Ok(g) => Ok(fs + [g])
        case Err(e) => if e == HTTPError then Ok(fs) else Err(e)
  }

  /** The starting frame; concatenating no frame at all raises `ValueError`. */
  function StartFrame(leaves: seq<int>, fetch: int -> Result<Graph>): (r: Result<Graph>)
    ensures |leaves| == 0 ==> r == Err(ValueError)
    ensures r.Err? ==> r.error != HTTPError
  {
    match LeafFrames(leaves, fetch)
    case Err(e) => Err(e)
    case Ok(fs) => if |fs| == 0 then Err(ValueError) else Ok(Concatenated(fs))
  }

  /** The loading loop of the script. */
  method LoadLeaves(leaves: seq<int>, fetch: int -> Result<Graph>) returns (r: Result<Graph>)
    ensures r == StartFrame(leaves, fetch)
  {
    var frames: seq<Graph> := [];
    var i := 0;
    while i < |leaves|
      invariant 0 <= i <= |leaves|
      invariant LeafFrames(leaves[..i], fetch) == Ok(frames)
    {
      assert leaves[..i + 1][..i] == leaves[..i];
      var got := fetch(leaves[i]);
      if got.Err? {
        if got.error != HTTPError {
          LeafFramesStop(leaves, fetch, i);
          return Err(got.error);
        }
      } else {
        frames := frames + [got.value];
      }
      i := i + 1;
    }
    assert leaves[..|leaves|] == leaves;
    if |frames| == 0 {
      return Err(ValueError);
    }
    return Ok(Concatenated(frames));
  }

  /** A failure other than `HTTPError` ends the fetch loop with that failure. */
  lemma {:induction false} LeafFramesStop(leaves: seq<int>, fetch: int -> Result<Graph>, i: nat)
    requires i < |leaves| && LeafFrames(leaves[..i], fetch).Ok?
    requires fetch(leaves[i]).Err? && fetch(leaves[i]).error != HTTPError
    ensures LeafFrames(leaves, fetch) == Err(fetch(leaves[i]).error)
  {
    assert leaves[..i + 1][..i] == leaves[..i];
    LeafFramesPrefixErr(leaves, fetch, i + 1);
  }

  lemma {:induction false} LeafFramesPrefixErr(leaves: seq<int>, fetch: int -> Result<Graph>, n: nat)
    requires n <= |leaves| && LeafFrames(leaves[..n], fetch).Err?
    ensures LeafFrames(leaves, fetch) == LeafFrames(leaves[..n], fetch)
  {
    if n < |leaves| {
      assert leaves[..|leaves| - 1][..n] == leaves[..n];
      LeafFramesPrefixErr(leaves[..|leaves| - 1], fetch, n);
    } else {
      assert leaves[..n] == leaves;
    }
  }

  /** The frames kept are exactly the successful fetches, in leaf order. */
  lemma {:induction false} LeafFramesFetched(leaves: seq<int>, fetch: int -> Result<Graph>)
    requires LeafFrames(leaves, fetch).Ok?
    ensures forall g :: g in LeafFrames(leaves, fetch).value <==>
      exists i :: 0 <= i < |leaves| && fetch(leaves[i]) == Ok(g)
  {
    if |leaves| > 0 {
      var init := leaves[..|leaves| - 1];
      LeafFramesFetched(init, fetch);
      assert forall i :: 0 <= i < |init| ==> init[i] == leaves[i];
    }
  }

  /** The starting frame holds exactly the nodes and edges of the frames fetched. */
  lemma StartFrameContents(leaves: seq<int>, fetch: int -> Result<Graph>)
    requires StartFrame(leaves, fetch).Ok?
    ensures forall v :: v in NodeSet(StartFrame(leaves, fetch).value) <==>
      exists g :: g in LeafFrames(leaves, fetch).value && v in NodeSet(g)
    ensures forall e :: e in EdgeSet(StartFrame(leaves, fetch).value) <==>
      exists g :: g in LeafFrames(leaves, fetch).value && e in EdgeSet(g)
  {
    UnionNodesSpec(LeafFrames(leaves, fetch).value);
    UnionEdgesSpec(LeafFrames(leaves, fetch).value);
  }

  /** `get_initial_network`: the same loading loop over the lineage leaves, taken
      sorted and without repeats (`np.unique`). */
  method GetInitialNetwork(leaves: seq<int>, fetch: int -> Result<Graph>) returns (r: Result<Graph>)
    ensures r == StartFrame(SortedUnique(leaves), fetch)
  {
    r := LoadLeaves(SortedUnique(leaves), fetch);
  }

  /** The initial network holds exactly the nodes of the leaves whose level-2 graph
      was fetched; a leaf listed twice contributes once. */
  lemma InitialNetworkNodes(leaves: seq<int>, fetch: int -> Result<Graph>)
    requires StartFrame(SortedUnique(leaves), fetch).Ok?
    ensures forall v :: v in NodeSet(StartFrame(SortedUnique(leaves), fetch).value) <==>
      exists l :: l in leaves && fetch(l).Ok? && v in NodeSet(fetch(l).value)
  {
    var u := SortedUnique(leaves);
    StartFrameContents(u, fetch);
    LeafFramesFetched(u, fetch);
    forall v ensures v in NodeSet(StartFrame(u, fetch).value) ==>
      exists l :: l in leaves && fetch(l).Ok? && v in NodeSet(fetch(l).value)
    {
      if v in NodeSet(StartFrame(u, fetch).value) {
        var g :| g in LeafFrames(u, fetch).value && v in NodeSet(g);
        var i :| 0 <= i < |u| && fetch(u[i]) == Ok(g);
        assert u[i] in leaves;
      }
    }
    forall v, l | l in leaves && fetch(l).Ok? && v in NodeSet(fetch(l).value)
      ensures v in NodeSet(StartFrame(u, fetch).value)
    {
      var i :| 0 <= i < |u| && u[i] == l;
      assert fetch(u[i]) == Ok(fetch(l).value);
    }
  }

  // ---------------------------------------------------------------------------
  // Replaying the deltas

  /** The deltas applied one after another, in list order. */
  function ReplayAll(g: Graph, ds: seq<NetworkDelta>): (r: Graph)
    ensures forall v :: v in NodeSet(r) ==> v in NodeSet(g) || exists i :: 0 <= i < |ds| && v in ds[i].addedNodes
    ensures |ds| > 0 ==> NodeSet(r) !! Elems(ds[|ds| - 1].removedNodes)
  {
    if |ds| == 0 then g
    else
      assert forall i :: 0 <= i < |ds| - 1 ==> ds[..|ds| - 1][i] == ds[i];
      ApplyDelta(ReplayAll(g, ds[..|ds| - 1]), ds[|ds| - 1])
  }

  /** The deltas of the listed operations, in list order. */
  function DeltasOf(ops: seq<int>, deltas: map<int, NetworkDelta>): (ds: seq<NetworkDelta>)
    requires forall i :: 0 <= i < |ops| ==> ops[i] in deltas
    ensures |ds| == |ops| && forall i :: 0 <= i < |ops| ==> ds[i] == deltas[ops[i]]
  {
    seq(|ops|, i requires 0 <= i < |ops| => deltas[ops[i]])
  }

  lemma ReplaySnoc(g: Graph, ds: seq<NetworkDelta>, d: NetworkDelta)
    ensures ReplayAll(g, ds + [d]) == ApplyDelta(ReplayAll(g, ds), d)
  {
    assert (ds + [d])[..|ds|] == ds;
  }

  lemma DeltasOfSnoc(ops: seq<int>, deltas: map<int, NetworkDelta>, i: nat)
    requires i < |ops| && forall k :: 0 <= k <= i ==> ops[k] in deltas
    ensures DeltasOf(ops[..i + 1], deltas) == DeltasOf(ops[..i], deltas) + [deltas[ops[i]]]
  {
  }

  /** One delta applied in place, in the script's order: add nodes, add edges,
      remove nodes, remove edges. */
  method ApplyInPlace(f: Frame, d: NetworkDelta)
    modifies f
    ensures f.View() == ApplyDelta(old(f.View()), d)
  {
    f.AddNodes(d.addedNodes);
    f.AddEdges(d.addedEdges);
    f.RemoveNodes(d.removedNodes);
    f.RemoveEdges(d.removedEdges);
  }

  /** The replay loop: each operation of the change log, in its (timestamp) order,
      has its delta applied once. An operation without a delta raises `KeyError`
      after the deltas before it have been applied. */
  method ReplayEdits(f: Frame, ops: seq<int>, deltas: map<int, NetworkDelta>) returns (err: Option<Error>)
    modifies f
    ensures err.None? <==> forall i :: 0 <= i < |ops| ==> ops[i] in deltas
    ensures err.None? ==> f.View() == ReplayAll(old(f.View()), DeltasOf(ops, deltas))
    ensures err.Some? ==> err.value == KeyError
    ensures err.Some? ==>
      exists k :: (0 <= k < |ops| && ops[k] !in deltas &&
        (forall i :: 0 <= i < k ==> ops[i] in deltas) &&
        f.View() == ReplayAll(old(f.View()), DeltasOf(ops[..k], deltas)))
  {
    ghost var g0 := f.View();
    ghost var ds: seq<NetworkDelta> := [];
    var i := 0;
    while i < |ops|
      invariant 0 <= i <= |ops|
      invariant forall k :: 0 <= k < i ==> ops[k] in deltas
      invariant ds == DeltasOf(ops[..i], deltas)
      invariant f.View() == ReplayAll(g0, ds)
    {
      if ops[i] !in deltas {
        return Some(KeyError);
      }
      var d := deltas[ops[i]];
      ApplyInPlace(f, d);
      ReplaySnoc(g0, ds, d);
      DeltasOfSnoc(ops, deltas, i);
      ds := ds + [d];
      i := i + 1;
    }
    assert ops[..|ops|] == ops;
    return None;
  }

  /** Replays that start from equal frames end in equal frames. */
  lemma {:induction false} ReplaySame(g: Graph, h: Graph, ds: seq<NetworkDelta>)
    requires Same(g, h)
    ensures Same(ReplayAll(g, ds), ReplayAll(h, ds))
  {
    if |ds| > 0 {
      ReplaySame(g, h, ds[..|ds| - 1]);
    }
  }

  /** The deltas between consecutive whole-neuron states. */
  function StepDeltas(states: seq<Graph>): (ds: seq<NetworkDelta>)
    ensures |ds| == if |states| == 0 then 0 else |states| - 1
  {
    if |states| <= 1 then []
    else StepDeltas(states[..|states| - 1]) + [OperationDelta(states[|states| - 2], states[|states| - 1])]
  }

  /** Replaying, from the first state, the deltas between consecutive states of a
      neuron reproduces its last state. */
  lemma {:induction false} ReplayReachesLast(states: seq<Graph>)
    requires |states| > 0
    requires forall i :: 0 <= i < |states| ==> WellFormed(states[i])
    ensures Same(ReplayAll(states[0], StepDeltas(states)), states[|states| - 1])
  {
    if |states| > 1 {
      var init := states[..|states| - 1];
      ReplayReachesLast(init);
      assert init[0] == states[0] && init[|init| - 1] == states[|states| - 2];
      ReplayStep(states[0], StepDeltas(init), states[|states| - 2], states[|states| - 1]);
      assert StepDeltas(states) == StepDeltas(init) + [OperationDelta(states[|states| - 2], states[|states| - 1])];
    }
  }

  /** One more state: replaying its delta on a graph equal to the previous state
      gives that state. */
  lemma ReplayStep(first: Graph, ds: seq<NetworkDelta>, prev: Graph, last: Graph)
    requires WellFormed(prev) && WellFormed(last)
    requires Same(ReplayAll(first, ds), prev)
    ensures Same(ReplayAll(first, ds + [OperationDelta(prev, last)]), last)
  {
    var d := OperationDelta(prev, last);
    ReplaySnoc(first, ds, d);
    ApplyOperationDelta(prev, last);
    ApplySame(ReplayAll(first, ds), prev, d);
  }

  lemma ApplySame(g: Graph, h: Graph, d: NetworkDelta)
    requires Same(g, h)
    ensures Same(ApplyDelta(g, d), ApplyDelta(h, d))
  {
  }

  // ---------------------------------------------------------------------------
  // The nucleus fragment

  /** The first component containing the nucleus level-2 id; when there is none the
      script's `.copy()` on `None` raises `AttributeError`. */
  function NucleusFragment(g: Graph, nucL2: int): (r: Result<Graph>)
    ensures r.Ok? <==> nucL2 in NodeSet(g)
    ensures r.Ok? ==> nucL2 in NodeSet(r.value) && NodeSet(r.value) == ComponentOf(g, nucL2)
    ensures r.Err? ==> r.error == AttributeError
  {
    FindComponentSpec(g, nucL2);
    match FindComponent(g, nucL2)
    case None => Err(AttributeError)
    case Some(c) => Ok(c)
  }

  /** The search loop with `break`. */
  method FindNucleusFragment(g: Graph, nucL2: int) returns (r: Result<Graph>)
    ensures r == NucleusFragment(g, nucL2)
  {
    var c := SearchComponents(g, nucL2);
    if c.None? {
      return Err(AttributeError);
    }
    return Ok(c.value);
  }

  // ---------------------------------------------------------------------------
  // The lineage tree

  /** A lineage tree node: a root id and its children. */
  datatype Tree = Tree(name: int, children: seq<Tree>)

  /** A node with its depth below the tree root. */
  datatype Placed = Placed(node: Tree, depth: nat)

  /** The nodes of a forest in pre-order, with their depths. */
  function PreOrder(ts: seq<Tree>, depth: nat): (ps: seq<Placed>)
    decreases ts
  {
    if |ts| == 0 then []
    else [Placed(ts[0], depth)] + PreOrder(ts[0].children, depth + 1) + PreOrder(ts[1..], depth)
  }

  /** The names of all nodes below `t` (anytree's `descendants`). */
  function Descendants(t: Tree): (ns: seq<int>) {
    var ps := PreOrder(t.children, 0);
    seq(|ps|, i requires 0 <= i < |ps| => ps[i].node.name)
  }

  datatype Status = Internal | Leaf | WeirdLeaf

  /** The status a node ends with: internal unless it has no children; a leaf is a
      weird leaf when its own lineage tree shows further edits. */
  function StatusOf(t: Tree, extended: int -> bool): Status {
    if |t.children| > 0 then Internal else if extended(t.name) then WeirdLeaf else Leaf
  }

  /** The lineage tree's nodes in pre-order with their `status` attribute. */
  class LineageStatus {
    var nodes: seq<Placed>
    var status: seq<Status>

    constructor (root: Tree)
      ensures nodes == PreOrder([root], 0) && status == []
    {
      nodes := PreOrder([root], 0);
      status := [];
    }

    /** Every node is set to internal, then every leaf to leaf, or to weird leaf when
        `extended` says its own lineage tree is not a single node. The weird leaves
        are returned in pre-order. */
    method LabelStatuses(extended: int -> bool) returns (weird: seq<int>)
      modifies this
      ensures nodes == old(nodes) && |status| == |nodes|
      ensures forall i :: 0 <= i < |nodes| ==> status[i] == StatusOf(nodes[i].node, extended)
      ensures forall x :: x in weird <==>
        exists i :: 0 <= i < |nodes| && status[i] == WeirdLeaf && nodes[i].node.name == x
    {
      var ns := nodes;
      status := seq(|ns|, i => Internal);
      weird := [];
      var i := 0;
      while i < |ns|
        invariant 0 <= i <= |ns| && nodes == ns && |status| == |ns|
        invariant forall k :: 0 <= k < i ==> status[k] == StatusOf(ns[k].node, extended)
        invariant forall k :: i <= k < |ns| ==> status[k] == Internal
        invariant forall x :: x in weird <==>
          exists k :: 0 <= k < i && status[k] == WeirdLeaf && ns[k].node.name == x
      {
        if |ns[i].node.children| == 0 {
          status := status[i := Leaf];
          if extended(ns[i].node.name) {
            status := status[i := WeirdLeaf];
            weird := weird + [ns[i].node.name];
          }
        }
        i := i + 1;
      }
    }
  }

  /** Every node gets exactly one of the three statuses, and a node is internal
      exactly when it has children. */
  lemma StatusExclusive(t: Tree, extended: int -> bool)
    ensures (StatusOf(t, extended) == Internal) <==> |t.children| > 0
    ensures StatusOf(t, extended) == WeirdLeaf <==> |t.children| == 0 && extended(t.name)
    ensures StatusOf(t, extended) == Leaf <==> |t.children| == 0 && !extended(t.name)
  {
  }

  /** A node whose descendants include every searched id. */
  predicate Covers(t: Tree, search: seq<int>) {
    forall s :: s in search ==> s in Descendants(t)
  }

  /** The nearest-common-ancestor search: the nodes whose descendants include every
      searched id are collected in pre-order, and one of greatest depth is chosen.
      The sort by depth is not stable, so which of several equally deep nodes
      `idxmax` returns is not fixed; the contract names none of them. When no node
      qualifies the empty row table has no `node_id` column (`KeyError`). */
  method NearestCommonAncestor(root: Tree, search: seq<int>) returns (r: Result<int>)
    ensures var ps := PreOrder([root], 0);
      r.Ok? <==> exists p :: p in ps && Covers(p.node, search)
    ensures r.Err? ==> r.error == KeyError
    ensures var ps := PreOrder([root], 0);
      r.Ok? ==>
        exists p :: (p in ps && p.node.name == r.value && Covers(p.node, search) &&
          forall q :: q in ps && Covers(q.node, search) ==> q.depth <= p.depth)
  {
    var ps := PreOrder([root], 0);
    var rows: seq<Placed> := [];
    var i := 0;
    while i < |ps|
      invariant 0 <= i <= |ps|
      invariant forall p :: p in rows <==> p in ps[..i] && Covers(p.node, search)
    {
      assert ps[..i + 1] == ps[..i] + [ps[i]];
      if Covers(ps[i].node, search) {
        rows := rows + [ps[i]];
      }
      i := i + 1;
    }
    assert ps[..|ps|] == ps;
    if |rows| == 0 {
      return Err(KeyError);
    }
    var best := 0;
    var j := 1;
    while j < |rows|
      invariant 0 <= best < |rows| && 1 <= j <= |rows|
      invariant forall k :: 0 <= k < j ==> rows[k].depth <= rows[best].depth
    {
      if rows[j].depth > rows[best].depth {
        best := j;
      }
      j := j + 1;
    }
    assert rows[best] in rows;
    return Ok(rows[best].node.name);
  }
}
