/** Edit deltas of level-2 graphs: which nodes and edges one proofreading operation
    adds or removes, how several deltas are combined, the edit lineage graph that
    links removed to added nodes, and its grouping into meta-operations. */
module Changes {
  import opened Seqs
  import opened Wrappers
  import opened Graphs

  // ---------------------------------------------------------------------------
  // Changed edges

  /** The edges removed and added by an edit, as `(removed, added)`: in the
      concatenation of the before and after tables, a `(source, target)` pair is kept
      only when it occurs exactly once; kept rows from the before table are removed
      edges, kept rows from the after table are added edges. */
  function ChangedEdges(before: seq<Edge>, after: seq<Edge>): (r: (seq<Edge>, seq<Edge>))
    ensures forall e :: e in r.0 ==> e in before && e !in after
    ensures forall e :: e in r.1 ==> e in after && e !in before
    ensures |r.0| <= |before| && |r.1| <= |after|
  {
    var all := multiset(before + after);
    var once := (e: Edge) => all[e] == 1;
    var removed := Filter(before, once);
    var added := Filter(after, once);
    assert forall e :: e in removed ==> e in before && e !in after by {
      forall e | e in removed ensures e in before && e !in after {
        assert all == multiset(before) + multiset(after);
      }
    }
    assert forall e :: e in added ==> e in after && e !in before by {
      forall e | e in added ensures e in after && e !in before {
        assert all == multiset(before) + multiset(after);
      }
    }
    (removed, added)
  }

  /** For duplicate-free tables the removed edges are exactly the before pairs that
      are not after pairs, the added edges the after pairs that are not before pairs,
      so the two results are disjoint. */
  lemma ChangedEdgesAreDifferences(before: seq<Edge>, after: seq<Edge>)
    requires NoDup(before) && NoDup(after)
    ensures forall e :: e in ChangedEdges(before, after).0 <==> e in before && e !in after
    ensures forall e :: e in ChangedEdges(before, after).1 <==> e in after && e !in before
    ensures Elems(ChangedEdges(before, after).0) !! Elems(ChangedEdges(before, after).1)
  {
    var r := ChangedEdges(before, after);
    var all := multiset(before + after);
    assert all == multiset(before) + multiset(after);
    forall e | e in before && e !in after ensures e in r.0 {
      NoDupCount(before, e);
      var i :| 0 <= i < |before| && before[i] == e;
      assert all[e] == 1;
    }
    forall e | e in after && e !in before ensures e in r.1 {
      NoDupCount(after, e);
      var i :| 0 <= i < |after| && after[i] == e;
      assert all[e] == 1;
    }
  }

  /** A pair that occurs twice in one input table is dropped from both results,
      because the de-duplicated tables are never used. */
  lemma ChangedEdgesDropRepeats(before: seq<Edge>, after: seq<Edge>, e: Edge)
    requires multiset(before)[e] >= 2 || multiset(after)[e] >= 2
    ensures e !in ChangedEdges(before, after).0 && e !in ChangedEdges(before, after).1
  {
    assert multiset(before + after) == multiset(before) + multiset(after);
  }

  lemma Singleton<T>(s: seq<T>, x: T)
    requires x in s && |s| <= 1
    ensures s == [x]
  {
  }

  /** Direction matters: reversing an edge removes the old pair and adds the new one. */
  lemma ChangedEdgesDirected(a: int, b: int)
    requires a != b
    ensures ChangedEdges([Edge(a, b)], [Edge(b, a)]) == ([Edge(a, b)], [Edge(b, a)])
  {
    var r := ChangedEdges([Edge(a, b)], [Edge(b, a)]);
    ChangedEdgesAreDifferences([Edge(a, b)], [Edge(b, a)]);
    assert Edge(a, b) in r.0 && Edge(b, a) in r.1;
    Singleton(r.0, Edge(a, b));
    Singleton(r.1, Edge(b, a));
  }

  /** An edge table that `get_changed_edges` writes an `is_before` column into. */
  class EdgeTable {
    var rows: seq<Edge>
    var isBefore: Option<bool>

    constructor (rows: seq<Edge>)
      ensures this.rows == rows && isBefore == None
    {
      this.rows := rows;
      isBefore := None;
    }
  }

  /** `get_changed_edges`, including its side effect: both input tables gain an
      `is_before` column (true for the before table, false for the after table),
      their rows stay as they were. */
  method GetChangedEdges(before: EdgeTable, after: EdgeTable)
    returns (removed: seq<Edge>, added: seq<Edge>)
    requires before != after
    modifies before, after
    ensures before.rows == old(before.rows) && after.rows == old(after.rows)
    ensures before.isBefore == Some(true) && after.isBefore == Some(false)
    ensures (removed, added) == ChangedEdges(old(before.rows), old(after.rows))
  {
    before.isBefore := Some(true);
    after.isBefore := Some(false);
    var r := ChangedEdges(before.rows, after.rows);
    removed, added := r.0, r.1;
  }

  // ---------------------------------------------------------------------------
  // Detailed change log

  /** One row of the tabular change log. */
  datatype LogEntry = LogEntry(operationId: int, timestamp: int)

  /** What the operation-details service reports for one operation. */
  datatype OperationDetail = OperationDetail(isMerge: bool, beforeRootIds: seq<int>, rootIds: seq<int>)

  predicate SortedByTime(log: seq<LogEntry>) {
    forall i, j :: 0 <= i < j < |log| ==> log[i].timestamp <= log[j].timestamp
  }

  /** Every entry of a permutation of the tail of a sorted log, plus a later entry,
      is no earlier than the head. */
  lemma TailAfterHead(log: seq<LogEntry>, x: LogEntry, t: seq<LogEntry>)
    requires SortedByTime(log) && |log| > 0 && log[0].timestamp <= x.timestamp
    requires multiset(t) == multiset(log[1..]) + multiset{x}
    ensures forall k :: 0 <= k < |t| ==> log[0].timestamp <= t[k].timestamp
  {
    forall k | 0 <= k < |t| ensures log[0].timestamp <= t[k].timestamp {
      assert t[k] in multiset(t);
      if t[k] != x {
        assert t[k] in multiset(log[1..]);
        var j :| 0 <= j < |log[1..]| && log[1..][j] == t[k];
        assert log[j + 1] == t[k];
      }
    }
  }

  function InsertByTime(log: seq<LogEntry>, x: LogEntry): (r: seq<LogEntry>)
    requires SortedByTime(log)
    ensures SortedByTime(r)
    ensures multiset(r) == multiset(log) + multiset{x}
  {
    if |log| == 0 then [x]
    else if x.timestamp < log[0].timestamp then [x] + log
    else
      var t := InsertByTime(log[1..], x);
      assert log == [log[0]] + log[1..];
      TailAfterHead(log, x, t);
      [log[0]] + t
  }

  /** `sort_values("timestamp")`: the same rows, ordered by time. */
  function SortByTime(log: seq<LogEntry>): (r: seq<LogEntry>)
    ensures SortedByTime(r)
    ensures multiset(r) == multiset(log)
  {
    if |log| == 0 then []
    else
      assert log == log[..|log| - 1] + [log[|log| - 1]];
      InsertByTime(SortByTime(log[..|log| - 1]), log[|log| - 1])
  }

  /** Number of operations whose details are requested at once. */
  const ChunkSize: nat := 500

  function Min(a: int, b: int): int { if a <= b then a else b }

  /** The consecutive slices `ids[i : i + 500]` for `i` in `range(from, len(ids), 500)`. */
  function Batches(ids: seq<int>, from: nat): seq<seq<int>>
    decreases |ids| - from
  {
    if from >= |ids| then []
    else [ids[from..Min(from + ChunkSize, |ids|)]] + Batches(ids, from + ChunkSize)
  }

  function Flatten(bs: seq<seq<int>>): seq<int> {
    if |bs| == 0 then [] else bs[0] + Flatten(bs[1..])
  }

  /** The batches cover the ids from `from` on exactly once and in order, and each
      holds between 1 and 500 ids. */
  lemma {:induction false} BatchesCover(ids: seq<int>, from: nat)
    requires from <= |ids|
    ensures Flatten(Batches(ids, from)) == ids[from..]
    ensures forall k :: 0 <= k < |Batches(ids, from)| ==> 0 < |Batches(ids, from)[k]| <= ChunkSize
    decreases |ids| - from
  {
    if from < |ids| {
      var hi := Min(from + ChunkSize, |ids|);
      if from + ChunkSize <= |ids| {
        BatchesCover(ids, from + ChunkSize);
        assert ids[from..] == ids[from..hi] + ids[from + ChunkSize..];
      } else {
        assert Batches(ids, from + ChunkSize) == [];
      }
    }
  }

  /** The details gathered by requesting the batches in order, later answers
      overwriting earlier ones; the first failed request ends the gathering. */
  function Gather(fetch: seq<int> -> Result<map<int, OperationDetail>>,
                  bs: seq<seq<int>>, acc: map<int, OperationDetail>): Result<map<int, OperationDetail>>
  {
    if |bs| == 0 then Ok(acc)
    else match fetch(bs[0])
      case Err(e) => Err(e)
      case Ok(sub) => Gather(fetch, bs[1..], acc + sub)
  }

  /** A change-log row joined with its details (absent when none were returned). */
  datatype DetailedEntry = DetailedEntry(operationId: int, detail: Option<OperationDetail>)

  /** `change_log.join(details)`: every row keeps its place and gets the details
      reported for its operation id, or none. */
  function JoinDetails(ids: seq<int>, details: map<int, OperationDetail>): (rows: seq<DetailedEntry>)
    ensures |rows| == |ids|
    ensures forall k :: 0 <= k < |ids| ==> rows[k].operationId == ids[k]
    ensures forall k :: 0 <= k < |ids| ==>
      (rows[k].detail.Some? <==> ids[k] in details) &&
      (ids[k] in details ==> rows[k].detail.value == details[ids[k]])
  {
    seq(|ids|, k requires 0 <= k < |ids| =>
      DetailedEntry(ids[k], if ids[k] in details then Some(details[ids[k]]) else None))
  }

  /** The operation ids of the log in time order: one per row, the ids of the log. */
  function TimeOrderedIds(log: seq<LogEntry>): (ids: seq<int>)
    ensures |ids| == |log|
    ensures Elems(ids) == set e | e in log :: e.operationId
  {
    var sorted := SortByTime(log);
    assert |sorted| == |log| by { assert |multiset(sorted)| == |multiset(log)|; }
    var ids := seq(|sorted|, k requires 0 <= k < |sorted| => sorted[k].operationId);
    assert forall e :: e in log <==> e in sorted by {
      forall e ensures e in log <==> e in sorted {
        assert e in log <==> e in multiset(log);
      }
    }
    assert Elems(ids) == set e | e in log :: e.operationId by {
      forall x | x in Elems(ids) ensures x in set e | e in log :: e.operationId {
        var k :| 0 <= k < |ids| && ids[k] == x;
        assert sorted[k] in log;
      }
      forall x | x in set e | e in log :: e.operationId ensures x in Elems(ids) {
        var e :| e in log && e.operationId == x;
        var k :| 0 <= k < |sorted| && sorted[k] == e;
        assert ids[k] == x;
      }
    }
    ids
  }

  /** The request loop of `get_detailed_change_log`: batches of 500 ids in order,
      each answer merged into `details`; a failed request ends the loop. */
  method RequestDetails(ids: seq<int>, fetch: seq<int> -> Result<map<int, OperationDetail>>)
    returns (r: Result<map<int, OperationDetail>>)
    ensures r == Gather(fetch, Batches(ids, 0), map[])
  {
    var details: map<int, OperationDetail> := map[];
    var i := 0;
    while i < |ids|
      invariant 0 <= i
      invariant i < |ids| ==> i % ChunkSize == 0
      invariant Gather(fetch, Batches(ids, 0), map[]) == Gather(fetch, Batches(ids, i), details)
      decreases |ids| - i
    {
      var sub := fetch(ids[i..Min(i + ChunkSize, |ids|)]);
      if sub.Err? {
        return sub;
      }
      details := details + sub.value;
      i := i + ChunkSize;
    }
    return Ok(details);
  }

  /** `get_detailed_change_log` with the details service as `fetch`: a failed
      request raises its own error (an `HTTPError` is re-raised as `HTTPError`, any
      other error passes through the handler unchanged), a detail count that
      differs from the log length raises `AssertionError`; otherwise the
      time-ordered log joined with the details. */
  method GetDetailedChangeLog(log: seq<LogEntry>, fetch: seq<int> -> Result<map<int, OperationDetail>>)
    returns (r: Result<seq<DetailedEntry>>)
    ensures var ids := TimeOrderedIds(log);
      match Gather(fetch, Batches(ids, 0), map[])
      case Err(e) => r == Err(e)
      case Ok(details) =>
        r == (if |details| != |log| then Err(AssertionError) else Ok(JoinDetails(ids, details)))
  {
    var ids := TimeOrderedIds(log);
    var details := RequestDetails(ids, fetch);
    if details.Err? {
      return Err(details.error);
    }
    if |details.value| != |log| {
      return Err(AssertionError);
    }
    return Ok(JoinDetails(ids, details.value));
  }

  // ---------------------------------------------------------------------------
  // Network deltas

  /** `NetworkDelta`: node ids and edge pairs that one edit (or a group of edits)
      removes and adds. */
  datatype NetworkDelta = NetworkDelta(
    removedNodes: seq<int>, addedNodes: seq<int>,
    removedEdges: seq<Edge>, addedEdges: seq<Edge>)

  /** `index.difference`: the ids of `a` that are not in `b`, sorted, each once. */
  function IndexDifference(a: seq<int>, b: seq<int>): (r: seq<int>)
    ensures Increasing(r)
    ensures forall v :: v in r <==> v in a && v !in b
  {
    var keep := (v: int) => v !in b;
    var f := Filter(a, keep);
    var r := SortedUnique(f);
    assert forall v :: v in f <==> v in a && v !in b by {
      forall v ensures v in f <==> v in a && v !in b {
        if v in a && v !in b {
          var i :| 0 <= i < |a| && a[i] == v;
        }
      }
    }
    r
  }

  /** The delta of one operation from the union of the before pieces and the union
      of the after pieces. Added nodes are after minus before, removed nodes before
      minus after, so no node is both added and removed. */
  function OperationDelta(before: Graph, after: Graph): (d: NetworkDelta)
    ensures Elems(d.addedNodes) == NodeSet(after) - NodeSet(before)
    ensures Elems(d.removedNodes) == NodeSet(before) - NodeSet(after)
    ensures Elems(d.addedNodes) !! Elems(d.removedNodes)
    ensures Increasing(d.addedNodes) && Increasing(d.removedNodes)
  {
    var changed := ChangedEdges(before.edges, after.edges);
    NetworkDelta(IndexDifference(before.nodes, after.nodes), IndexDifference(after.nodes, before.nodes),
                 changed.0, changed.1)
  }

  /** One delta applied to a frame in the order every replay uses: add nodes, add
      edges, remove nodes (with their edges), remove edges. */
  function ApplyDelta(g: Graph, d: NetworkDelta): (r: Graph)
    ensures NodeSet(r) == (NodeSet(g) + Elems(d.addedNodes)) - Elems(d.removedNodes)
    ensures EdgeSet(r) == set e | e in EdgeSet(g) + Elems(d.addedEdges) &&
      !Touches(e, Elems(d.removedNodes)) && e !in Elems(d.removedEdges)
  {
    MinusEdges(MinusNodes(PlusEdges(PlusNodes(g, d.addedNodes), d.addedEdges), d.removedNodes), d.removedEdges)
  }

  /** A frame whose edges all join two of its nodes, with no edge row repeated. */
  predicate WellFormed(g: Graph) {
    NoDup(g.edges) && forall e :: e in g.edges ==> e.source in g.nodes && e.target in g.nodes
  }

  lemma OperationDeltaEdges(before: Graph, after: Graph)
    requires WellFormed(before) && WellFormed(after)
    ensures var d := OperationDelta(before, after);
      forall e :: e in EdgeSet(after) <==>
        e in EdgeSet(before) + Elems(d.addedEdges) && !Touches(e, Elems(d.removedNodes)) && e !in Elems(d.removedEdges)
  {
    var d := OperationDelta(before, after);
    ChangedEdgesAreDifferences(before.edges, after.edges);
    forall e ensures e in EdgeSet(after) <==>
        e in EdgeSet(before) + Elems(d.addedEdges) && !Touches(e, Elems(d.removedNodes)) && e !in Elems(d.removedEdges)
    {
      if e in EdgeSet(after) {
        assert e in after.edges;
        assert e.source in after.nodes && e.target in after.nodes;
        assert e.source !in Elems(d.removedNodes) && e.target !in Elems(d.removedNodes);
      }
    }
  }

  /** Replaying an operation's delta on its before state yields its after state. */
  lemma ApplyOperationDelta(before: Graph, after: Graph)
    requires WellFormed(before) && WellFormed(after)
    ensures Same(ApplyDelta(before, OperationDelta(before, after)), after)
  {
    OperationDeltaEdges(before, after);
  }

  /** Neither delta adds a node, an edge or an edge end that the other removes. */
  predicate Independent(d1: NetworkDelta, d2: NetworkDelta) {
    && Elems(d1.addedNodes) !! Elems(d2.removedNodes)
    && Elems(d1.addedEdges) !! Elems(d2.removedEdges)
    && (forall e :: e in d1.addedEdges ==> !Touches(e, Elems(d2.removedNodes)))
  }

  /** One half of commutation: applying `d1` then `d2` keeps nothing that `d2`
      then `d1` drops. */
  lemma CommuteInto(g: Graph, d1: NetworkDelta, d2: NetworkDelta)
    requires Independent(d1, d2) && Independent(d2, d1)
    ensures NodeSet(ApplyDelta(ApplyDelta(g, d1), d2)) <= NodeSet(ApplyDelta(ApplyDelta(g, d2), d1))
    ensures EdgeSet(ApplyDelta(ApplyDelta(g, d1), d2)) <= EdgeSet(ApplyDelta(ApplyDelta(g, d2), d1))
  {
    var a := ApplyDelta(ApplyDelta(g, d1), d2);
    forall e | e in EdgeSet(a) ensures e in EdgeSet(ApplyDelta(ApplyDelta(g, d2), d1)) {
      if e in d1.addedEdges { assert !Touches(e, Elems(d2.removedNodes)); }
    }
  }

  /** Two deltas commute when neither adds what the other removes. */
  lemma DeltasCommute(g: Graph, d1: NetworkDelta, d2: NetworkDelta)
    requires Independent(d1, d2) && Independent(d2, d1)
    ensures Same(ApplyDelta(ApplyDelta(g, d1), d2), ApplyDelta(ApplyDelta(g, d2), d1))
  {
    CommuteInto(g, d1, d2);
    CommuteInto(g, d2, d1);
  }

  /** A delta that adds a node removed by an earlier one does not commute with it. */
  lemma DeltasNeedIndependence(v: int)
    ensures var d1 := NetworkDelta([v], [], [], []);
      var d2 := NetworkDelta([], [v], [], []);
      var g := Graph([v], []);
      v in NodeSet(ApplyDelta(ApplyDelta(g, d1), d2)) &&
      v !in NodeSet(ApplyDelta(ApplyDelta(g, d2), d1))
  {
  }

  function AddedNodesOf(d: NetworkDelta): seq<int> { d.addedNodes }
  function RemovedNodesOf(d: NetworkDelta): seq<int> { d.removedNodes }
  function AddedEdgesOf(d: NetworkDelta): seq<Edge> { d.addedEdges }
  function RemovedEdgesOf(d: NetworkDelta): seq<Edge> { d.removedEdges }

  /** The `part` lists of all deltas, concatenated in order. */
  function Concat<T(!new)>(ds: seq<NetworkDelta>, part: NetworkDelta -> seq<T>): (r: seq<T>)
    ensures forall x :: x in r <==> exists i :: 0 <= i < |ds| && x in part(ds[i])
  {
    if |ds| == 0 then []
    else
      var r := Concat(ds[..|ds| - 1], part) + part(ds[|ds| - 1]);
      assert forall i :: 0 <= i < |ds| - 1 ==> ds[..|ds| - 1][i] == ds[i];
      r
  }

  /** `combine_deltas`: the members' lists concatenated. Concatenating no deltas
      fails, and so does a node id repeated among the added (or among the removed)
      nodes or a `(source, target)` key repeated among the added (or the removed)
      edges; an id added by one member and removed by another is not checked. */
  function CombineDeltas(ds: seq<NetworkDelta>): (r: Result<NetworkDelta>)
    ensures r.Ok? <==>
      |ds| > 0 &&
      NoDup(Concat(ds, AddedNodesOf)) && NoDup(Concat(ds, RemovedNodesOf)) &&
      NoDup(Concat(ds, AddedEdgesOf)) && NoDup(Concat(ds, RemovedEdgesOf))
    ensures r.Err? ==> r.error == ValueError
    ensures r.Ok? ==>
      (forall v :: v in r.value.addedNodes <==> exists i :: 0 <= i < |ds| && v in ds[i].addedNodes) &&
      (forall v :: v in r.value.removedNodes <==> exists i :: 0 <= i < |ds| && v in ds[i].removedNodes) &&
      (forall e :: e in r.value.addedEdges <==> exists i :: 0 <= i < |ds| && e in ds[i].addedEdges) &&
      (forall e :: e in r.value.removedEdges <==> exists i :: 0 <= i < |ds| && e in ds[i].removedEdges)
  {
    if |ds| == 0 then Err(ValueError)
    else
      var addedNodes := Concat(ds, AddedNodesOf);
      var removedNodes := Concat(ds, RemovedNodesOf);
      var addedEdges := Concat(ds, AddedEdgesOf);
      var removedEdges := Concat(ds, RemovedEdgesOf);
      if !NoDup(addedNodes) || !NoDup(removedNodes) || !NoDup(addedEdges) || !NoDup(removedEdges)
      then Err(ValueError)
      else Ok(NetworkDelta(removedNodes, addedNodes, removedEdges, addedEdges))
  }

  lemma ConcatPair<T(!new)>(d1: NetworkDelta, d2: NetworkDelta, part: NetworkDelta -> seq<T>)
    ensures Concat([d1, d2], part) == part(d1) + part(d2)
  {
    var ds := [d1, d2];
    assert ds[..1] == [d1] && ds[..1][..0] == [];
    assert Concat(ds[..1][..0], part) == [];
    assert Concat(ds[..1], part) == part(d1);
  }

  /** Combining accepts a node that one member adds and another removes. */
  lemma CombineAcceptsAddThenRemove(v: int)
    ensures CombineDeltas([NetworkDelta([], [v], [], []), NetworkDelta([v], [], [], [])]).Ok?
  {
    var d1, d2 := NetworkDelta([], [v], [], []), NetworkDelta([v], [], [], []);
    ConcatPair(d1, d2, AddedNodesOf);
    ConcatPair(d1, d2, RemovedNodesOf);
    ConcatPair(d1, d2, AddedEdgesOf);
    ConcatPair(d1, d2, RemovedEdgesOf);
  }

  /** Combining rejects a node that two members both add. */
  lemma CombineRejectsRepeatedAdd(v: int)
    ensures CombineDeltas([NetworkDelta([], [v], [], []), NetworkDelta([], [v], [], [])]) == Err(ValueError)
  {
    var d := NetworkDelta([], [v], [], []);
    ConcatPair(d, d, AddedNodesOf);
    assert [d, d] == [NetworkDelta([], [v], [], []), NetworkDelta([], [v], [], [])];
    assert Concat([d, d], AddedNodesOf)[0] == Concat([d, d], AddedNodesOf)[1];
  }

  // ---------------------------------------------------------------------------
  // Edit lineage graph

  /** The attributes stored on a lineage edge. */
  datatype EditLabel = EditLabel(operationId: int, isMerge: bool)

  /** The directed lineage graph: nodes and edges in insertion order, and the
      attributes of each edge. */
  datatype Lineage = Lineage(nodes: seq<int>, edges: seq<Edge>, attrs: map<Edge, EditLabel>)

  const EmptyLineage := Lineage([], [], map[])

  /** Every node and edge is listed once, every edge has its ends among the nodes
      and carries attributes. */
  predicate LineageValid(l: Lineage) {
    && NoDup(l.nodes) && NoDup(l.edges)
    && l.attrs.Keys == Elems(l.edges)
    && (forall e :: e in l.edges ==> e.source in l.nodes && e.target in l.nodes)
  }

  /** `add_edge(u, v, ...)`: adds the missing ends and the edge, and sets the edge's
      attributes, overwriting those of an edge already present. */
  function AddArc(l: Lineage, u: int, v: int, lab: EditLabel): (r: Lineage)
    requires LineageValid(l)
    ensures LineageValid(r)
    ensures forall e :: e in r.edges <==> e in l.edges || e == Edge(u, v)
    ensures r.attrs == l.attrs[Edge(u, v) := lab]
  {
    var n1 := if u in l.nodes then l.nodes else l.nodes + [u];
    var n2 := if v in n1 then n1 else n1 + [v];
    var es := if Edge(u, v) in l.edges then l.edges else l.edges + [Edge(u, v)];
    Lineage(n2, es, l.attrs[Edge(u, v) := lab])
  }

  /** Edges from `u` to each of `added`, in order. */
  function AddRow(l: Lineage, u: int, added: seq<int>, lab: EditLabel): (r: Lineage)
    requires LineageValid(l)
    ensures LineageValid(r)
  {
    if |added| == 0 then l
    else AddArc(AddRow(l, u, added[..|added| - 1], lab), u, added[|added| - 1], lab)
  }

  lemma {:induction false} AddRowSpec(l: Lineage, u: int, added: seq<int>, lab: EditLabel)
    requires LineageValid(l)
    ensures var r := AddRow(l, u, added, lab);
      (forall e :: e in r.edges <==> e in l.edges || (e.source == u && e.target in added)) &&
      (forall e :: e in r.attrs ==>
        r.attrs[e] == if e.source == u && e.target in added then lab else l.attrs[e])
  {
    if |added| > 0 {
      AddRowSpec(l, u, added[..|added| - 1], lab);
      assert forall a :: a in added <==> a in added[..|added| - 1] || a == added[|added| - 1] by {
        assert added == added[..|added| - 1] + [added[|added| - 1]];
      }
    }
  }

  /** The edge is one of `removed` × `added`. */
  predicate InBlock(removed: seq<int>, added: seq<int>, e: Edge) {
    e.source in removed && e.target in added
  }

  /** Edges from each of `removed` to each of `added`: the nested loops of
      `get_network_edits`. */
  function AddBlock(l: Lineage, removed: seq<int>, added: seq<int>, lab: EditLabel): (r: Lineage)
    requires LineageValid(l)
    ensures LineageValid(r)
  {
    if |removed| == 0 then l
    else AddRow(AddBlock(l, removed[..|removed| - 1], added, lab), removed[|removed| - 1], added, lab)
  }

  /** The lineage gains exactly the edges `removed` × `added`, and those carry the
      new attributes while all other edges keep theirs. */
  lemma {:induction false} AddBlockSpec(l: Lineage, removed: seq<int>, added: seq<int>, lab: EditLabel)
    requires LineageValid(l)
    ensures var r := AddBlock(l, removed, added, lab);
      (forall e :: e in r.edges <==> e in l.edges || InBlock(removed, added, e)) &&
      (forall e :: e in r.attrs ==>
        r.attrs[e] == if InBlock(removed, added, e) then lab else l.attrs[e])
  {
    if |removed| > 0 {
      var pre := removed[..|removed| - 1];
      var x := removed[|removed| - 1];
      AddBlockSpec(l, pre, added, lab);
      AddRowSpec(AddBlock(l, pre, added, lab), x, added, lab);
      InBlockSnoc(removed, added);
    }
  }

  lemma InBlockSnoc(removed: seq<int>, added: seq<int>)
    requires |removed| > 0
    ensures forall e :: InBlock(removed, added, e) <==>
      InBlock(removed[..|removed| - 1], added, e) || (e.source == removed[|removed| - 1] && e.target in added)
  {
    assert removed == removed[..|removed| - 1] + [removed[|removed| - 1]];
  }

  /** A change-log row with its operation details. */
  datatype ChangeRow = ChangeRow(operationId: int, detail: OperationDetail)

  /** An operation's lineage attributes together with its delta. */
  datatype OpDelta = OpDelta(attrs: EditLabel, delta: NetworkDelta)

  function RowLabel(row: ChangeRow): EditLabel {
    EditLabel(row.operationId, row.detail.isMerge)
  }

  /** The delta of every change-log row, with `nodesEdges` standing for the service
      call that returns the union of the level-2 graphs of some root ids. */
  function RowDeltas(rows: seq<ChangeRow>, nodesEdges: seq<int> -> Graph): (ops: seq<OpDelta>)
    ensures |ops| == |rows|
    ensures forall k :: 0 <= k < |rows| ==> ops[k].attrs == RowLabel(rows[k])
  {
    seq(|rows|, k requires 0 <= k < |rows| =>
      OpDelta(RowLabel(rows[k]),
        OperationDelta(nodesEdges(rows[k].detail.beforeRootIds), nodesEdges(rows[k].detail.rootIds))))
  }

  /** No change-log row both removes and adds a node. */
  lemma RowDeltasDisjoint(rows: seq<ChangeRow>, nodesEdges: seq<int> -> Graph)
    ensures forall op :: op in RowDeltas(rows, nodesEdges) ==>
      Elems(op.delta.removedNodes) !! Elems(op.delta.addedNodes)
  {
    var ops := RowDeltas(rows, nodesEdges);
    forall op | op in ops ensures Elems(op.delta.removedNodes) !! Elems(op.delta.addedNodes) {
      var k :| 0 <= k < |ops| && ops[k] == op;
      var row := rows[k];
      var d := OperationDelta(nodesEdges(row.detail.beforeRootIds), nodesEdges(row.detail.rootIds));
      assert op.delta == d;
    }
  }

  /** The delta of each operation stored under its operation id; a later operation
      with the same id overwrites an earlier one. */
  function DeltaMap(ops: seq<OpDelta>): (m: map<int, NetworkDelta>)
    ensures m.Keys == Elems(OperationIds(ops))
  {
    if |ops| == 0 then map[]
    else
      var op := ops[|ops| - 1];
      OperationIdsSnoc(ops);
      DeltaMap(ops[..|ops| - 1])[op.attrs.operationId := op.delta]
  }

  /** An operation that no later operation shares its id with keeps its own delta. */
  lemma {:induction false} DeltaMapLastWins(ops: seq<OpDelta>, k: nat)
    requires k < |ops|
    requires forall j :: k < j < |ops| ==> ops[j].attrs.operationId != ops[k].attrs.operationId
    ensures ops[k].attrs.operationId in DeltaMap(ops) && DeltaMap(ops)[ops[k].attrs.operationId] == ops[k].delta
  {
    assert OperationIds(ops)[k] == ops[k].attrs.operationId;
    if k < |ops| - 1 {
      var pre := ops[..|ops| - 1];
      assert pre[k] == ops[k];
      DeltaMapLastWins(pre, k);
    }
  }

  /** The lineage graph after linking the removed × added nodes of each operation. */
  function LineageOf(ops: seq<OpDelta>): (l: Lineage)
    ensures LineageValid(l)
  {
    if |ops| == 0 then EmptyLineage
    else
      var op := ops[|ops| - 1];
      AddBlock(LineageOf(ops[..|ops| - 1]), op.delta.removedNodes, op.delta.addedNodes, op.attrs)
  }

  /** A mutable directed lineage graph. */
  class LineageGraph {
    var nodes: seq<int>
    var edges: seq<Edge>
    var attrs: map<Edge, EditLabel>

    function View(): Lineage
      reads this
    {
      Lineage(nodes, edges, attrs)
    }

    constructor ()
      ensures View() == EmptyLineage
    {
      nodes, edges, attrs := [], [], map[];
    }

    method AddEdge(u: int, v: int, lab: EditLabel)
      requires LineageValid(View())
      modifies this
      ensures View() == AddArc(old(View()), u, v, lab)
    {
      if u !in nodes { nodes := nodes + [u]; }
      if v !in nodes { nodes := nodes + [v]; }
      if Edge(u, v) !in edges { edges := edges + [Edge(u, v)]; }
      attrs := attrs[Edge(u, v) := lab];
    }
  }

  /** The inner loop of `get_network_edits`: an edge from `u` to every added node. */
  method LinkToAdded(lineage: LineageGraph, u: int, added: seq<int>, lab: EditLabel)
    requires LineageValid(lineage.View())
    modifies lineage
    ensures lineage.View() == AddRow(old(lineage.View()), u, added, lab)
  {
    ghost var start := lineage.View();
    var j := 0;
    while j < |added|
      invariant 0 <= j <= |added|
      invariant lineage.View() == AddRow(start, u, added[..j], lab)
    {
      lineage.AddEdge(u, added[j], lab);
      assert added[..j + 1][..j] == added[..j];
      j := j + 1;
    }
    assert added[..j] == added;
  }

  /** The nested loops of `get_network_edits`: an edge from every removed node to
      every added node, in order. */
  method LinkRemovedToAdded(lineage: LineageGraph, removed: seq<int>, added: seq<int>, lab: EditLabel)
    requires LineageValid(lineage.View())
    modifies lineage
    ensures lineage.View() == AddBlock(old(lineage.View()), removed, added, lab)
  {
    ghost var start := lineage.View();
    var i := 0;
    while i < |removed|
      invariant 0 <= i <= |removed|
      invariant lineage.View() == AddBlock(start, removed[..i], added, lab)
    {
      LinkToAdded(lineage, removed[i], added, lab);
      assert removed[..i + 1][..i] == removed[..i];
      i := i + 1;
    }
    assert removed[..i] == removed;
  }

  /** One more operation extends both folds by that operation. */
  lemma EditsSnoc(ops: seq<OpDelta>, k: nat)
    requires k < |ops|
    ensures DeltaMap(ops[..k + 1]) == DeltaMap(ops[..k])[ops[k].attrs.operationId := ops[k].delta]
    ensures LineageOf(ops[..k + 1]) ==
      AddBlock(LineageOf(ops[..k]), ops[k].delta.removedNodes, ops[k].delta.addedNodes, ops[k].attrs)
  {
    assert ops[..k + 1][..k] == ops[..k];
  }

  /** `get_network_edits`: for every row of the change log in order, the delta
      between the before and the after graphs, stored under the operation id, and
      a lineage edge from every removed to every added node, labelled with the
      operation. */
  method GetNetworkEdits(rows: seq<ChangeRow>, nodesEdges: seq<int> -> Graph)
    returns (deltas: map<int, NetworkDelta>, lineage: LineageGraph)
    ensures fresh(lineage)
    ensures deltas == DeltaMap(RowDeltas(rows, nodesEdges))
    ensures lineage.View() == LineageOf(RowDeltas(rows, nodesEdges))
  {
    ghost var ops := RowDeltas(rows, nodesEdges);
    lineage := new LineageGraph();
    deltas := map[];
    var k := 0;
    while k < |rows|
      invariant 0 <= k <= |rows|
      invariant deltas == DeltaMap(ops[..k]) && lineage.View() == LineageOf(ops[..k])
    {
      var row := rows[k];
      var before := nodesEdges(row.detail.beforeRootIds);
      var after := nodesEdges(row.detail.rootIds);
      var d := OperationDelta(before, after);
      assert ops[k] == OpDelta(RowLabel(row), d);
      deltas := deltas[row.operationId := d];
      LinkRemovedToAdded(lineage, d.removedNodes, d.addedNodes, RowLabel(row));
      EditsSnoc(ops, k);
      k := k + 1;
    }
    assert ops[..k] == ops;
  }

  function OperationIds(ops: seq<OpDelta>): seq<int> {
    seq(|ops|, k requires 0 <= k < |ops| => ops[k].attrs.operationId)
  }

  predicate InBlockOf(op: OpDelta, e: Edge) {
    InBlock(op.delta.removedNodes, op.delta.addedNodes, e)
  }

  /** The lineage edges are exactly the removed × added pairs of the operations. */
  lemma {:induction false} LineageEdges(ops: seq<OpDelta>)
    ensures forall e :: e in LineageOf(ops).edges <==> exists k :: 0 <= k < |ops| && InBlockOf(ops[k], e)
  {
    if |ops| > 0 {
      var pre := ops[..|ops| - 1];
      var op := ops[|ops| - 1];
      var l0 := LineageOf(pre);
      var l := LineageOf(ops);
      LineageEdges(pre);
      AddBlockSpec(l0, op.delta.removedNodes, op.delta.addedNodes, op.attrs);
      forall e ensures e in l.edges <==> exists k :: 0 <= k < |ops| && InBlockOf(ops[k], e) {
        if e in l0.edges {
          var k :| 0 <= k < |pre| && InBlockOf(pre[k], e);
          assert pre[k] == ops[k];
        } else if InBlockOf(op, e) {
          assert InBlockOf(ops[|ops| - 1], e);
        } else {
          forall k | 0 <= k < |ops| ensures !InBlockOf(ops[k], e) {
            if k < |pre| {
              assert pre[k] == ops[k];
            }
          }
        }
      }
    }
  }

  /** The attributes of one edge after linking the operation `op`. */
  lemma LastOpAttrs(ops: seq<OpDelta>, e: Edge)
    requires |ops| > 0 && e in LineageOf(ops).attrs
    ensures var n := |ops| - 1;
      if InBlockOf(ops[n], e) then LineageOf(ops).attrs[e] == ops[n].attrs
      else e in LineageOf(ops[..n]).attrs && LineageOf(ops).attrs[e] == LineageOf(ops[..n]).attrs[e]
  {
    var n := |ops| - 1;
    var op := ops[n];
    AddBlockSpec(LineageOf(ops[..n]), op.delta.removedNodes, op.delta.addedNodes, op.attrs);
  }

  /** `e` outside the blocks of `ops[k+1..]`. */
  predicate NotLinkedAfter(ops: seq<OpDelta>, k: nat, e: Edge) {
    forall j :: k < j < |ops| ==> !InBlockOf(ops[j], e)
  }

  lemma NotLinkedAfterSnoc(ops: seq<OpDelta>, k: nat, e: Edge)
    requires 0 < |ops| && NotLinkedAfter(ops[..|ops| - 1], k, e) && !InBlockOf(ops[|ops| - 1], e)
    ensures NotLinkedAfter(ops, k, e)
  {
    var pre := ops[..|ops| - 1];
    forall j | k < j < |ops| ensures !InBlockOf(ops[j], e) {
      if j < |pre| {
        assert pre[j] == ops[j];
      }
    }
  }

  /** The last operation whose removed × added pairs include `e`, for an edge the
      lineage carries. */
  lemma {:induction false} LastBlock(ops: seq<OpDelta>, e: Edge) returns (k: nat)
    requires e in LineageOf(ops).attrs
    ensures k < |ops| && InBlockOf(ops[k], e) && LineageOf(ops).attrs[e] == ops[k].attrs
    ensures NotLinkedAfter(ops, k, e)
  {
    assert |ops| > 0;
    var n := |ops| - 1;
    LastOpAttrs(ops, e);
    if InBlockOf(ops[n], e) {
      k := n;
    } else {
      k := LastBlock(ops[..n], e);
      assert ops[..n][k] == ops[k];
      NotLinkedAfterSnoc(ops, k, e);
    }
  }

  /** Each lineage edge carries the operation id and merge flag of the last
      operation whose removed × added pairs include it. */
  lemma LineageAttributes(ops: seq<OpDelta>, e: Edge)
    requires e in LineageOf(ops).attrs
    ensures exists k :: (0 <= k < |ops| && InBlockOf(ops[k], e) &&
      LineageOf(ops).attrs[e] == ops[k].attrs &&
      (forall j :: k < j < |ops| ==> !InBlockOf(ops[j], e)))
  {
    var k := LastBlock(ops, e);
    assert NotLinkedAfter(ops, k, e);
  }

  lemma OperationIdsSnoc(ops: seq<OpDelta>)
    requires |ops| > 0
    ensures OperationIds(ops) == OperationIds(ops[..|ops| - 1]) + [ops[|ops| - 1].attrs.operationId]
  {
  }

  /** Distinct ids stay distinct on a prefix, and the last id is new to it. */
  lemma LastIdFresh(ops: seq<OpDelta>)
    requires |ops| > 0 && NoDup(OperationIds(ops))
    ensures NoDup(OperationIds(ops[..|ops| - 1]))
    ensures forall k :: 0 <= k < |ops| - 1 ==> ops[k].attrs.operationId != ops[|ops| - 1].attrs.operationId
    ensures Elems(OperationIds(ops)) == Elems(OperationIds(ops[..|ops| - 1])) + {ops[|ops| - 1].attrs.operationId}
  {
    var n := |ops| - 1;
    var ids := OperationIds(ops);
    OperationIdsSnoc(ops);
    assert OperationIds(ops[..n]) == ids[..n];
    forall k | 0 <= k < n ensures ops[k].attrs.operationId != ops[n].attrs.operationId {
      assert ids[k] == ops[k].attrs.operationId && ids[n] == ops[n].attrs.operationId;
    }
  }

  /** With distinct operation ids, every operation's delta is stored under its id. */
  lemma {:induction false} DeltasByOperation(ops: seq<OpDelta>)
    requires NoDup(OperationIds(ops))
    ensures DeltaMap(ops).Keys == Elems(OperationIds(ops))
    ensures forall k :: 0 <= k < |ops| ==>
      ops[k].attrs.operationId in DeltaMap(ops) && DeltaMap(ops)[ops[k].attrs.operationId] == ops[k].delta
  {
    var ids := OperationIds(ops);
    forall k | 0 <= k < |ops|
      ensures ops[k].attrs.operationId in DeltaMap(ops) && DeltaMap(ops)[ops[k].attrs.operationId] == ops[k].delta
    {
      forall j | k < j < |ops| ensures ops[j].attrs.operationId != ops[k].attrs.operationId {
        assert ids[j] == ops[j].attrs.operationId && ids[k] == ops[k].attrs.operationId;
      }
      DeltaMapLastWins(ops, k);
    }
  }

  /** No lineage edge is a self-loop when no operation both adds and removes a node,
      which holds for the deltas of change-log rows. */
  lemma LineageNoSelfLoop(ops: seq<OpDelta>, e: Edge)
    requires forall op :: op in ops ==> Elems(op.delta.removedNodes) !! Elems(op.delta.addedNodes)
    requires e in LineageOf(ops).edges
    ensures e.source != e.target
  {
    LineageEdges(ops);
    var k :| 0 <= k < |ops| && InBlockOf(ops[k], e);
    assert e.source in Elems(ops[k].delta.removedNodes) && e.target in Elems(ops[k].delta.addedNodes);
  }

  // ---------------------------------------------------------------------------
  // Meta-operations

  /** Deltas and lineage agree: every lineage edge's operation has a delta whose
      removed × added pairs include that edge, and all of those pairs are lineage
      edges. */
  predicate Coherent(deltas: map<int, NetworkDelta>, l: Lineage)
    requires LineageValid(l)
  {
    forall e {:trigger l.attrs[e]} :: e in l.edges ==>
      var op := l.attrs[e].operationId;
      op in deltas && InBlock(deltas[op].removedNodes, deltas[op].addedNodes, e) &&
      forall r, a :: r in deltas[op].removedNodes && a in deltas[op].addedNodes ==> Edge(r, a) in l.edges
  }

  /** `get_network_edits` keeps deltas and lineage coherent when operation ids are
      distinct. */
  lemma {:induction false} EditsCoherent(ops: seq<OpDelta>)
    requires NoDup(OperationIds(ops))
    ensures Coherent(DeltaMap(ops), LineageOf(ops))
  {
    if |ops| > 0 {
      var pre := ops[..|ops| - 1];
      var op := ops[|ops| - 1];
      var ids := OperationIds(ops);
      assert OperationIds(pre) == ids[..|ops| - 1];
      EditsCoherent(pre);
      DeltasByOperation(pre);
      var ds0, l0 := DeltaMap(pre), LineageOf(pre);
      var ds, l := DeltaMap(ops), LineageOf(ops);
      AddBlockSpec(l0, op.delta.removedNodes, op.delta.addedNodes, op.attrs);
      assert op.attrs.operationId !in ds0 by {
        forall k | 0 <= k < |pre| ensures OperationIds(pre)[k] != op.attrs.operationId {
          assert ids[k] == pre[k].attrs.operationId;
          assert ids[|ops| - 1] == op.attrs.operationId;
        }
      }
      forall e | e in l.edges
        ensures var o := l.attrs[e].operationId;
          o in ds && InBlock(ds[o].removedNodes, ds[o].addedNodes, e) &&
          forall r, a :: r in ds[o].removedNodes && a in ds[o].addedNodes ==> Edge(r, a) in l.edges
      {
        if !InBlockOf(op, e) {
          assert e in l0.edges;
          assert l0.attrs[e].operationId in ds0;
        }
      }
    }
  }

  /** The operation ids labelling the given edges, in edge order, with repeats. */
  function LabelsOf(l: Lineage, es: seq<Edge>): (ops: seq<int>)
    ensures forall op :: op in ops <==> exists e :: e in es && e in l.attrs && l.attrs[e].operationId == op
  {
    if |es| == 0 then []
    else
      var e := es[|es| - 1];
      var r := LabelsOf(l, es[..|es| - 1]) + (if e in l.attrs then [l.attrs[e].operationId] else []);
      assert forall x :: x in es <==> x in es[..|es| - 1] || x == e by {
        assert es == es[..|es| - 1] + [e];
      }
      r
  }

  /** The weakly connected components of the lineage graph, in enumeration order. */
  function LineageComponents(l: Lineage): seq<Graph> {
    Components(Graph(l.nodes, l.edges))
  }

  /** The operations on the edges of lineage component `i`, each once, in the order
      they are met. */
  function MetaOperation(l: Lineage, i: nat): seq<int>
    requires i < |LineageComponents(l)|
  {
    Dedup(LabelsOf(l, LineageComponents(l)[i].edges))
  }

  /** `meta_operation_map`: meta-operation `i` is the set of operations on the edges
      of component `i`. */
  function MetaOperationMap(l: Lineage): (m: map<nat, set<int>>)
    ensures forall i: nat :: i in m <==> i < |LineageComponents(l)|
    ensures forall i: nat :: i in m ==> m[i] == Elems(MetaOperation(l, i))
  {
    map i: nat | i < |LineageComponents(l)| :: Elems(MetaOperation(l, i))
  }

  /** Two operations whose edges share a lineage component. */
  lemma SameComponent(l: Lineage, i: nat, e: Edge)
    requires LineageValid(l) && i < |LineageComponents(l)|
    requires e in LineageComponents(l)[i].edges
    ensures e in l.edges
    ensures var g := Graph(l.nodes, l.edges);
      e.source in NodeSet(g) && NodeLabels(g)[e.source] == ComponentLabels(g)[i]
  {
    var g := Graph(l.nodes, l.edges);
    ComponentNodes(g, i);
    assert e in EdgeSet(LineageComponents(l)[i]);
  }

  /** Every operation of meta-operation `i` labels an edge of component `i`. */
  lemma MetaOperationEdge(l: Lineage, i: nat, op: int) returns (e: Edge)
    requires LineageValid(l) && i < |LineageComponents(l)|
    requires op in MetaOperation(l, i)
    ensures e in LineageComponents(l)[i].edges && e in l.attrs && l.attrs[e].operationId == op
  {
    var cs := LineageComponents(l);
    assert op in Elems(MetaOperation(l, i));
    assert op in Elems(LabelsOf(l, cs[i].edges));
    e :| e in cs[i].edges && e in l.attrs && l.attrs[e].operationId == op;
  }

  /** The two ends of a lineage edge share a component label. */
  lemma EdgeLabels(l: Lineage, e: Edge)
    requires LineageValid(l) && e in l.edges
    ensures var m := NodeLabels(Graph(l.nodes, l.edges));
      e.source in m && e.target in m && m[e.source] == m[e.target]
  {
    var k :| 0 <= k < |l.edges| && l.edges[k] == e;
  }

  /** Two edges of one operation are bridged by the lineage edge from the first's
      source to the second's target. */
  lemma OperationBridge(deltas: map<int, NetworkDelta>, l: Lineage, e1: Edge, e2: Edge)
    requires LineageValid(l) && Coherent(deltas, l)
    requires e1 in l.edges && e2 in l.edges
    requires l.attrs[e1].operationId == l.attrs[e2].operationId
    ensures Edge(e1.source, e2.target) in l.edges
  {
    var op := l.attrs[e1].operationId;
    assert InBlock(deltas[op].removedNodes, deltas[op].addedNodes, e2);
  }

  /** Two lineage edges of one operation lie in the same component. */
  lemma OperationComponent(deltas: map<int, NetworkDelta>, l: Lineage, i: nat, j: nat, e1: Edge, e2: Edge)
    requires LineageValid(l) && Coherent(deltas, l)
    requires i < |LineageComponents(l)| && j < |LineageComponents(l)|
    requires e1 in LineageComponents(l)[i].edges && e2 in LineageComponents(l)[j].edges
    requires e1 in l.attrs && e2 in l.attrs && l.attrs[e1].operationId == l.attrs[e2].operationId
    ensures i == j
  {
    var g := Graph(l.nodes, l.edges);
    SameComponent(l, i, e1);
    SameComponent(l, j, e2);
    OperationBridge(deltas, l, e1, e2);
    EdgeLabels(l, Edge(e1.source, e2.target));
    EdgeLabels(l, e2);
    var labs := ComponentLabels(g);
    assert labs[i] == labs[j];
  }

  /** An operation belongs to at most one meta-operation: all of its edges lie in
      one weak component, because its removed × added edges connect them. */
  lemma MetaOperationHome(deltas: map<int, NetworkDelta>, l: Lineage, op: int, i: nat, j: nat)
    requires LineageValid(l) && Coherent(deltas, l)
    requires i < |LineageComponents(l)| && j < |LineageComponents(l)|
    ensures op in MetaOperation(l, i) && op in MetaOperation(l, j) ==> i == j
  {
    if op in MetaOperation(l, i) && op in MetaOperation(l, j) {
      var e1 := MetaOperationEdge(l, i, op);
      var e2 := MetaOperationEdge(l, j, op);
      OperationComponent(deltas, l, i, j, e1, e2);
    }
  }

  /** Meta-operations are pairwise disjoint. */
  lemma MetaOperationsDisjoint(deltas: map<int, NetworkDelta>, l: Lineage)
    requires LineageValid(l) && Coherent(deltas, l)
    ensures forall i: nat, j: nat :: i < j < |LineageComponents(l)| ==>
      MetaOperationMap(l)[i] !! MetaOperationMap(l)[j]
  {
    forall i: nat, j: nat, op | i < j < |LineageComponents(l)|
      ensures !(op in MetaOperationMap(l)[i] && op in MetaOperationMap(l)[j])
    {
      MetaOperationHome(deltas, l, op, i, j);
    }
  }

  /** The inner loop of `get_network_metaedits`: the operation id on each edge of a
      component, gathered into a set (kept here in first-met order). */
  method CollectOperations(l: Lineage, es: seq<Edge>) returns (ops: seq<int>)
    ensures ops == Dedup(LabelsOf(l, es))
  {
    ops := [];
    var k := 0;
    while k < |es|
      invariant 0 <= k <= |es|
      invariant ops == Dedup(LabelsOf(l, es[..k]))
    {
      var e := es[k];
      assert es[..k + 1][..k] == es[..k];
      assert LabelsOf(l, es[..k + 1]) ==
        LabelsOf(l, es[..k]) + (if e in l.attrs then [l.attrs[e].operationId] else []);
      if e in l.attrs {
        DedupSnoc(LabelsOf(l, es[..k]), l.attrs[e].operationId);
      } else {
        assert LabelsOf(l, es[..k + 1]) == LabelsOf(l, es[..k]);
      }
      if e in l.attrs && l.attrs[e].operationId !in ops {
        ops := ops + [l.attrs[e].operationId];
      }
      k := k + 1;
    }
    assert es[..k] == es;
  }

  /** The deltas stored under `ids`, in order; a missing id fails with `KeyError`,
      as the dictionary lookup does. */
  function LookupDeltas(deltas: map<int, NetworkDelta>, ids: seq<int>): (r: Result<seq<NetworkDelta>>)
    ensures r.Ok? <==> forall id :: id in ids ==> id in deltas
    ensures r.Err? ==> r.error == KeyError
    ensures r.Ok? ==> |r.value| == |ids|
    ensures r.Ok? ==> forall k :: 0 <= k < |ids| ==> ids[k] in deltas && r.value[k] == deltas[ids[k]]
  {
    if |ids| == 0 then Ok([])
    else
      var last := ids[|ids| - 1];
      assert forall id :: id in ids <==> id in ids[..|ids| - 1] || id == last by {
        assert ids == ids[..|ids| - 1] + [last];
      }
      match LookupDeltas(deltas, ids[..|ids| - 1])
      case Err(e) => Err(e)
      case Ok(pre) => if last in deltas then Ok(pre + [deltas[last]]) else Err(KeyError)
  }

  /** The combined delta of one group of operations. */
  function CombineGroup(deltas: map<int, NetworkDelta>, ids: seq<int>): (r: Result<NetworkDelta>)
    ensures (exists id :: id in ids && id !in deltas) ==> r == Err(KeyError)
    ensures (forall id :: id in ids ==> id in deltas) && |ids| == 0 ==> r == Err(ValueError)
    ensures r.Ok? ==> forall id :: id in ids ==> id in deltas
    ensures r.Err? ==> r.error == KeyError || r.error == ValueError
  {
    match LookupDeltas(deltas, ids)
    case Err(e) => Err(e)
    case Ok(ds) => CombineDeltas(ds)
  }

  /** The results numbered from 0 while they succeed; the first failure is the
      result of the whole run. */
  function Collect<T>(rs: seq<Result<T>>): (r: Result<map<nat, T>>)
    ensures r.Err? ==> exists i :: 0 <= i < |rs| && rs[i] == Err(r.error)
  {
    if |rs| == 0 then Ok(map[])
    else
      match Collect(rs[..|rs| - 1])
      case Err(e) => Err(e)
      case Ok(m) =>
        match rs[|rs| - 1]
        case Err(e) => Err(e)
        case Ok(d) => Ok(m[|rs| - 1 := d])
  }

  /** The run succeeds exactly when every step does, and then entry `i` holds the
      value of step `i`. */
  lemma {:induction false} CollectSpec<T>(rs: seq<Result<T>>)
    ensures Collect(rs).Ok? <==> forall i :: 0 <= i < |rs| ==> rs[i].Ok?
    ensures Collect(rs).Ok? ==>
      (forall i: nat :: i in Collect(rs).value <==> i < |rs|) &&
      (forall i :: 0 <= i < |rs| ==> Collect(rs).value[i] == rs[i].value)
  {
    if |rs| > 0 {
      var n := |rs| - 1;
      var pre := rs[..n];
      CollectSpec(pre);
      assert forall i :: 0 <= i < n ==> pre[i] == rs[i];
    }
  }

  lemma CollectSnoc<T>(rs: seq<Result<T>>, i: nat, m: map<nat, T>)
    requires i < |rs| && Collect(rs[..i]) == Ok(m) && rs[i].Ok?
    ensures Collect(rs[..i + 1]) == Ok(m[i := rs[i].value])
  {
    assert rs[..i + 1][..i] == rs[..i];
  }

  /** Once step `i` fails after all earlier ones succeeded, the run fails with its
      error. */
  lemma {:induction false} CollectStop<T>(rs: seq<Result<T>>, i: nat)
    requires i < |rs| && Collect(rs[..i]).Ok? && rs[i].Err?
    ensures Collect(rs) == Err(rs[i].error)
  {
    if |rs| > i + 1 {
      var pre := rs[..|rs| - 1];
      assert pre[..i] == rs[..i] && pre[i] == rs[i];
      CollectStop(pre, i);
    } else {
      assert rs[..|rs| - 1] == rs[..i];
    }
  }

  /** The combined deltas of the groups, numbered from 0. */
  function CombineGroups(deltas: map<int, NetworkDelta>, groups: seq<seq<int>>): (r: Result<map<nat, NetworkDelta>>)
    ensures r.Ok? ==> forall i: nat :: i in r.value <==> i < |groups|
    ensures r.Err? ==> r.error == KeyError || r.error == ValueError
  {
    var rs := seq(|groups|, i requires 0 <= i < |groups| => CombineGroup(deltas, groups[i]));
    CollectSpec(rs);
    Collect(rs)
  }

  /** The operation groups of the meta-operations, in meta-operation order. */
  function MetaGroups(l: Lineage): (groups: seq<seq<int>>)
    ensures |groups| == |LineageComponents(l)|
    ensures forall i :: 0 <= i < |groups| ==> groups[i] == MetaOperation(l, i)
  {
    seq(|LineageComponents(l)|, i requires 0 <= i < |LineageComponents(l)| => MetaOperation(l, i))
  }

  /** `get_network_metaedits`: number the weak components of the lineage graph,
      gather the operations on each, and combine their deltas. */
  method GetNetworkMetaedits(deltas: map<int, NetworkDelta>, l: Lineage)
    returns (r: Result<map<nat, NetworkDelta>>, metaMap: map<nat, set<int>>)
    ensures metaMap == MetaOperationMap(l)
    ensures r == CombineGroups(deltas, MetaGroups(l))
  {
    var groups;
    groups, metaMap := GroupOperations(l);
    r := CombineEach(deltas, groups);
  }

  /** The first loop of `get_network_metaedits`: the operations on each weak
      component, numbered in component order. */
  method GroupOperations(l: Lineage) returns (groups: seq<seq<int>>, metaMap: map<nat, set<int>>)
    ensures groups == MetaGroups(l)
    ensures metaMap == MetaOperationMap(l)
  {
    var cs := LineageComponents(l);
    groups := [];
    metaMap := map[];
    var i := 0;
    while i < |cs|
      invariant 0 <= i <= |cs| && |groups| == i
      invariant forall j :: 0 <= j < i ==> groups[j] == MetaOperation(l, j)
      invariant forall j: nat :: j in metaMap <==> j < i
      invariant forall j: nat :: j in metaMap ==> metaMap[j] == Elems(MetaOperation(l, j))
    {
      var ops := CollectOperations(l, cs[i].edges);
      GroupSnoc(l, groups, i, ops, groups + [ops]);
      MetaMapSnoc(l, metaMap, i, ops, metaMap[i := Elems(ops)]);
      groups := groups + [ops];
      metaMap := metaMap[i := Elems(ops)];
      i := i + 1;
    }
    assert groups == MetaGroups(l);
    assert metaMap == MetaOperationMap(l);
  }

  /** One step of the first loop of `get_network_metaedits`: the groups. */
  lemma GroupSnoc(l: Lineage, groups: seq<seq<int>>, i: nat, ops: seq<int>, groups': seq<seq<int>>)
    requires i < |LineageComponents(l)| && |groups| == i && ops == MetaOperation(l, i)
    requires forall j :: 0 <= j < i ==> groups[j] == MetaOperation(l, j)
    requires groups' == groups + [ops]
    ensures forall j :: 0 <= j < i + 1 ==> groups'[j] == MetaOperation(l, j)
  {
  }

  /** One step of the first loop of `get_network_metaedits`: the map from
      meta-operation to operations. */
  lemma MetaMapSnoc(l: Lineage, metaMap: map<nat, set<int>>, i: nat, ops: seq<int>, metaMap': map<nat, set<int>>)
    requires i < |LineageComponents(l)| && ops == MetaOperation(l, i)
    requires forall j: nat :: j in metaMap <==> j < i
    requires forall j: nat :: j in metaMap ==> metaMap[j] == Elems(MetaOperation(l, j))
    requires metaMap' == metaMap[i := Elems(ops)]
    ensures forall j: nat :: j in metaMap' <==> j < i + 1
    ensures forall j: nat :: j in metaMap' ==> metaMap'[j] == Elems(MetaOperation(l, j))
  {
  }

  /** The second loop of `get_network_metaedits`: combine each group's deltas in
      turn; the first failure propagates. */
  method CombineEach(deltas: map<int, NetworkDelta>, groups: seq<seq<int>>)
    returns (r: Result<map<nat, NetworkDelta>>)
    ensures r == CombineGroups(deltas, groups)
  {
    ghost var rs := seq(|groups|, i requires 0 <= i < |groups| => CombineGroup(deltas, groups[i]));
    var byMeta: map<nat, NetworkDelta> := map[];
    var i := 0;
    while i < |groups|
      invariant 0 <= i <= |groups|
      invariant Collect(rs[..i]) == Ok(byMeta)
    {
      var combined := CombineGroup(deltas, groups[i]);
      if combined.Err? {
        CollectStop(rs, i);
        return Err(combined.error);
      }
      CollectSnoc(rs, i, byMeta);
      byMeta := byMeta[i := combined.value];
      i := i + 1;
    }
    assert rs[..i] == rs;
    r := Ok(byMeta);
  }

  /** With coherent deltas and lineage no meta-operation fails on a missing id:
      every operation labelling a lineage edge has a delta. */
  lemma MetaLookupSucceeds(deltas: map<int, NetworkDelta>, l: Lineage, i: nat)
    requires LineageValid(l) && Coherent(deltas, l) && i < |LineageComponents(l)|
    ensures LookupDeltas(deltas, MetaOperation(l, i)).Ok?
  {
    forall op | op in MetaOperation(l, i) ensures op in deltas {
      var e := MetaOperationEdge(l, i, op);
      SameComponent(l, i, e);
    }
  }

  /** A group's combined delta adds exactly the nodes its operations add and removes
      exactly the nodes they remove. */
  lemma CombineGroupNodes(deltas: map<int, NetworkDelta>, ids: seq<int>)
    requires CombineGroup(deltas, ids).Ok?
    ensures var d := CombineGroup(deltas, ids).value;
      (forall v :: v in d.addedNodes <==> exists op :: op in ids && op in deltas && v in deltas[op].addedNodes) &&
      (forall v :: v in d.removedNodes <==> exists op :: op in ids && op in deltas && v in deltas[op].removedNodes)
  {
    var ds := LookupDeltas(deltas, ids).value;
    var d := CombineGroup(deltas, ids).value;
    forall v ensures v in d.addedNodes <==> exists op :: op in ids && op in deltas && v in deltas[op].addedNodes {
      if v in d.addedNodes {
        var k :| 0 <= k < |ds| && v in ds[k].addedNodes;
        assert ids[k] in ids;
      }
      if exists op :: op in ids && op in deltas && v in deltas[op].addedNodes {
        var op :| op in ids && op in deltas && v in deltas[op].addedNodes;
        var k :| 0 <= k < |ids| && ids[k] == op;
        assert v in ds[k].addedNodes;
      }
    }
    forall v ensures v in d.removedNodes <==> exists op :: op in ids && op in deltas && v in deltas[op].removedNodes {
      if v in d.removedNodes {
        var k :| 0 <= k < |ds| && v in ds[k].removedNodes;
        assert ids[k] in ids;
      }
      if exists op :: op in ids && op in deltas && v in deltas[op].removedNodes {
        var op :| op in ids && op in deltas && v in deltas[op].removedNodes;
        var k :| 0 <= k < |ids| && ids[k] == op;
        assert v in ds[k].removedNodes;
      }
    }
  }

  /** `find_supervoxel_component`: the component holding the level-2 id of the
      supervoxel, with `l2Of` standing for the service lookup of that id. */
  method FindSupervoxelComponent(supervoxel: int, g: Graph, l2Of: int -> int) returns (r: Option<Graph>)
    ensures r == FindComponent(g, l2Of(supervoxel))
  {
    var l2 := l2Of(supervoxel);
    r := SearchComponents(g, l2);
  }
}
