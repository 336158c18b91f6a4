/** `NeuronFrame`: a level-2 frame whose node and edge rows carry the edit that added
    and the edit that removed them, together with pre- and post-synaptic tables, an
    edit table and the nucleus node.

    Node and edge queries follow the frame library's behaviour as assumed throughout
    this model: querying nodes also drops every edge that loses an endpoint. */
module NeuronFrames {
  import opened Seqs
  import opened Wrappers
  import opened Graphs

  /** The edit columns of a row: `operation_added`, `operation_removed` and their
      `metaoperation_` counterparts; `-1` marks a row present originally (added) or
      never removed (removed). */
  datatype Provenance = Provenance(
    operationAdded: int,
    operationRemoved: int,
    metaoperationAdded: int,
    metaoperationRemoved: int)

  datatype NodeRow = NodeRow(id: int, prov: Provenance)

  datatype EdgeRow = EdgeRow(source: int, target: int, prov: Provenance)

  /** The `prefix` argument of `set_edits`: `""` or `"meta"`. */
  datatype Prefix = Plain | Meta

  function AddedBy(p: Provenance, prefix: Prefix): int {
    if prefix == Plain then p.operationAdded else p.metaoperationAdded
  }

  function RemovedBy(p: Provenance, prefix: Prefix): int {
    if prefix == Plain then p.operationRemoved else p.metaoperationRemoved
  }

  /** A synapse table: its column names and one map from column to value per row. */
  datatype SynapseTable = SynapseTable(columns: seq<string>, rows: seq<map<string, int>>)

  /** pandas' `DataFrame.empty`: no rows or no columns. */
  predicate IsEmpty(t: SynapseTable) {
    |t.rows| == 0 || |t.columns| == 0
  }

  /** One row of the edit table, indexed by `operation_id`; times are integers. */
  datatype EditRow = EditRow(operationId: int, metaoperationId: int, isMerge: bool, datetime: int)

  /** The whole state of a neuron frame. */
  datatype Neuron = Neuron(
    nodes: seq<NodeRow>,
    edges: seq<EdgeRow>,
    pre: SynapseTable,
    post: SynapseTable,
    edits: seq<EditRow>,
    nucleusId: int,
    neuronId: Option<int>,
    preCol: string,
    postCol: string)

  /** The node index as a set. */
  function IdSet(nodes: seq<NodeRow>): set<int> {
    set r | r in nodes :: r.id
  }

  /** `nodes.loc[id]`: the first node row with that id, `None` when there is none. */
  function NodeAt(nodes: seq<NodeRow>, id: int): (r: Option<NodeRow>)
    ensures r.None? <==> id !in IdSet(nodes)
    ensures r.Some? ==> r.value in nodes && r.value.id == id
  {
    if |nodes| == 0 then None
    else if nodes[0].id == id then Some(nodes[0])
    else
      assert IdSet(nodes) == IdSet(nodes[1..]) + {nodes[0].id} by {
        assert nodes == [nodes[0]] + nodes[1..];
      }
      NodeAt(nodes[1..], id)
  }

  /** A node index without repeated ids. */
  predicate UniqueIds(nodes: seq<NodeRow>) {
    forall i, j :: 0 <= i < j < |nodes| ==> nodes[i].id != nodes[j].id
  }

  /** In a node index without repeats, `loc[id]` finds the one row with that id. */
  lemma {:induction false} NodeAtUnique(nodes: seq<NodeRow>, v: NodeRow)
    requires UniqueIds(nodes) && v in nodes
    ensures NodeAt(nodes, v.id) == Some(v)
  {
    if nodes[0] != v {
      assert nodes[0].id != v.id by {
        var k :| 0 <= k < |nodes| && nodes[k] == v;
      }
      assert v in nodes[1..] by { assert nodes == [nodes[0]] + nodes[1..]; }
      NodeAtUnique(nodes[1..], v);
    }
  }

  function NodeIds(nodes: seq<NodeRow>): (ids: seq<int>)
    ensures Elems(ids) == IdSet(nodes)
  {
    if |nodes| == 0 then []
    else
      assert IdSet(nodes) == IdSet(nodes[..|nodes| - 1]) + {nodes[|nodes| - 1].id} by {
        assert nodes == nodes[..|nodes| - 1] + [nodes[|nodes| - 1]];
      }
      NodeIds(nodes[..|nodes| - 1]) + [nodes[|nodes| - 1].id]
  }

  function EdgePairs(edges: seq<EdgeRow>): (es: seq<Edge>)
    ensures |es| == |edges|
    ensures forall i :: 0 <= i < |edges| ==> es[i] == Edge(edges[i].source, edges[i].target)
  {
    seq(|edges|, i requires 0 <= i < |edges| => Edge(edges[i].source, edges[i].target))
  }

  /** The frame without its row attributes. */
  function Shape(n: Neuron): (g: Graph)
    ensures NodeSet(g) == IdSet(n.nodes)
  {
    Graph(NodeIds(n.nodes), EdgePairs(n.edges))
  }

  // ---------------------------------------------------------------------------
  // Validation done by the constructor and the property setters.

  /** The `nucleus_id` setter: the id must be in the node index. `None` (the
      constructor's default) is never in an integer index. */
  function CheckNucleus(nodes: seq<NodeRow>, nucleus: Option<int>): (r: Result<int>)
    ensures r.Ok? <==> nucleus.Some? && nucleus.value in IdSet(nodes)
    ensures r.Ok? ==> r.value == nucleus.value
    ensures r.Err? ==> r.error == ValueError
  {
    if nucleus.Some? && nucleus.value in IdSet(nodes) then Ok(nucleus.value) else Err(ValueError)
  }

  /** Every value of column `col` of `t` is a node id. */
  predicate ColumnWithin(t: SynapseTable, col: string, ids: set<int>) {
    forall r :: r in t.rows ==> col in r && r[col] in ids
  }

  /** The `*_synapse_mapping_col` setters: a non-empty table must have the column and
      every value in it must be a node id; an empty table accepts any name. */
  function CheckMappingCol(t: SynapseTable, col: string, ids: set<int>): (r: Result<string>)
    ensures r.Ok? <==> IsEmpty(t) || (col in t.columns && ColumnWithin(t, col, ids))
    ensures r.Ok? ==> r.value == col
    ensures r.Err? ==> r.error == ValueError
  {
    if !IsEmpty(t) && col !in t.columns then Err(ValueError)
    else if !IsEmpty(t) && !ColumnWithin(t, col, ids) then Err(ValueError)
    else Ok(col)
  }

  /** The constructor: the tables are stored, then `nucleus_id` and the two mapping
      columns go through their setters, so construction fails exactly when one of
      them would. */
  function Build(
    nodes: seq<NodeRow>, edges: seq<EdgeRow>, pre: SynapseTable, post: SynapseTable,
    edits: seq<EditRow>, nucleus: Option<int>, neuronId: Option<int>,
    preCol: string, postCol: string): (r: Result<Neuron>)
    ensures r.Ok? <==>
      nucleus.Some? && nucleus.value in IdSet(nodes) &&
      CheckMappingCol(pre, preCol, IdSet(nodes)).Ok? &&
      CheckMappingCol(post, postCol, IdSet(nodes)).Ok?
    ensures r.Ok? ==>
      r.value == Neuron(nodes, edges, pre, post, edits, nucleus.value, neuronId, preCol, postCol)
    ensures r.Err? ==> r.error == ValueError
  {
    match CheckNucleus(nodes, nucleus)
    case Err(e) => Err(e)
    case Ok(nuc) =>
      match CheckMappingCol(pre, preCol, IdSet(nodes))
      case Err(e) => Err(e)
      case Ok(_) =>
        match CheckMappingCol(post, postCol, IdSet(nodes))
        case Err(e) => Err(e)
        case Ok(_) => Ok(Neuron(nodes, edges, pre, post, edits, nuc, neuronId, preCol, postCol))
  }

  /** A constructed frame's nucleus is one of its nodes. */
  lemma BuildNucleus(
    nodes: seq<NodeRow>, edges: seq<EdgeRow>, pre: SynapseTable, post: SynapseTable,
    edits: seq<EditRow>, nucleus: Option<int>, neuronId: Option<int>,
    preCol: string, postCol: string)
    requires Build(nodes, edges, pre, post, edits, nucleus, neuronId, preCol, postCol).Ok?
    ensures nucleus.Some?
    ensures exists r :: r in nodes && r.id == nucleus.value
  {
    var nuc := nucleus.value;
    assert nuc in IdSet(nodes);
  }

  // ---------------------------------------------------------------------------
  // Queries.

  /** `query_nodes`: keep the node rows that satisfy `keep`, and (assumed) drop every
      edge that lost an endpoint. */
  function QueryNodes(n: Neuron, keep: NodeRow -> bool): (r: Neuron)
    ensures forall x :: x in r.nodes <==> x in n.nodes && keep(x)
    ensures IdSet(r.nodes) <= IdSet(n.nodes)
    ensures forall e :: e in r.edges <==>
      e in n.edges && e.source in IdSet(r.nodes) && e.target in IdSet(r.nodes)
    ensures r.pre == n.pre && r.post == n.post && r.edits == n.edits
    ensures r.nucleusId == n.nucleusId && r.preCol == n.preCol && r.postCol == n.postCol
  {
    var nodes := Filter(n.nodes, keep);
    var ids := IdSet(nodes);
    var edges := Filter(n.edges, (e: EdgeRow) => e.source in ids && e.target in ids);
    n.(nodes := nodes, edges := edges)
  }

  /** `query_edges`: keep the edge rows that satisfy `keep`. */
  function QueryEdges(n: Neuron, keep: EdgeRow -> bool): (r: Neuron)
    ensures forall e :: e in r.edges <==> e in n.edges && keep(e)
    ensures r.nodes == n.nodes
    ensures r.pre == n.pre && r.post == n.post && r.edits == n.edits
    ensures r.nucleusId == n.nucleusId && r.preCol == n.preCol && r.postCol == n.postCol
  {
    n.(edges := Filter(n.edges, keep))
  }

  // ---------------------------------------------------------------------------
  // set_edits

  /** The `edit_ids` argument: a bare integer or a list. */
  datatype EditIds = One(id: int) | Many(ids: seq<int>)

  /** A bare integer is read as a one-element list. */
  function EditList(a: EditIds): seq<int> {
    match a
    case One(x) => [x]
    case Many(xs) => xs
  }

  /** The row filter of `set_edits`: added by a chosen edit or present originally,
      and not removed by a chosen edit. */
  predicate Kept(p: Provenance, prefix: Prefix, ids: seq<int>) {
    (AddedBy(p, prefix) in ids || AddedBy(p, prefix) == -1) && RemovedBy(p, prefix) !in ids
  }

  /** `set_edits`: the same filter is applied to the nodes, then to the edges. */
  function SetEdits(n: Neuron, a: EditIds, prefix: Prefix): (r: Neuron)
    ensures IdSet(r.nodes) <= IdSet(n.nodes)
    ensures r.(nodes := n.nodes, edges := n.edges) == n
  {
    var ids := EditList(a);
    QueryEdges(
      QueryNodes(n, (x: NodeRow) => Kept(x.prov, prefix, ids)),
      (e: EdgeRow) => Kept(e.prov, prefix, ids))
  }

  /** A node row survives `set_edits` exactly when it passes the filter; an edge row
      exactly when it passes the filter and both of its endpoints survive. Nothing
      but the node and edge tables changes. */
  lemma {:induction false} SetEditsRule(n: Neuron, a: EditIds, prefix: Prefix)
    ensures forall x :: x in SetEdits(n, a, prefix).nodes <==>
      x in n.nodes && Kept(x.prov, prefix, EditList(a))
    ensures forall e :: e in SetEdits(n, a, prefix).edges <==>
      e in n.edges && Kept(e.prov, prefix, EditList(a)) &&
      e.source in IdSet(SetEdits(n, a, prefix).nodes) &&
      e.target in IdSet(SetEdits(n, a, prefix).nodes)
    ensures SetEdits(n, a, prefix).(nodes := n.nodes, edges := n.edges) == n
  {
    var ids := EditList(a);
    var m := QueryNodes(n, (x: NodeRow) => Kept(x.prov, prefix, ids));
    assert SetEdits(n, a, prefix).nodes == m.nodes;
  }

  /** `set_edits([])` keeps exactly the original rows (added by `-1`), including the
      ones that some edit later removes. */
  lemma SetEditsNone(n: Neuron, prefix: Prefix)
    ensures forall x :: x in SetEdits(n, Many([]), prefix).nodes <==>
      x in n.nodes && AddedBy(x.prov, prefix) == -1
    ensures forall e :: e in SetEdits(n, Many([]), prefix).edges ==>
      AddedBy(e.prov, prefix) == -1
  {
    SetEditsRule(n, Many([]), prefix);
  }

  /** A bare integer `x` keeps a row when `x` or `-1` added it and `x` did not
      remove it. */
  lemma SetEditsOne(n: Neuron, x: int, prefix: Prefix)
    ensures forall v :: v in SetEdits(n, One(x), prefix).nodes <==>
      v in n.nodes &&
      (AddedBy(v.prov, prefix) == x || AddedBy(v.prov, prefix) == -1) &&
      RemovedBy(v.prov, prefix) != x
  {
    SetEditsRule(n, One(x), prefix);
  }

  /** Only the chosen set of edits matters, not the order or repetition of the list. */
  lemma {:induction false} SetEditsSetOnly(n: Neuron, xs: seq<int>, ys: seq<int>, prefix: Prefix)
    requires Elems(xs) == Elems(ys)
    ensures SetEdits(n, Many(xs), prefix) == SetEdits(n, Many(ys), prefix)
  {
    assert forall p :: Kept(p, prefix, xs) == Kept(p, prefix, ys) by {
      forall p ensures Kept(p, prefix, xs) == Kept(p, prefix, ys) {
        assert AddedBy(p, prefix) in xs <==> AddedBy(p, prefix) in Elems(ys);
        assert RemovedBy(p, prefix) in xs <==> RemovedBy(p, prefix) in Elems(ys);
      }
    }
    var kx := (x: NodeRow) => Kept(x.prov, prefix, xs);
    var ky := (x: NodeRow) => Kept(x.prov, prefix, ys);
    FilterSame(n.nodes, kx, ky);
    var m := QueryNodes(n, kx);
    FilterSame(m.edges, (e: EdgeRow) => Kept(e.prov, prefix, xs), (e: EdgeRow) => Kept(e.prov, prefix, ys));
  }

  /** Two filters that agree on every value select the same rows. */
  lemma {:induction false} FilterSame<T>(s: seq<T>, f: T -> bool, g: T -> bool)
    requires forall x :: f(x) == g(x)
    ensures Filter(s, f) == Filter(s, g)
  {
    if |s| > 0 {
      FilterSame(s[..|s| - 1], f, g);
    }
  }

  // ---------------------------------------------------------------------------
  // remove_unused_synapses

  /** The `which` argument of `remove_unused_synapses`. */
  datatype Which = Both | PreOnly | PostOnly

  /** Keep the synapses whose mapping column holds a current node id. A table
      without that column cannot be queried: pandas raises an undefined-name error. */
  function PruneTable(t: SynapseTable, col: string, ids: set<int>): (r: Result<SynapseTable>)
    ensures r.Ok? <==> col in t.columns
    ensures r.Err? ==> r.error == NameError
    ensures r.Ok? ==> r.value.columns == t.columns
    ensures r.Ok? ==> forall s :: s in r.value.rows <==> s in t.rows && col in s && s[col] in ids
  {
    if col !in t.columns then Err(NameError)
    else Ok(t.(rows := Filter(t.rows, (s: map<string, int>) => col in s && s[col] in ids)))
  }

  /** `remove_unused_synapses`: the sides selected by `which` are pruned to the
      synapses on current nodes; the other side is left as it is. */
  function RemoveUnusedSynapses(n: Neuron, which: Which): (r: Result<Neuron>)
    ensures r.Err? ==> r.error == NameError
    ensures r.Ok? ==> r.value.(pre := n.pre, post := n.post) == n
  {
    var ids := IdSet(n.nodes);
    var pre := if which != PostOnly then PruneTable(n.pre, n.preCol, ids) else Ok(n.pre);
    var post := if which != PreOnly then PruneTable(n.post, n.postCol, ids) else Ok(n.post);
    if pre.Err? then Err(pre.error)
    else if post.Err? then Err(post.error)
    else Ok(n.(pre := pre.value, post := post.value))
  }

  /** What `remove_unused_synapses` promises: it fails only when a selected table lacks
      its mapping column; a selected side then keeps exactly its synapses on current
      nodes, an unselected side is unchanged, and so is everything else. */
  lemma RemoveUnusedSynapsesSpec(n: Neuron, which: Which)
    ensures RemoveUnusedSynapses(n, which).Ok? <==>
      (which != PostOnly ==> n.preCol in n.pre.columns) &&
      (which != PreOnly ==> n.postCol in n.post.columns)
    ensures RemoveUnusedSynapses(n, which).Ok? ==>
      var r := RemoveUnusedSynapses(n, which).value;
      r.(pre := n.pre, post := n.post) == n &&
      (which == PostOnly ==> r.pre == n.pre) &&
      (which == PreOnly ==> r.post == n.post) &&
      (which != PostOnly ==> forall s :: s in r.pre.rows <==>
        s in n.pre.rows && n.preCol in s && s[n.preCol] in IdSet(n.nodes)) &&
      (which != PreOnly ==> forall s :: s in r.post.rows <==>
        s in n.post.rows && n.postCol in s && s[n.postCol] in IdSet(n.nodes))
  {
  }

  // ---------------------------------------------------------------------------
  // select_nucleus_component

  /** `select_nucleus_component`: the undirected component of the nucleus when the
      nucleus is a node, otherwise the frame unchanged. */
  function SelectNucleusComponent(n: Neuron): (r: Neuron)
    ensures IdSet(r.nodes) <= IdSet(n.nodes)
    ensures r.(nodes := n.nodes, edges := n.edges) == n
  {
    if n.nucleusId in IdSet(n.nodes) then
      var comp := ComponentOf(Shape(n), n.nucleusId);
      QueryNodes(n, (x: NodeRow) => x.id in comp)
    else n
  }

  /** The selected nodes are the nucleus's component (which holds the nucleus), the
      edges are those between them, and the synapse and edit tables are kept. */
  lemma SelectNucleusComponentSpec(n: Neuron)
    ensures n.nucleusId !in IdSet(n.nodes) ==> SelectNucleusComponent(n) == n
    ensures n.nucleusId in IdSet(n.nodes) ==>
      var r := SelectNucleusComponent(n);
      var comp := ComponentOf(Shape(n), n.nucleusId);
      n.nucleusId in IdSet(r.nodes) &&
      IdSet(r.nodes) == comp &&
      (forall x :: x in r.nodes <==> x in n.nodes && x.id in comp) &&
      (forall e :: e in r.edges <==> e in n.edges && e.source in comp && e.target in comp) &&
      r.(nodes := n.nodes, edges := n.edges) == n
  {
    if n.nucleusId in IdSet(n.nodes) {
      var comp := ComponentOf(Shape(n), n.nucleusId);
      var r := SelectNucleusComponent(n);
      assert IdSet(r.nodes) == comp by {
        forall v | v in comp ensures v in IdSet(r.nodes) {
          var x :| x in n.nodes && x.id == v;
          assert x in r.nodes;
        }
      }
    }
  }

  /** `select_component_from_node(id, directed=False)` called without the guard of
      `select_nucleus_component`: the undirected component of `id`; an id that is not
      a node has no component, which raises `KeyError`. */
  function SelectFromNode(n: Neuron, id: int): (r: Result<Neuron>)
    ensures r.Err? <==> id !in IdSet(n.nodes)
    ensures r.Err? ==> r.error == KeyError
    ensures r.Ok? ==> id in IdSet(r.value.nodes) && IdSet(r.value.nodes) <= IdSet(n.nodes)
  {
    if id in IdSet(n.nodes) then Ok(QueryNodes(n, (x: NodeRow) => x.id in ComponentOf(Shape(n), id)))
    else Err(KeyError)
  }

  /** `select_nucleus_component` is the unguarded selection at the nucleus when the
      nucleus is a node, and the frame unchanged where the unguarded call would
      raise. */
  lemma SelectFromNucleus(n: Neuron)
    ensures n.nucleusId in IdSet(n.nodes) ==> SelectFromNode(n, n.nucleusId) == Ok(SelectNucleusComponent(n))
    ensures n.nucleusId !in IdSet(n.nodes) ==>
      SelectFromNode(n, n.nucleusId) == Err(KeyError) && SelectNucleusComponent(n) == n
  {
  }

  // ---------------------------------------------------------------------------
  // metaedits

  /** One row of the `metaedits` table. */
  datatype MetaEdit = MetaEdit(
    metaoperationId: int,
    operationIds: seq<int>,
    isMerges: seq<bool>,
    hasMerge: bool,
    datetime: int)

  /** The edits of one meta-operation, in table order. */
  function Group(edits: seq<EditRow>, key: int): (g: seq<EditRow>)
    ensures forall e :: e in g <==> e in edits && e.metaoperationId == key
  {
    Filter(edits, (e: EditRow) => e.metaoperationId == key)
  }

  function MetaIds(edits: seq<EditRow>): (ks: seq<int>)
    ensures forall k :: k in ks <==> exists e :: e in edits && e.metaoperationId == k
  {
    if |edits| == 0 then []
    else
      var last := edits[|edits| - 1];
      assert forall e :: e in edits <==> e in edits[..|edits| - 1] || e == last by {
        assert edits == edits[..|edits| - 1] + [last];
      }
      MetaIds(edits[..|edits| - 1]) + [last.metaoperationId]
  }

  function OperationIds(g: seq<EditRow>): (ops: seq<int>)
    ensures |ops| == |g|
    ensures forall i :: 0 <= i < |g| ==> ops[i] == g[i].operationId
  {
    seq(|g|, i requires 0 <= i < |g| => g[i].operationId)
  }

  function MergeFlags(g: seq<EditRow>): (ms: seq<bool>)
    ensures |ms| == |g|
    ensures forall i :: 0 <= i < |g| ==> ms[i] == g[i].isMerge
  {
    seq(|g|, i requires 0 <= i < |g| => g[i].isMerge)
  }

  function Times(g: seq<EditRow>): (ts: seq<int>)
    ensures |ts| == |g|
    ensures forall i :: 0 <= i < |g| ==> ts[i] == g[i].datetime
  {
    seq(|g|, i requires 0 <= i < |g| => g[i].datetime)
  }

  /** The aggregate of one non-empty group: its operation ids and merge flags in table
      order, whether any is a merge, and its latest time. */
  function Aggregate(edits: seq<EditRow>, key: int): (r: MetaEdit)
    requires key in MetaIds(edits)
    ensures r.metaoperationId == key
    ensures |r.operationIds| == |r.isMerges| > 0
  {
    var g := Group(edits, key);
    var e :| e in edits && e.metaoperationId == key;
    assert e in g;
    var flags := MergeFlags(g);
    MetaEdit(key, OperationIds(g), flags, true in flags, Max(Times(g)))
  }

  /** `metaedits`: one row per meta-operation id, in increasing id order (groupby
      sorts its keys). */
  function MetaEdits(edits: seq<EditRow>): (rows: seq<MetaEdit>)
    ensures |rows| == |SortedUnique(MetaIds(edits))|
  {
    var keys := SortedUnique(MetaIds(edits));
    seq(|keys|, i requires 0 <= i < |keys| => Aggregate(edits, keys[i]))
  }

  /** The meta-operation ids of `metaedits` are increasing and are exactly the ids
      that occur in the edit table. */
  lemma MetaEditsKeys(edits: seq<EditRow>)
    ensures forall i, j :: 0 <= i < j < |MetaEdits(edits)| ==>
      MetaEdits(edits)[i].metaoperationId < MetaEdits(edits)[j].metaoperationId
    ensures forall i :: 0 <= i < |MetaEdits(edits)| ==>
      exists e :: e in edits && e.metaoperationId == MetaEdits(edits)[i].metaoperationId
    ensures forall e :: e in edits ==>
      exists i :: 0 <= i < |MetaEdits(edits)| && MetaEdits(edits)[i].metaoperationId == e.metaoperationId
  {
    var keys := SortedUnique(MetaIds(edits));
    var rows := MetaEdits(edits);
    assert forall i :: 0 <= i < |rows| ==> rows[i].metaoperationId == keys[i];
    forall e | e in edits
      ensures exists i :: 0 <= i < |rows| && rows[i].metaoperationId == e.metaoperationId
    {
      assert e.metaoperationId in keys;
      var i :| 0 <= i < |keys| && keys[i] == e.metaoperationId;
      assert rows[i].metaoperationId == e.metaoperationId;
    }
  }

  /** The `operation_ids` of a row are exactly the edits of that meta-operation, so
      the lists partition the edit index. */
  lemma MetaEditsOperations(edits: seq<EditRow>, i: nat)
    requires i < |MetaEdits(edits)|
    ensures var m := MetaEdits(edits)[i];
      forall x :: x in m.operationIds <==>
        exists e :: e in edits && e.metaoperationId == m.metaoperationId && e.operationId == x
  {
    var keys := SortedUnique(MetaIds(edits));
    var key := keys[i];
    var g := Group(edits, key);
    var m := MetaEdits(edits)[i];
    assert m == Aggregate(edits, key);
    var ops := OperationIds(g);
    forall x ensures x in m.operationIds <==>
      exists e :: e in edits && e.metaoperationId == key && e.operationId == x
    {
      if x in ops {
        var j :| 0 <= j < |ops| && ops[j] == x;
        assert g[j] in g;
      }
      if exists e :: e in edits && e.metaoperationId == key && e.operationId == x {
        var e :| e in edits && e.metaoperationId == key && e.operationId == x;
        var j :| 0 <= j < |g| && g[j] == e;
        assert ops[j] == x;
      }
    }
  }

  /** `has_merge` is true exactly when one of the meta-operation's edits is a merge. */
  lemma MetaEditsHasMerge(edits: seq<EditRow>, i: nat)
    requires i < |MetaEdits(edits)|
    ensures var m := MetaEdits(edits)[i];
      m.hasMerge <==> exists e :: e in edits && e.metaoperationId == m.metaoperationId && e.isMerge
  {
    var keys := SortedUnique(MetaIds(edits));
    var key := keys[i];
    var g := Group(edits, key);
    var m := MetaEdits(edits)[i];
    assert m == Aggregate(edits, key);
    var flags := MergeFlags(g);
    if m.hasMerge {
      var j :| 0 <= j < |flags| && flags[j];
      assert g[j] in g;
    }
    if exists e :: e in edits && e.metaoperationId == key && e.isMerge {
      var e :| e in edits && e.metaoperationId == key && e.isMerge;
      var j :| 0 <= j < |g| && g[j] == e;
      assert flags[j];
    }
  }

  /** `datetime` is the latest time among the meta-operation's edits. */
  lemma MetaEditsLatest(edits: seq<EditRow>, i: nat)
    requires i < |MetaEdits(edits)|
    ensures var m := MetaEdits(edits)[i];
      (exists e :: e in edits && e.metaoperationId == m.metaoperationId && e.datetime == m.datetime) &&
      (forall e :: e in edits && e.metaoperationId == m.metaoperationId ==> e.datetime <= m.datetime)
  {
    var keys := SortedUnique(MetaIds(edits));
    var key := keys[i];
    var g := Group(edits, key);
    var m := MetaEdits(edits)[i];
    assert m == Aggregate(edits, key);
    var ts := Times(g);
    var j :| 0 <= j < |ts| && ts[j] == m.datetime;
    assert g[j] in g;
    forall e | e in edits && e.metaoperationId == key ensures e.datetime <= m.datetime {
      var k :| 0 <= k < |g| && g[k] == e;
      assert ts[k] == e.datetime;
    }
  }

  // ---------------------------------------------------------------------------
  // The frame object, whose setters and in-place operations update its fields.

  class NeuronFrame {
    var nodes: seq<NodeRow>
    var edges: seq<EdgeRow>
    var pre: SynapseTable
    var post: SynapseTable
    var edits: seq<EditRow>
    var nucleusId: int
    var neuronId: Option<int>
    var preCol: string
    var postCol: string

    function View(): Neuron
      reads this
    {
      Neuron(nodes, edges, pre, post, edits, nucleusId, neuronId, preCol, postCol)
    }

    constructor FromState(n: Neuron)
      ensures View() == n
    {
      nodes, edges, pre, post, edits := n.nodes, n.edges, n.pre, n.post, n.edits;
      nucleusId, neuronId, preCol, postCol := n.nucleusId, n.neuronId, n.preCol, n.postCol;
    }

    /** The `nucleus_id` setter: a `ValueError` leaves the frame as it was. */
    method SetNucleusId(nucleus: Option<int>) returns (err: Option<Error>)
      modifies this
      ensures err.None? <==> CheckNucleus(nodes, nucleus).Ok?
      ensures err.Some? ==> err.value == ValueError && View() == old(View())
      ensures err.None? ==> View() == old(View()).(nucleusId := nucleus.value)
    {
      if nucleus.None? || nucleus.value !in NodeIds(nodes) {
        return Some(ValueError);
      }
      nucleusId := nucleus.value;
      return None;
    }

    /** The `pre_synapse_mapping_col` setter. */
    method SetPreSynapseMappingCol(col: string) returns (err: Option<Error>)
      modifies this
      ensures err.None? <==> CheckMappingCol(pre, col, IdSet(nodes)).Ok?
      ensures err.Some? ==> err.value == ValueError && View() == old(View())
      ensures err.None? ==> View() == old(View()).(preCol := col)
    {
      match CheckMappingCol(pre, col, IdSet(nodes))
      case Err(e) => return Some(e);
      case Ok(_) => preCol := col; return None;
    }

    /** The `post_synapse_mapping_col` setter. */
    method SetPostSynapseMappingCol(col: string) returns (err: Option<Error>)
      modifies this
      ensures err.None? <==> CheckMappingCol(post, col, IdSet(nodes)).Ok?
      ensures err.Some? ==> err.value == ValueError && View() == old(View())
      ensures err.None? ==> View() == old(View()).(postCol := col)
    {
      match CheckMappingCol(post, col, IdSet(nodes))
      case Err(e) => return Some(e);
      case Ok(_) => postCol := col; return None;
    }

    /** `set_edits(..., inplace=True)`: the node query, then the edge query, on self. */
    method SetEditsInPlace(a: EditIds, prefix: Prefix)
      modifies this
      ensures View() == SetEdits(old(View()), a, prefix)
    {
      var ids := EditList(a);
      var q := QueryNodes(View(), (x: NodeRow) => Kept(x.prov, prefix, ids));
      nodes, edges := q.nodes, q.edges;
      edges := Filter(edges, (e: EdgeRow) => Kept(e.prov, prefix, ids));
    }

    /** `remove_unused_synapses(..., inplace=True)`: on failure nothing is changed. */
    method RemoveUnusedSynapsesInPlace(which: Which) returns (err: Option<Error>)
      modifies this
      ensures var r := RemoveUnusedSynapses(old(View()), which);
        (err.None? <==> r.Ok?) &&
        (r.Ok? ==> View() == r.value) &&
        (r.Err? ==> err == Some(r.error) && View() == old(View()))
    {
      var r := RemoveUnusedSynapses(View(), which);
      if r.Err? {
        return Some(r.error);
      }
      pre, post := r.value.pre, r.value.post;
      return None;
    }

    /** `select_nucleus_component(inplace=True)`. */
    method SelectNucleusComponentInPlace()
      modifies this
      ensures View() == SelectNucleusComponent(old(View()))
    {
      var r := SelectNucleusComponent(View());
      nodes, edges := r.nodes, r.edges;
    }
  }

  /** The constructor, which raises when a setter does: the frame is created only
      when `Build` accepts its arguments. */
  method NewNeuronFrame(
    nodes: seq<NodeRow>, edges: seq<EdgeRow>, pre: SynapseTable, post: SynapseTable,
    edits: seq<EditRow>, nucleus: Option<int>, neuronId: Option<int>,
    preCol: string, postCol: string) returns (r: Result<NeuronFrame>)
    ensures var b := Build(nodes, edges, pre, post, edits, nucleus, neuronId, preCol, postCol);
      (r.Ok? <==> b.Ok?) &&
      (r.Ok? ==> fresh(r.value) && r.value.View() == b.value) &&
      (r.Err? ==> r.error == b.error)
  {
    var b := Build(nodes, edges, pre, post, edits, nucleus, neuronId, preCol, postCol);
    if b.Err? {
      return Err(b.error);
    }
    var f := new NeuronFrame.FromState(b.value);
    return Ok(f);
  }
}
