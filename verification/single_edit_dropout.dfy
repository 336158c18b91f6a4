/** Single-edit dropout: for every filtered edit, the neuron state that applies all
    edits but that one, plus a final state that applies them all; feature rows of
    those states are compared with the final row; and the meta-operation that
    modified each node. */
module SingleEditDropout {
  import opened Seqs
  import opened Wrappers
  import opened NeuronFrames

  /** One row of the edit table the dropout runs over: its index (an operation id, or
      a meta-operation id for meta-edits) and its filter flag (`is_filtered`, or
      `has_filtered` for meta-edits). */
  datatype DropoutEdit = DropoutEdit(id: int, filtered: bool)

  /** The label of the state that applies every edit. */
  const FinalLabel: int := -1

  /** `edits.index`. */
  function EditIds(edits: seq<DropoutEdit>): (r: seq<int>)
    ensures |r| == |edits| && forall i :: 0 <= i < |edits| ==> r[i] == edits[i].id
  {
    seq(|edits|, i requires 0 <= i < |edits| => edits[i].id)
  }

  /** `filtered_edits.index`: the ids of the filtered edits, in table order. */
  function FilteredIds(edits: seq<DropoutEdit>): (r: seq<int>)
    ensures forall x :: x in r <==> exists e :: e in edits && e.filtered && e.id == x
  {
    if |edits| == 0 then []
    else
      var init := edits[..|edits| - 1];
      var last := edits[|edits| - 1];
      assert forall e :: e in edits <==> e in init || e == last by { assert edits == init + [last]; }
      FilteredIds(init) + (if last.filtered then [last.id] else [])
  }

  /** The edits applied in the state labelled `x`: every edit whose id is not `x`,
      in table order. */
  function AllBut(edits: seq<DropoutEdit>, x: int): (r: seq<int>)
    ensures forall y :: y in r <==> y in EditIds(edits) && y != x
  {
    var ids := EditIds(edits);
    var r := Filter(ids, (y: int) => y != x);
    assert forall y :: y in ids && y != x ==> y in r by {
      forall y | y in ids && y != x ensures y in r {
        var i :| 0 <= i < |ids| && ids[i] == y;
      }
    }
    r
  }

  /** The leave-one-out loop followed by the final state: one list of applied edits
      per label, a later label replacing an earlier equal one (`replace=True`). Every
      filtered edit labels the state that applies all edits but itself; the label
      `-1` holds the state that applies all of them. */
  method DropoutStates(edits: seq<DropoutEdit>) returns (states: map<int, seq<int>>)
    ensures states.Keys == Elems(FilteredIds(edits)) + {FinalLabel}
    ensures states[FinalLabel] == EditIds(edits)
    ensures forall x :: x in states && x != FinalLabel ==>
      (forall y :: y in states[x] <==> y in EditIds(edits) && y != x)
  {
    var filtered := FilteredIds(edits);
    states := map[];
    var i := 0;
    while i < |filtered|
      invariant 0 <= i <= |filtered|
      invariant states.Keys == Elems(filtered[..i])
      invariant forall x :: x in states ==> states[x] == AllBut(edits, x)
    {
      assert filtered[..i + 1] == filtered[..i] + [filtered[i]];
      states := states[filtered[i] := AllBut(edits, filtered[i])];
      i := i + 1;
    }
    assert filtered[..i] == filtered;
    states := states[FinalLabel := EditIds(edits)];
  }

  /** Leaving out edit `x` changes only the rows `x` touched. Node rows `x` added are
      gone. Rows `x` removed come back when the edit that added them is applied.
      Every other row is present exactly when it is present in the final state. */
  lemma LeaveOneOutFrame(n: Neuron, edits: seq<DropoutEdit>, x: int, prefix: Prefix)
    requires x != FinalLabel
    ensures var drop := SetEdits(n, Many(AllBut(edits, x)), prefix).nodes;
      forall v :: v in n.nodes && AddedBy(v.prov, prefix) == x ==> v !in drop
    ensures var drop := SetEdits(n, Many(AllBut(edits, x)), prefix).nodes;
      forall v :: (v in n.nodes && RemovedBy(v.prov, prefix) == x && AddedBy(v.prov, prefix) != x &&
                   (AddedBy(v.prov, prefix) in EditIds(edits) || AddedBy(v.prov, prefix) == -1)) ==> v in drop
    ensures var drop := SetEdits(n, Many(AllBut(edits, x)), prefix).nodes;
      var final := SetEdits(n, Many(EditIds(edits)), prefix).nodes;
      forall v :: v in n.nodes && AddedBy(v.prov, prefix) != x && RemovedBy(v.prov, prefix) != x ==>
        (v in drop <==> v in final)
  {
    SetEditsRule(n, Many(AllBut(edits, x)), prefix);
    SetEditsRule(n, Many(EditIds(edits)), prefix);
  }

  /** `compute_diffs_to_final`: row `-1` is the reference and is left out of the
      compared rows; every other row gets its distance to the reference. The metric
      is the parameter `dist`; a table without row `-1` is a `KeyError`. */
  function DiffsToFinal(rows: map<int, seq<int>>, dist: (seq<int>, seq<int>) -> int): (r: Result<map<int, int>>)
    ensures r.Ok? <==> FinalLabel in rows
    ensures r.Err? ==> r.error == KeyError
    ensures r.Ok? ==> r.value.Keys == rows.Keys - {FinalLabel}
    ensures r.Ok? ==> forall x :: x in r.value ==> r.value[x] == dist(rows[x], rows[FinalLabel])
  {
    if FinalLabel !in rows then Err(KeyError)
    else Ok(map x | x in rows && x != FinalLabel :: dist(rows[x], rows[FinalLabel]))
  }

  /** `get_metaoperation_modified`: a node both added and removed by different
      meta-operations is a `ValueError`; otherwise the larger of the two ids. */
  function MetaoperationModified(added: int, removed: int): (r: Result<int>)
    ensures r.Err? <==> added != -1 && removed != -1 && added != removed
    ensures r.Err? ==> r.error == ValueError
    ensures r.Ok? && added >= -1 && removed >= -1 ==> r.value == if added == -1 then removed else added
  {
    if added != -1 && removed != -1 && added != removed then Err(ValueError)
    else Ok(if added >= removed then added else removed)
  }

  /** The `modified_nodes` query: some meta-operation added or removed the node. */
  predicate Modified(v: NodeRow) {
    v.prov.metaoperationAdded != -1 || v.prov.metaoperationRemoved != -1
  }

  function ModifiedNodes(nodes: seq<NodeRow>): (r: seq<NodeRow>)
    ensures forall v :: v in r <==> v in nodes && Modified(v)
  {
    var r := Filter(nodes, Modified);
    assert forall v :: v in nodes && Modified(v) ==> v in r by {
      forall v | v in nodes && Modified(v) ensures v in r {
        var i :| 0 <= i < |nodes| && nodes[i] == v;
      }
    }
    r
  }

  /** `apply(get_metaoperation_modified, axis=1)`: one value per row in order; the
      first row that raises aborts the whole column. */
  function ModifiedColumn(rows: seq<NodeRow>): (r: Result<seq<int>>)
    ensures r.Ok? ==> |r.value| == |rows|
  {
    if |rows| == 0 then Ok([])
    else match ModifiedColumn(rows[..|rows| - 1])
      case Err(e) => Err(e)
      case Ok(col) =>
        var last := rows[|rows| - 1].prov;
        match MetaoperationModified(last.metaoperationAdded, last.metaoperationRemoved)
        case Err(e) => Err(e)
        case Ok(m) => Ok(col + [m])
  }

  /** The column is computed exactly when no row was added and removed by two
      different meta-operations; then each row gets the meta-operation that is set. */
  lemma {:induction false} ModifiedColumnSpec(rows: seq<NodeRow>)
    ensures ModifiedColumn(rows).Ok? <==> forall i :: 0 <= i < |rows| ==>
      MetaoperationModified(rows[i].prov.metaoperationAdded, rows[i].prov.metaoperationRemoved).Ok?
    ensures ModifiedColumn(rows).Ok? ==> forall i :: 0 <= i < |rows| ==>
      (ModifiedColumn(rows).value[i] ==
       MetaoperationModified(rows[i].prov.metaoperationAdded, rows[i].prov.metaoperationRemoved).value)
  {
    if |rows| > 0 {
      var n := |rows| - 1;
      ModifiedColumnSpec(rows[..n]);
      assert forall i :: 0 <= i < n ==> rows[..n][i] == rows[i];
    }
  }

  /** On modified nodes whose ids are `-1` or ids, a computed column never holds
      `-1`: each node gets the meta-operation that added or removed it. */
  lemma ModifiedNodesColumn(nodes: seq<NodeRow>)
    requires forall v :: v in nodes ==> v.prov.metaoperationAdded >= -1 && v.prov.metaoperationRemoved >= -1
    ensures var rows := ModifiedNodes(nodes);
      ModifiedColumn(rows).Ok? ==> forall i :: 0 <= i < |rows| ==>
        ModifiedColumn(rows).value[i] != -1 &&
        (ModifiedColumn(rows).value[i] == rows[i].prov.metaoperationAdded ||
         ModifiedColumn(rows).value[i] == rows[i].prov.metaoperationRemoved)
  {
    var rows := ModifiedNodes(nodes);
    ModifiedColumnSpec(rows);
    assert forall i :: 0 <= i < |rows| ==> rows[i] in nodes && Modified(rows[i]);
  }
}
