/** Component lookup, nucleus flagging and soma-point scaling on a level-2 frame. */
module Morphology {
  import opened Seqs
  import opened Wrappers
  import opened Graphs

  /** `find_component_by_l2_id`: None when the id is not a node, otherwise the
      undirected component selected from that node, with the edges inside it. */
  function FindComponentByL2Id(g: Graph, l2: int): (r: Option<Graph>)
    ensures r.Some? <==> l2 in NodeSet(g)
  {
    if l2 !in g.nodes then None
    else Some(Induced(g, ComponentOf(g, l2)))
  }

  /** The component found holds the id, holds exactly the nodes of its undirected
      component, and is the frame that the first-containing-component loop finds
      too. */
  lemma FindComponentByL2IdSpec(g: Graph, l2: int)
    requires l2 in NodeSet(g)
    ensures FindComponent(g, l2).Some?
    ensures var c := FindComponentByL2Id(g, l2).value;
      l2 in NodeSet(c) &&
      NodeSet(c) == ComponentOf(g, l2) &&
      (forall e :: e in EdgeSet(c) <==> e in EdgeSet(g) && e.source in NodeSet(c) && e.target in NodeSet(c)) &&
      Same(c, FindComponent(g, l2).value)
  {
    var c := FindComponentByL2Id(g, l2).value;
    FindComponentSpec(g, l2);
    assert NodeSet(c) == ComponentOf(g, l2);
  }

  /** A node table whose `nucleus` column is written in place. */
  class NucleusColumn {
    var index: seq<int>
    var nucleus: seq<bool>

    predicate Valid()
      reads this
    {
      |nucleus| == |index|
    }

    constructor (ids: seq<int>)
      ensures Valid() && index == ids
      ensures forall i :: 0 <= i < |nucleus| ==> !nucleus[i]
    {
      index := ids;
      nucleus := seq(|ids|, i => false);
    }

    /** The non-positional `apply_nucleus`: the column is set to False everywhere,
        then to True on the rows labelled with the looked-up id. Assigning through
        `.loc` to a label that is not in the index appends a row with that label.
        The looked-up id is returned. */
    method ApplyNucleus(nucL2: int) returns (r: int)
      requires Valid()
      modifies this
      ensures Valid()
      ensures r == nucL2
      ensures index == old(index) + (if nucL2 in old(index) then [] else [nucL2])
      ensures forall i :: 0 <= i < |index| ==> (nucleus[i] <==> index[i] == nucL2)
    {
      nucleus := seq(|index|, i => false);
      if nucL2 !in index {
        index := index + [nucL2];
        nucleus := nucleus + [false];
      }
      var ids := index;
      nucleus := seq(|ids|, i requires 0 <= i < |ids| => ids[i] == nucL2);
      return nucL2;
    }
  }

  /** The voxel resolution the soma position is given in: 4 x 4 x 40 nm. */
  const SomaResolution: seq<int> := [4, 4, 40]

  /** numpy's element-wise product with broadcasting: equal lengths multiply
      entry by entry, a single entry is repeated, and any other shape raises
      `ValueError`. */
  function Broadcast(p: seq<int>, res: seq<int>): (r: Result<seq<int>>)
    ensures r.Ok? <==> |p| == |res| || |p| == 1 || |res| == 1
    ensures r.Ok? && |p| == |res| ==>
      |r.value| == |p| && forall i :: 0 <= i < |p| ==> r.value[i] == p[i] * res[i]
    ensures r.Err? ==> r.error == ValueError
  {
    if |p| == |res| then Ok(seq(|p|, i requires 0 <= i < |p| => p[i] * res[i]))
    else if |p| == 1 then Ok(seq(|res|, i requires 0 <= i < |res| => p[0] * res[i]))
    else if |res| == 1 then Ok(seq(|p|, i requires 0 <= i < |p| => p[i] * res[0]))
    else Err(ValueError)
  }

  /** `get_soma_point`: the position of the first row of the nucleus table query,
      scaled to nanometres. An empty query result has no first row (`IndexError`). */
  function GetSomaPoint(rows: seq<seq<int>>): (r: Result<seq<int>>)
    ensures |rows| == 0 ==> r == Err(IndexError)
    ensures |rows| > 0 && |rows[0]| == 3 ==>
      r == Ok([rows[0][0] * 4, rows[0][1] * 4, rows[0][2] * 40])
    ensures |rows| > 0 && |rows[0]| == 1 ==>
      r == Ok([rows[0][0] * 4, rows[0][0] * 4, rows[0][0] * 40])
    ensures |rows| > 0 && |rows[0]| != 1 && |rows[0]| != 3 ==> r == Err(ValueError)
  {
    if |rows| == 0 then Err(IndexError)
    else
      var r := Broadcast(rows[0], SomaResolution);
      assert |rows[0]| == 3 ==> r.value == [rows[0][0] * 4, rows[0][1] * 4, rows[0][2] * 40];
      assert |rows[0]| == 1 ==> r.value == [rows[0][0] * 4, rows[0][0] * 4, rows[0][0] * 40];
      r
  }

  /** Only the first row is used: later rows never change the result. */
  lemma {:induction false} SomaPointFirstRow(rows: seq<seq<int>>, more: seq<seq<int>>)
    requires |rows| > 0
    ensures GetSomaPoint(rows + more) == GetSomaPoint(rows)
  {
    assert (rows + more)[0] == rows[0];
  }
}
