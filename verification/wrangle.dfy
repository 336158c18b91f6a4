/** Level-2 graph assembly from the chunked-graph edge list, and the splitting of
    flattened coordinate lists into x, y and z columns. */
module Wrangle {
  import opened Seqs
  import opened Wrappers
  import opened Graphs

  /** The endpoints of an edge list in row order: source, then target, of each row. */
  function Endpoints(es: seq<Edge>): (vs: seq<int>)
    ensures |vs| == 2 * |es|
  {
    if |es| == 0 then []
    else Endpoints(es[..|es| - 1]) + [es[|es| - 1].source, es[|es| - 1].target]
  }

  /** The endpoint list holds exactly the ends of the edges. */
  lemma {:induction false} EndpointsSpec(es: seq<Edge>)
    ensures forall v :: v in Endpoints(es) <==> exists e :: e in es && (v == e.source || v == e.target)
  {
    if |es| > 0 {
      var last := es[|es| - 1];
      assert forall e :: e in es <==> e in es[..|es| - 1] || e == last by {
        assert es == es[..|es| - 1] + [last];
      }
      EndpointsSpec(es[..|es| - 1]);
    }
  }

  /** One more row adds its two ends. */
  lemma EndpointsStep(es: seq<Edge>, i: nat)
    requires i < |es|
    ensures Endpoints(es[..i + 1]) == Endpoints(es[..i]) + [es[i].source, es[i].target]
  {
    assert es[..i + 1][..i] == es[..i];
  }

  /** The nested loop that adds both ends of every edge to the node set. The set is
      kept as a duplicate-free list in order of first appearance. */
  method CollectNodes(es: seq<Edge>) returns (nodes: seq<int>)
    ensures nodes == Dedup(Endpoints(es))
  {
    nodes := [];
    var i := 0;
    while i < |es|
      invariant 0 <= i <= |es|
      invariant nodes == Dedup(Endpoints(es[..i]))
    {
      var edge := [es[i].source, es[i].target];
      ghost var before := Endpoints(es[..i]);
      assert before + edge[..0] == before;
      var j := 0;
      while j < 2
        invariant 0 <= j <= 2
        invariant nodes == Dedup(before + edge[..j])
      {
        assert edge[..j + 1] == edge[..j] + [edge[j]];
        assert before + edge[..j + 1] == (before + edge[..j]) + [edge[j]];
        DedupSnoc(before + edge[..j], edge[j]);
        if edge[j] !in nodes {
          nodes := nodes + [edge[j]];
        }
        j := j + 1;
      }
      EndpointsStep(es, i);
      assert edge[..2] == edge;
      i := i + 1;
    }
    assert es[..|es|] == es;
  }

  /** `get_level2_nodes_edges` without positions. `chunkGraph` is the chunked-graph
      service's edge list (or the exception it raised) and `leaves` its level-2
      leaves of the root.
      - An `HTTPError` falls back to an empty edge array when the root has exactly one
        level-2 leaf; with any other leaf count it is raised again.
      - An empty edge list from the service cannot be given the two column names
        and raises `ValueError`; the fallback's empty array has two columns and does
        not.
      - Nodes are the endpoints of the edges; repeated rows are dropped keeping the
        first. */
  function Level2NodesEdges(chunkGraph: Result<seq<Edge>>, leaves: seq<int>): (r: Result<Graph>)
    ensures r.Err? ==> r.error == ValueError || (chunkGraph.Err? && r.error == chunkGraph.error)
    ensures r.Ok? ==> NoDup(r.value.nodes) && NoDup(r.value.edges)
  {
    match chunkGraph
    case Err(e) =>
      if e != HTTPError then Err(e)
      else if |leaves| != 1 then Err(HTTPError)
      else Ok(Graph([], []))
    case Ok(es) =>
      if |es| == 0 then Err(ValueError)
      else Ok(Graph(Dedup(Endpoints(es)), Dedup(es)))
  }

  method GetLevel2NodesEdges(chunkGraph: Result<seq<Edge>>, leaves: seq<int>) returns (r: Result<Graph>)
    ensures r == Level2NodesEdges(chunkGraph, leaves)
  {
    var edgelist: seq<Edge>;
    if chunkGraph.Err? {
      if chunkGraph.error != HTTPError {
        return Err(chunkGraph.error);
      }
      if |leaves| != 1 {
        return Err(HTTPError);
      }
      edgelist := [];
    } else {
      edgelist := chunkGraph.value;
      if |edgelist| == 0 {
        return Err(ValueError);
      }
    }
    var nodes := CollectNodes(edgelist);
    r := Ok(Graph(nodes, Dedup(edgelist)));
  }

  /** On success the node index is exactly the set of edge endpoints, without
      repeats, so a node without edges never appears; the edge table holds every
      listed pair once, as ordered pairs. */
  lemma Level2NodesEdgesSpec(chunkGraph: Result<seq<Edge>>, leaves: seq<int>)
    ensures chunkGraph.Ok? && |chunkGraph.value| > 0 ==>
      var g := Level2NodesEdges(chunkGraph, leaves).value;
      NoDup(g.nodes) && NoDup(g.edges) &&
      (forall v :: v in g.nodes <==>
        exists e :: e in chunkGraph.value && (v == e.source || v == e.target)) &&
      EdgeSet(g) == Elems(chunkGraph.value)
    ensures Level2NodesEdges(chunkGraph, leaves).Ok? <==>
      (chunkGraph.Ok? && |chunkGraph.value| > 0) ||
      (chunkGraph.Err? && chunkGraph.error == HTTPError && |leaves| == 1)
  {
    if chunkGraph.Ok? && |chunkGraph.value| > 0 {
      var es := chunkGraph.value;
      var g := Level2NodesEdges(chunkGraph, leaves).value;
      EndpointsSpec(es);
      assert Elems(g.nodes) == Elems(Endpoints(es));
      assert forall v :: v in g.nodes <==> v in Endpoints(es) by {
        forall v ensures v in g.nodes <==> v in Endpoints(es) {
          assert v in g.nodes <==> v in Elems(g.nodes);
          assert v in Endpoints(es) <==> v in Elems(Endpoints(es));
        }
      }
    }
  }

  /** The single-leaf fallback yields an empty frame: nodes come only from edges. */
  lemma FallbackEmpty(leaf: int)
    ensures Level2NodesEdges(Err(HTTPError), [leaf]) == Ok(Graph([], []))
    ensures forall ls :: |ls| != 1 ==> Level2NodesEdges(Err(HTTPError), ls) == Err(HTTPError)
  {
  }

  /** Direction is significant: an edge and its reverse are both kept. */
  lemma {:induction false} ReversedEdgeKept(a: int, b: int)
    requires a != b
    ensures Level2NodesEdges(Ok([Edge(a, b), Edge(b, a)]), []).value.edges ==
      [Edge(a, b), Edge(b, a)]
  {
    DedupSnoc([], Edge(a, b));
    assert [] + [Edge(a, b)] == [Edge(a, b)];
    DedupSnoc([Edge(a, b)], Edge(b, a));
    assert [Edge(a, b)] + [Edge(b, a)] == [Edge(a, b), Edge(b, a)];
  }

  /** A repeated row is kept once, at its first position. */
  lemma {:induction false} RepeatedEdgeDropped(a: int, b: int, c: int)
    requires Edge(a, b) != Edge(b, c)
    ensures Level2NodesEdges(Ok([Edge(a, b), Edge(b, c), Edge(a, b)]), []).value.edges ==
      [Edge(a, b), Edge(b, c)]
  {
    DedupSnoc([], Edge(a, b));
    assert [] + [Edge(a, b)] == [Edge(a, b)];
    DedupSnoc([Edge(a, b)], Edge(b, c));
    assert [Edge(a, b)] + [Edge(b, c)] == [Edge(a, b), Edge(b, c)];
    DedupSnoc([Edge(a, b), Edge(b, c)], Edge(a, b));
    assert [Edge(a, b), Edge(b, c)] + [Edge(a, b)] == [Edge(a, b), Edge(b, c), Edge(a, b)];
  }

  // ---------------------------------------------------------------------------
  // pt_to_xyz

  datatype Axis = X | Y | Z

  /** `to_xyz`: the axis of the flattened entry at position `order`. */
  function ToXyz(order: nat): (r: Axis)
    ensures order < 3 ==> r == [X, Y, Z][order]
    ensures order >= 3 ==> r == ToXyz(order - 3)
  {
    if order % 3 == 0 then X else if order % 3 == 1 then Y else Z
  }

  /** A point: its index label and its coordinate list. */
  datatype Point = Point(id: int, coords: seq<int>)

  /** One exploded entry; `None` is the missing value an empty list explodes to. */
  datatype Entry = Entry(id: int, value: Option<int>)

  function ExplodeOne(p: Point): (r: seq<Entry>)
    ensures |r| == if |p.coords| == 0 then 1 else |p.coords|
  {
    if |p.coords| == 0 then [Entry(p.id, None)]
    else seq(|p.coords|, i requires 0 <= i < |p.coords| => Entry(p.id, Some(p.coords[i])))
  }

  /** `explode`: one row per coordinate, in point order. */
  function Explode(pts: seq<Point>): seq<Entry> {
    if |pts| == 0 then [] else Explode(pts[..|pts| - 1]) + ExplodeOne(pts[|pts| - 1])
  }

  /** `pivot(index=id, columns=axis)`: each entry fills the cell of its id and the axis
      of its position; a cell filled twice raises `ValueError`. */
  function Cells(flat: seq<Entry>): Result<map<(int, Axis), Option<int>>> {
    if |flat| == 0 then Ok(map[])
    else
      match Cells(flat[..|flat| - 1])
      case Err(e) => Err(e)
      case Ok(m) =>
        var key := (flat[|flat| - 1].id, ToXyz(|flat| - 1));
        if key in m then Err(ValueError) else Ok(m[key := flat[|flat| - 1].value])
  }

  /** The x, y and z cells of one point; a cell never filled is missing. */
  datatype Xyz = Xyz(x: Option<int>, y: Option<int>, z: Option<int>)

  function Cell(m: map<(int, Axis), Option<int>>, id: int, a: Axis): Option<int> {
    if (id, a) in m then m[(id, a)] else None
  }

  function PointIds(pts: seq<Point>): set<int> {
    set p | p in pts :: p.id
  }

  /** `pt_to_xyz`: the coordinates of every point, split by position into x, y, z. */
  function PtToXyz(pts: seq<Point>): (r: Result<map<int, Xyz>>)
    ensures r.Ok? ==> r.value.Keys == PointIds(pts)
  {
    match Cells(Explode(pts))
    case Err(e) => Err(e)
    case Ok(m) => Ok(map id | id in PointIds(pts) :: Xyz(Cell(m, id, X), Cell(m, id, Y), Cell(m, id, Z)))
  }

  /** Points with distinct ids and three coordinates each. */
  predicate ThreeD(pts: seq<Point>) {
    (forall i, j :: 0 <= i < j < |pts| ==> pts[i].id != pts[j].id) &&
    (forall p :: p in pts ==> |p.coords| == 3)
  }

  /** The cells three-dimensional points fill: each point's three coordinates. */
  function Filled(pts: seq<Point>): map<(int, Axis), Option<int>>
    requires forall p :: p in pts ==> |p.coords| == 3
  {
    if |pts| == 0 then map[]
    else
      var p := pts[|pts| - 1];
      assert p in pts;
      Filled(pts[..|pts| - 1])[(p.id, X) := Some(p.coords[0])][(p.id, Y) := Some(p.coords[1])][(p.id, Z) := Some(p.coords[2])]
  }

  lemma {:induction false} FilledKeys(pts: seq<Point>)
    requires forall p :: p in pts ==> |p.coords| == 3
    ensures forall id, a :: (id, a) in Filled(pts) <==> id in PointIds(pts)
  {
    if |pts| > 0 {
      var init := pts[..|pts| - 1];
      var p := pts[|pts| - 1];
      assert forall q :: q in pts <==> q in init || q == p by {
        assert pts == init + [p];
      }
      FilledKeys(init);
      assert PointIds(pts) == PointIds(init) + {p.id};
      forall id, a ensures (id, a) in Filled(pts) <==> id in PointIds(pts) {
        assert a == X || a == Y || a == Z;
        assert (id, a) in Filled(pts) <==> (id, a) in Filled(init) || id == p.id;
      }
    }
  }

  lemma {:induction false} ExplodeThreeD(pts: seq<Point>)
    requires forall p :: p in pts ==> |p.coords| == 3
    ensures |Explode(pts)| == 3 * |pts|
  {
    if |pts| > 0 {
      assert pts[|pts| - 1] in pts;
      ExplodeThreeD(pts[..|pts| - 1]);
    }
  }

  /** Three entries of one new id, starting at a position that is a multiple of
      three, fill that id's x, y and z cells. */
  lemma {:induction false} CellsAppendPoint(a: seq<Entry>, m: map<(int, Axis), Option<int>>, k: nat, id: int, x: int, y: int, z: int)
    requires Cells(a) == Ok(m)
    requires |a| == 3 * k
    requires (id, X) !in m && (id, Y) !in m && (id, Z) !in m
    ensures Cells(a + [Entry(id, Some(x)), Entry(id, Some(y)), Entry(id, Some(z))]) ==
      Ok(m[(id, X) := Some(x)][(id, Y) := Some(y)][(id, Z) := Some(z)])
  {
    var n := |a|;
    var f1 := a + [Entry(id, Some(x))];
    var f2 := f1 + [Entry(id, Some(y))];
    var f3 := f2 + [Entry(id, Some(z))];
    assert f3 == a + [Entry(id, Some(x)), Entry(id, Some(y)), Entry(id, Some(z))];
    ModThree(k);
    assert f1[..|f1| - 1] == a;
    assert f2[..|f2| - 1] == f1;
    assert f3[..|f3| - 1] == f2;
    assert Cells(f1) == Ok(m[(id, X) := Some(x)]);
    assert Cells(f2) == Ok(m[(id, X) := Some(x)][(id, Y) := Some(y)]);
  }

  /** The last of a run of three-dimensional points has an id that no earlier
      point has. */
  lemma LastIdFresh(pts: seq<Point>)
    requires ThreeD(pts) && |pts| > 0
    ensures ThreeD(pts[..|pts| - 1])
    ensures pts[|pts| - 1].id !in PointIds(pts[..|pts| - 1])
    ensures |pts[|pts| - 1].coords| == 3
  {
    var init := pts[..|pts| - 1];
    assert pts[|pts| - 1] in pts;
    forall q | q in init ensures q.id != pts[|pts| - 1].id {
      var k :| 0 <= k < |init| && init[k] == q;
      assert pts[k] == q;
    }
  }

  lemma ModThree(k: nat)
    ensures (3 * k) % 3 == 0 && (3 * k + 1) % 3 == 1 && (3 * k + 2) % 3 == 2
  {
  }

  /** A point with three coordinates explodes to its x, y and z entries. */
  lemma ExplodeThree(p: Point)
    requires |p.coords| == 3
    ensures ExplodeOne(p) == [Entry(p.id, Some(p.coords[0])), Entry(p.id, Some(p.coords[1])), Entry(p.id, Some(p.coords[2]))]
  {
    var e := ExplodeOne(p);
    assert e[0] == Entry(p.id, Some(p.coords[0])) && e[1] == Entry(p.id, Some(p.coords[1]));
  }

  /** Three-dimensional points fill exactly their own cells, without clashes. */
  lemma {:induction false} CellsThreeD(pts: seq<Point>)
    requires ThreeD(pts)
    ensures Cells(Explode(pts)) == Ok(Filled(pts))
  {
    if |pts| > 0 {
      var init := pts[..|pts| - 1];
      var p := pts[|pts| - 1];
      LastIdFresh(pts);
      CellsThreeD(init);
      ExplodeThreeD(init);
      FilledKeys(init);
      assert (p.id, X) !in Filled(init) && (p.id, Y) !in Filled(init) && (p.id, Z) !in Filled(init);
      ExplodeThree(p);
      CellsAppendPoint(Explode(init), Filled(init), |init|, p.id, p.coords[0], p.coords[1], p.coords[2]);
    }
  }

  /** When every point has exactly three coordinates and ids are distinct, each
      point's x, y and z are its first, second and third coordinate. */
  lemma PtToXyzThreeD(pts: seq<Point>)
    requires ThreeD(pts)
    ensures PtToXyz(pts).Ok?
    ensures forall p :: p in pts ==>
      PtToXyz(pts).value[p.id] == Xyz(Some(p.coords[0]), Some(p.coords[1]), Some(p.coords[2]))
  {
    CellsThreeD(pts);
    var m := Filled(pts);
    forall p | p in pts
      ensures PtToXyz(pts).value[p.id] == Xyz(Some(p.coords[0]), Some(p.coords[1]), Some(p.coords[2]))
    {
      FilledValue(pts, p);
      assert p.id in PointIds(pts);
      assert PtToXyz(pts).value[p.id] == Xyz(Cell(m, p.id, X), Cell(m, p.id, Y), Cell(m, p.id, Z));
    }
  }

  lemma {:induction false} FilledValue(pts: seq<Point>, p: Point)
    requires ThreeD(pts) && p in pts
    ensures (p.id, X) in Filled(pts) && Filled(pts)[(p.id, X)] == Some(p.coords[0])
    ensures (p.id, Y) in Filled(pts) && Filled(pts)[(p.id, Y)] == Some(p.coords[1])
    ensures (p.id, Z) in Filled(pts) && Filled(pts)[(p.id, Z)] == Some(p.coords[2])
  {
    var init := pts[..|pts| - 1];
    var last := pts[|pts| - 1];
    assert pts == init + [last];
    if p != last {
      assert p in init;
      assert ThreeD(init);
      FilledValue(init, p);
      assert p.id != last.id by {
        var k :| 0 <= k < |init| && init[k] == p;
        assert pts[k] == p;
      }
    }
  }

  /** Labels follow positions, not points: after a point with two coordinates the
      next point's coordinates land on shifted axes. */
  lemma ShiftedAxes(a: int, b: int, c: int, d: int, e: int)
    ensures PtToXyz([Point(1, [a, b]), Point(2, [c, d, e])]) ==
      Ok(map[1 := Xyz(Some(a), Some(b), None), 2 := Xyz(Some(d), Some(e), Some(c))])
  {
    var p1, p2 := Point(1, [a, b]), Point(2, [c, d, e]);
    var pts := [p1, p2];
    assert pts[..1] == [p1];
    assert [p1][..0] == [];
    var f1 := [Entry(1, Some(a))];
    var f2 := f1 + [Entry(1, Some(b))];
    var f3 := f2 + [Entry(2, Some(c))];
    var f4 := f3 + [Entry(2, Some(d))];
    var f5 := f4 + [Entry(2, Some(e))];
    assert ExplodeOne(p1) == f2;
    assert ExplodeOne(p2) == [Entry(2, Some(c)), Entry(2, Some(d)), Entry(2, Some(e))];
    assert Explode([p1]) == f2;
    assert Explode(pts) == f5;
    assert f1[..0] == [];
    assert f2[..1] == f1;
    assert f3[..2] == f2;
    assert f4[..3] == f3;
    assert f5[..4] == f4;
    var m1 := map[(1, X) := Some(a)];
    var m2 := m1[(1, Y) := Some(b)];
    var m3 := m2[(2, Z) := Some(c)];
    var m4 := m3[(2, X) := Some(d)];
    var m5 := m4[(2, Y) := Some(e)];
    assert Cells(f1) == Ok(m1);
    assert Cells(f2) == Ok(m2);
    assert Cells(f3) == Ok(m3);
    assert Cells(f4) == Ok(m4);
    assert Cells(f5) == Ok(m5);
    assert PointIds(pts) == {1, 2};
    assert Cell(m5, 1, Z) == None;
    var r := PtToXyz(pts).value;
    var expected := map[1 := Xyz(Some(a), Some(b), None), 2 := Xyz(Some(d), Some(e), Some(c))];
    assert r.Keys == expected.Keys;
    assert r[1] == expected[1];
    assert r[2] == expected[2];
    assert r == expected;
  }
}
