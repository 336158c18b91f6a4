/** Replay of meta-operation deltas in a random order. The order is an arbitrary
    permutation of the meta-operation ids; the replayed frame's nucleus component
    is then compared with the current graph. Whether that comparison can succeed
    depends on the deltas commuting, which is what this module proves. */
module RemixEdits {
  import opened Seqs
  import opened Wrappers
  import opened Graphs
  import opened Changes
  import opened Replay

  /** `np.random.permutation` of the meta-operation ids: every id exactly once. */
  predicate IsPermutation(order: seq<int>, ids: set<int>) {
    NoDup(order) && Elems(order) == ids
  }

  /** A permutation lists as many ids as there are meta-operations. */
  lemma {:induction false} PermutationLength(order: seq<int>, ids: set<int>)
    requires IsPermutation(order, ids)
    ensures |order| == |ids|
  {
    if |order| > 0 {
      var init := order[..|order| - 1];
      var x := order[|order| - 1];
      assert order == init + [x];
      assert Elems(init) == ids - {x};
      PermutationLength(init, ids - {x});
    }
  }

  /** The replay loop over the permuted ids: each meta-delta is applied once, in
      permutation order, additions before removals (as `ApplyDelta` does). */
  method RemixReplay(f: Frame, deltas: map<int, NetworkDelta>, order: seq<int>)
    requires IsPermutation(order, deltas.Keys)
    modifies f
    ensures f.View() == ReplayAll(old(f.View()), DeltasOf(order, deltas))
  {
    AllIn(order, deltas);
    var err := ReplayEdits(f, order, deltas);
  }

  /** Meta-deltas that pairwise neither add what the other removes nor add an edge
      on a node the other removes. */
  predicate PairwiseIndependent(deltas: map<int, NetworkDelta>) {
    forall a, b :: a in deltas && b in deltas && a != b ==> Independent(deltas[a], deltas[b])
  }

  lemma DeltasOfAppend(a: seq<int>, b: seq<int>, deltas: map<int, NetworkDelta>)
    requires forall i :: 0 <= i < |a| ==> a[i] in deltas
    requires forall i :: 0 <= i < |b| ==> b[i] in deltas
    ensures forall i :: 0 <= i < |a + b| ==> (a + b)[i] in deltas
    ensures DeltasOf(a + b, deltas) == DeltasOf(a, deltas) + DeltasOf(b, deltas)
  {
    assert forall i :: 0 <= i < |a + b| ==> (a + b)[i] in deltas by {
      forall i | 0 <= i < |a + b| ensures (a + b)[i] in deltas {
        if i >= |a| {
          assert (a + b)[i] == b[i - |a|];
        }
      }
    }
  }

  /** One swap: a frame equal to `z` after `d`, then `b`, equals `z` after `b`, then `d`. */
  lemma SwapStep(x: Graph, z: Graph, d: NetworkDelta, b: NetworkDelta)
    requires Same(x, ApplyDelta(z, d))
    requires Independent(d, b) && Independent(b, d)
    ensures Same(ApplyDelta(x, b), ApplyDelta(ApplyDelta(z, b), d))
  {
    ApplySame(x, ApplyDelta(z, d), b);
    DeltasCommute(z, d, b);
  }

  /** A delta independent of every delta after it may be moved to the end. */
  lemma {:induction false} MoveToEnd(g: Graph, front: seq<NetworkDelta>, d: NetworkDelta, back: seq<NetworkDelta>)
    requires forall i :: 0 <= i < |back| ==> Independent(d, back[i]) && Independent(back[i], d)
    ensures Same(ReplayAll(g, front + [d] + back), ReplayAll(g, front + back + [d]))
  {
    if |back| == 0 {
      assert front + [d] + back == front + back + [d];
    } else {
      var init := back[..|back| - 1];
      var b := back[|back| - 1];
      assert back == init + [b];
      assert front + [d] + back == (front + [d] + init) + [b];
      assert front + back + [d] == (front + init + [b]) + [d];
      MoveToEnd(g, front, d, init);
      ReplaySnoc(g, front + [d] + init, b);
      ReplaySnoc(g, front + init, d);
      var z := ReplayAll(g, front + init);
      SwapStep(ReplayAll(g, front + [d] + init), z, d, b);
      ReplaySnoc(g, front + init, b);
      ReplaySnoc(g, front + init + [b], d);
    }
  }

  /** Removing an id from an id list without repeats. */
  lemma RemoveOne(o: seq<int>, k: nat)
    requires k < |o| && NoDup(o)
    ensures NoDup(o[..k] + o[k + 1..])
    ensures Elems(o[..k] + o[k + 1..]) == Elems(o) - {o[k]}
  {
    var r := o[..k] + o[k + 1..];
    assert forall i :: 0 <= i < |r| ==> r[i] == if i < k then o[i] else o[i + 1];
    forall v | v in Elems(o) && v != o[k] ensures v in Elems(r) {
      var j :| 0 <= j < |o| && o[j] == v;
      if j < k { assert r[j] == v; } else { assert r[j - 1] == v; }
    }
  }

  lemma AllIn(o: seq<int>, deltas: map<int, NetworkDelta>)
    requires Elems(o) <= deltas.Keys
    ensures forall i :: 0 <= i < |o| ==> o[i] in deltas
  {
    forall i | 0 <= i < |o| ensures o[i] in deltas { assert o[i] in Elems(o); }
  }

  /** The delta at position `k` of an order may be replayed last instead. */
  lemma ExtractOne(g: Graph, deltas: map<int, NetworkDelta>, o: seq<int>, k: nat)
    requires PairwiseIndependent(deltas)
    requires NoDup(o) && Elems(o) <= deltas.Keys && k < |o|
    ensures forall i :: 0 <= i < |o| ==> o[i] in deltas
    ensures Elems(o[..k] + o[k + 1..]) <= deltas.Keys
    ensures Same(ReplayAll(g, DeltasOf(o, deltas)),
                 ApplyDelta(ReplayAll(g, DeltasOf(o[..k] + o[k + 1..], deltas)), deltas[o[k]]))
  {
    AllIn(o, deltas);
    RemoveOne(o, k);
    AllIn(o[..k] + o[k + 1..], deltas);
    var x := o[k];
    var front := o[..k];
    var back := o[k + 1..];
    assert o == front + [x] + back;
    DeltasOfAppend(front, [x], deltas);
    DeltasOfAppend(front + [x], back, deltas);
    DeltasOfAppend(front, back, deltas);
    var dx := deltas[x];
    var df := DeltasOf(front, deltas);
    var db := DeltasOf(back, deltas);
    assert DeltasOf([x], deltas) == [dx];
    forall i | 0 <= i < |db| ensures Independent(dx, db[i]) && Independent(db[i], dx) {
      assert o[k + 1 + i] == back[i];
    }
    MoveToEnd(g, df, dx, db);
    ReplaySnoc(g, df + db, dx);
  }

  /** Order independence: under pairwise independence, any two orders of the same
      meta-operation ids replay to the same frame. So the random order reproduces
      the chronological replay, and without independence it need not
      (`Changes.DeltasNeedIndependence`). */
  lemma {:induction false} RemixOrderIrrelevant(g: Graph, deltas: map<int, NetworkDelta>, o1: seq<int>, o2: seq<int>)
    requires PairwiseIndependent(deltas)
    requires NoDup(o1) && NoDup(o2) && Elems(o1) == Elems(o2) && Elems(o1) <= deltas.Keys
    ensures forall i :: 0 <= i < |o1| ==> o1[i] in deltas
    ensures forall i :: 0 <= i < |o2| ==> o2[i] in deltas
    ensures Same(ReplayAll(g, DeltasOf(o1, deltas)), ReplayAll(g, DeltasOf(o2, deltas)))
    decreases |o2|
  {
    AllIn(o1, deltas);
    AllIn(o2, deltas);
    if |o2| == 0 {
      PermutationLength(o1, Elems(o1));
      assert DeltasOf(o1, deltas) == [] == DeltasOf(o2, deltas);
      return;
    }
    var n := |o2| - 1;
    var x := o2[n];
    assert x in Elems(o1);
    var k :| 0 <= k < |o1| && o1[k] == x;
    var rest := o1[..k] + o1[k + 1..];
    RemoveOne(o1, k);
    RemoveOne(o2, n);
    assert o2[..n] + o2[n + 1..] == o2[..n];
    RemixOrderIrrelevant(g, deltas, rest, o2[..n]);
    ExtractOne(g, deltas, o1, k);
    ExtractOne(g, deltas, o2, n);
    ApplySame(ReplayAll(g, DeltasOf(rest, deltas)), ReplayAll(g, DeltasOf(o2[..n], deltas)), deltas[x]);
  }

  /** The script's closing comparison: a missing nucleus component (`None`) never
      equals the current graph; a found one matches when nodes and edges agree. */
  function RemixMatches(current: Graph, nucleus: Option<Graph>): (r: bool)
    ensures r <==> (nucleus.Some? && NodeSet(nucleus.value) == NodeSet(current) &&
                    EdgeSet(nucleus.value) == EdgeSet(current))
  {
    nucleus.Some? && Same(current, nucleus.value)
  }

  /** The whole script: replay the permuted meta-deltas from the initial frame, find
      the component of the nucleus supervoxel, compare it with the current graph. */
  method RemixAndCompare(initial: Graph, deltas: map<int, NetworkDelta>, order: seq<int>,
                         nucSupervoxel: int, l2Of: int -> int, current: Graph) returns (r: bool)
    requires IsPermutation(order, deltas.Keys)
    ensures forall i :: 0 <= i < |order| ==> order[i] in deltas
    ensures r == RemixMatches(current, FindComponent(ReplayAll(initial, DeltasOf(order, deltas)), l2Of(nucSupervoxel)))
  {
    AllIn(order, deltas);
    var f := new Frame(initial);
    RemixReplay(f, deltas, order);
    var nucleus := FindSupervoxelComponent(nucSupervoxel, f.View(), l2Of);
    r := nucleus.Some? && Same(current, nucleus.value);
  }
}
