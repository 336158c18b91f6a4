/** Per-operation replay with a cache of neuron pieces: each operation's before
    state is assembled from cached or fetched pieces, its delta is applied, the
    number of resulting components is checked against the kind of edit, and each
    component is cached under the after root it belongs to. The per-operation deltas
    are those of the `Changes` module; the level-2 graph fetch and the root lookup
    at an operation's time are parameters. */
module EditGraphFrame {
  import opened Seqs
  import opened Wrappers
  import opened Graphs
  import opened Changes
  import opened Replay

  /** The change-log row of one operation. */
  datatype Operation = Operation(isMerge: bool, beforeRoots: seq<int>, afterRoots: seq<int>)

  /** A before piece: from the cache when present, otherwise fetched. */
  function PieceOf(pieces: map<int, Graph>, root: int, fetch: int -> Result<Graph>): Result<Graph> {
    if root in pieces then Ok(pieces[root]) else fetch(root)
  }

  /** The before pieces in root order; the first failed fetch ends the script. */
  function BeforePieces(pieces: map<int, Graph>, roots: seq<int>, fetch: int -> Result<Graph>): (r: Result<seq<Graph>>)
    ensures r.Ok? ==> (|r.value| == |roots| &&
      forall i :: 0 <= i < |roots| ==> PieceOf(pieces, roots[i], fetch) == Ok(r.value[i]))
    ensures r.Err? ==> exists i :: 0 <= i < |roots| && PieceOf(pieces, roots[i], fetch) == Err(r.error)
  {
    if |roots| == 0 then Ok([])
    else
      var init := roots[..|roots| - 1];
      assert forall i :: 0 <= i < |init| ==> init[i] == roots[i];
      match BeforePieces(pieces, init, fetch)
      case Err(e) => Err(e)
      case Ok(fs) =>
        match PieceOf(pieces, roots[|roots| - 1], fetch)
        case Err(e) => Err(e)
        case Ok(g) => Ok(fs + [g])
  }

  /** The before state: the pieces concatenated; no piece at all raises `ValueError`. */
  function BeforeState(pieces: map<int, Graph>, roots: seq<int>, fetch: int -> Result<Graph>): (r: Result<Graph>)
    ensures |roots| == 0 ==> r == Err(ValueError)
    ensures r.Ok? ==> forall i :: 0 <= i < |roots| ==> PieceOf(pieces, roots[i], fetch).Ok?
  {
    match BeforePieces(pieces, roots, fetch)
    case Err(e) => Err(e)
    case Ok(fs) => if |fs| == 0 then Err(ValueError) else Ok(Concatenated(fs))
  }

  /** The asserted number of components: one after a merge, one or two after a split. */
  predicate CountOk(isMerge: bool, n: nat) {
    if isMerge then n == 1 else n == 1 || n == 2
  }

  /** The root a component is named by: the root of its first node at the
      operation's time (`index[0]` of an empty index raises `IndexError`). */
  function RootOf(c: Graph, rootAt: int -> int): (r: Result<int>)
    ensures r.Err? <==> |c.nodes| == 0
    ensures r.Err? ==> r.error == IndexError
    ensures r.Ok? ==> r.value == rootAt(c.nodes[0])
  {
    if |c.nodes| == 0 then Err(IndexError) else Ok(rootAt(c.nodes[0]))
  }

  /** The component loop: each component is stored under its root, which must be one
      of the after roots. */
  function Store(pieces: map<int, Graph>, cs: seq<Graph>, after: seq<int>, rootAt: int -> int): (r: Result<map<int, Graph>>)
    ensures r.Ok? ==> pieces.Keys <= r.value.Keys
    ensures r.Ok? ==> forall k :: k in r.value && k !in pieces ==> k in after
    ensures r.Err? ==> r.error == IndexError || r.error == AssertionError
  {
    if |cs| == 0 then Ok(pieces)
    else match Store(pieces, cs[..|cs| - 1], after, rootAt)
      case Err(e) => Err(e)
      case Ok(p) =>
        match RootOf(cs[|cs| - 1], rootAt)
        case Err(e) => Err(e)
        case Ok(r) => if r in after then Ok(p[r := cs[|cs| - 1]]) else Err(AssertionError)
  }

  /** One operation: before state, delta applied, component count checked, pieces stored. */
  function Step(pieces: map<int, Graph>, op: Operation, delta: NetworkDelta,
                fetch: int -> Result<Graph>, rootAt: int -> int): (r: Result<map<int, Graph>>)
    ensures |op.beforeRoots| == 0 ==> r == Err(ValueError)
    ensures r.Ok? ==> pieces.Keys <= r.value.Keys
  {
    match BeforeState(pieces, op.beforeRoots, fetch)
    case Err(e) => Err(e)
    case Ok(b) =>
      var cs := Components(ApplyDelta(b, delta));
      if !CountOk(op.isMerge, |cs|) then Err(AssertionError)
      else Store(pieces, cs, op.afterRoots, rootAt)
  }

  /** After storing, a root holds a component exactly when some component is named by
      it; the roots it uses are after roots; every other entry is unchanged. */
  lemma {:induction false} StoreSpec(pieces: map<int, Graph>, cs: seq<Graph>, after: seq<int>, rootAt: int -> int)
    requires Store(pieces, cs, after, rootAt).Ok?
    ensures var p := Store(pieces, cs, after, rootAt).value;
      (forall c :: c in cs ==> |c.nodes| > 0 && rootAt(c.nodes[0]) in after) &&
      p.Keys == pieces.Keys + (set c | c in cs :: rootAt(c.nodes[0])) &&
      (forall r :: r in p && r !in (set c | c in cs :: rootAt(c.nodes[0])) ==> p[r] == pieces[r]) &&
      (forall r :: r in p && r in (set c | c in cs :: rootAt(c.nodes[0])) ==> p[r] in cs && rootAt(p[r].nodes[0]) == r)
  {
    if |cs| > 0 {
      var init := cs[..|cs| - 1];
      var c := cs[|cs| - 1];
      assert forall d :: d in cs <==> d in init || d == c by {
        assert cs == init + [c];
      }
      StoreSpec(pieces, init, after, rootAt);
    }
  }

  /** After a merge that passes the check, the resulting graph is connected: every
      two of its nodes lie in the same component. */
  lemma MergeConnects(g: Graph, u: int, v: int)
    requires |Components(g)| == 1
    requires u in NodeSet(g) && v in NodeSet(g)
    ensures ComponentOf(g, u) == ComponentOf(g, v)
  {
    ComponentsPartition(g);
    ComponentNodes(g, 0);
    assert u in NodeSet(Components(g)[0]);
    assert v in NodeSet(Components(g)[0]);
  }

  /** A successful step stores components of the after state, under after roots, and
      the after state of a merge is connected. */
  lemma StepSpec(pieces: map<int, Graph>, op: Operation, delta: NetworkDelta,
                 fetch: int -> Result<Graph>, rootAt: int -> int)
    requires Step(pieces, op, delta, fetch, rootAt).Ok?
    ensures BeforeState(pieces, op.beforeRoots, fetch).Ok?
    ensures var g := ApplyDelta(BeforeState(pieces, op.beforeRoots, fetch).value, delta);
      var p := Step(pieces, op, delta, fetch, rootAt).value;
      CountOk(op.isMerge, |Components(g)|) &&
      (op.isMerge ==> forall u, v :: u in NodeSet(g) && v in NodeSet(g) ==> ComponentOf(g, u) == ComponentOf(g, v)) &&
      (forall r :: r in p && r !in pieces ==> p[r] in Components(g) && r in op.afterRoots)
  {
    var g := ApplyDelta(BeforeState(pieces, op.beforeRoots, fetch).value, delta);
    var cs := Components(g);
    StoreSpec(pieces, cs, op.afterRoots, rootAt);
    if op.isMerge {
      forall u, v | u in NodeSet(g) && v in NodeSet(g) ensures ComponentOf(g, u) == ComponentOf(g, v) {
        MergeConnects(g, u, v);
      }
    }
  }

  /** The before state holds exactly the nodes of its pieces, each cached or fetched. */
  lemma BeforeStateNodes(pieces: map<int, Graph>, roots: seq<int>, fetch: int -> Result<Graph>)
    requires BeforeState(pieces, roots, fetch).Ok?
    ensures forall v :: v in NodeSet(BeforeState(pieces, roots, fetch).value) <==>
      exists i :: 0 <= i < |roots| && PieceOf(pieces, roots[i], fetch).Ok? &&
        v in NodeSet(PieceOf(pieces, roots[i], fetch).value)
  {
    var fs := BeforePieces(pieces, roots, fetch).value;
    UnionNodesSpec(fs);
    forall v
      ensures v in UnionNodes(fs) <==> (exists i :: 0 <= i < |roots| && PieceOf(pieces, roots[i], fetch).Ok? &&
                                                   v in NodeSet(PieceOf(pieces, roots[i], fetch).value))
    {
      if v in UnionNodes(fs) {
        var g :| g in fs && v in NodeSet(g);
        var i :| 0 <= i < |fs| && fs[i] == g;
        assert PieceOf(pieces, roots[i], fetch) == Ok(g);
      }
      if exists i :: 0 <= i < |roots| && PieceOf(pieces, roots[i], fetch).Ok? && v in NodeSet(PieceOf(pieces, roots[i], fetch).value) {
        var i :| 0 <= i < |roots| && PieceOf(pieces, roots[i], fetch).Ok? && v in NodeSet(PieceOf(pieces, roots[i], fetch).value);
        assert fs[i] in fs;
      }
    }
  }

  /** The cache of pieces, keyed by root id. */
  class PieceCache {
    var pieces: map<int, Graph>

    constructor ()
      ensures pieces == map[]
    {
      pieces := map[];
    }

    /** The before-piece loop: cached pieces are reused, the others fetched. */
    method GatherBefore(roots: seq<int>, fetch: int -> Result<Graph>) returns (r: Result<Graph>)
      ensures r == BeforeState(pieces, roots, fetch)
    {
      var p := pieces;
      var fs: seq<Graph> := [];
      var i := 0;
      while i < |roots|
        invariant 0 <= i <= |roots|
        invariant BeforePieces(p, roots[..i], fetch) == Ok(fs)
      {
        assert roots[..i + 1][..i] == roots[..i];
        var piece: Result<Graph>;
        if roots[i] in p {
          piece := Ok(p[roots[i]]);
        } else {
          piece := fetch(roots[i]);
        }
        if piece.Err? {
          BeforePiecesStop(p, roots, fetch, i);
          return Err(piece.error);
        }
        fs := fs + [piece.value];
        i := i + 1;
      }
      assert roots[..|roots|] == roots;
      if |fs| == 0 {
        return Err(ValueError);
      }
      return Ok(Concatenated(fs));
    }

    /** The body of the script's operation loop. On failure the cache may hold
        the components stored before the failing check. */
    method ApplyOperation(op: Operation, delta: NetworkDelta, fetch: int -> Result<Graph>, rootAt: int -> int)
      returns (err: Option<Error>)
      modifies this
      ensures var s := Step(old(pieces), op, delta, fetch, rootAt);
        (s.Ok? ==> err.None? && pieces == s.value) && (s.Err? ==> err == Some(s.error))
    {
      var b := GatherBefore(op.beforeRoots, fetch);
      if b.Err? {
        return Some(b.error);
      }
      var nf := new Frame(b.value);
      ApplyInPlace(nf, delta);
      var cs := Components(nf.View());
      if !CountOk(op.isMerge, |cs|) {
        return Some(AssertionError);
      }
      err := StoreComponents(cs, op.afterRoots, rootAt);
    }

    /** The component loop: each component is cached under its after root. */
    method StoreComponents(cs: seq<Graph>, after: seq<int>, rootAt: int -> int) returns (err: Option<Error>)
      modifies this
      ensures var s := Store(old(pieces), cs, after, rootAt);
        (s.Ok? ==> err.None? && pieces == s.value) && (s.Err? ==> err == Some(s.error))
    {
      ghost var p0 := pieces;
      var i := 0;
      while i < |cs|
        invariant 0 <= i <= |cs|
        invariant Store(p0, cs[..i], after, rootAt) == Ok(pieces)
      {
        assert cs[..i + 1][..i] == cs[..i];
        var c := cs[i];
        if |c.nodes| == 0 {
          StoreStop(p0, cs, after, rootAt, i);
          return Some(IndexError);
        }
        var root := rootAt(c.nodes[0]);
        if root !in after {
          StoreStop(p0, cs, after, rootAt, i);
          return Some(AssertionError);
        }
        pieces := pieces[root := c];
        i := i + 1;
      }
      assert cs[..|cs|] == cs;
      return None;
    }

    /** The script's final check: the cached piece of the current root against the
        current graph; a root never stored raises `KeyError`. */
    function MatchesCurrent(rootId: int, current: Graph): (r: Result<bool>)
      reads this
      ensures r.Ok? <==> rootId in pieces
      ensures r.Ok? ==> (r.value <==> NodeSet(pieces[rootId]) == NodeSet(current) && EdgeSet(pieces[rootId]) == EdgeSet(current))
    {
      if rootId in pieces then Ok(Same(current, pieces[rootId])) else Err(KeyError)
    }
  }

  lemma {:induction false} BeforePiecesStop(pieces: map<int, Graph>, roots: seq<int>, fetch: int -> Result<Graph>, i: nat)
    requires i < |roots| && BeforePieces(pieces, roots[..i], fetch).Ok?
    requires PieceOf(pieces, roots[i], fetch).Err?
    ensures BeforePieces(pieces, roots, fetch) == Err(PieceOf(pieces, roots[i], fetch).error)
  {
    assert roots[..i + 1][..i] == roots[..i];
    BeforePiecesPrefixErr(pieces, roots, fetch, i + 1);
  }

  lemma {:induction false} BeforePiecesPrefixErr(pieces: map<int, Graph>, roots: seq<int>, fetch: int -> Result<Graph>, n: nat)
    requires n <= |roots| && BeforePieces(pieces, roots[..n], fetch).Err?
    ensures BeforePieces(pieces, roots, fetch) == BeforePieces(pieces, roots[..n], fetch)
  {
    if n < |roots| {
      assert roots[..|roots| - 1][..n] == roots[..n];
      BeforePiecesPrefixErr(pieces, roots[..|roots| - 1], fetch, n);
    } else {
      assert roots[..n] == roots;
    }
  }

  lemma {:induction false} StoreStop(pieces: map<int, Graph>, cs: seq<Graph>, after: seq<int>, rootAt: int -> int, i: nat)
    requires i < |cs| && Store(pieces, cs[..i], after, rootAt).Ok?
    requires RootOf(cs[i], rootAt).Err? || RootOf(cs[i], rootAt).value !in after
    ensures Store(pieces, cs, after, rootAt) ==
      if RootOf(cs[i], rootAt).Err? then Err(IndexError) else Err(AssertionError)
  {
    assert cs[..i + 1][..i] == cs[..i];
    StorePrefixErr(pieces, cs, after, rootAt, i + 1);
  }

  lemma {:induction false} StorePrefixErr(pieces: map<int, Graph>, cs: seq<Graph>, after: seq<int>, rootAt: int -> int, n: nat)
    requires n <= |cs| && Store(pieces, cs[..n], after, rootAt).Err?
    ensures Store(pieces, cs, after, rootAt) == Store(pieces, cs[..n], after, rootAt)
  {
    if n < |cs| {
      assert cs[..|cs| - 1][..n] == cs[..n];
      StorePrefixErr(pieces, cs[..|cs| - 1], after, rootAt, n);
    } else {
      assert cs[..n] == cs;
    }
  }

  /** One operation applied to the cached pieces, as a value. */
  function StepWith(fetch: int -> Result<Graph>, rootAt: int -> int):
    (map<int, Graph>, Operation, NetworkDelta) -> Result<map<int, Graph>>
  {
    (p: map<int, Graph>, op: Operation, d: NetworkDelta) => Step(p, op, d, fetch, rootAt)
  }

  /** The operations folded in change-log order by `step`, stopping at the first failure. */
  function Steps(pieces: map<int, Graph>, ops: seq<Operation>, deltas: seq<NetworkDelta>,
                 step: (map<int, Graph>, Operation, NetworkDelta) -> Result<map<int, Graph>>): Result<map<int, Graph>>
    requires |ops| == |deltas|
  {
    if |ops| == 0 then Ok(pieces)
    else match Steps(pieces, ops[..|ops| - 1], deltas[..|deltas| - 1], step)
      case Err(e) => Err(e)
      case Ok(p) => step(p, ops[|ops| - 1], deltas[|deltas| - 1])
  }

  /** The script's operation loop: every operation, in change-log order, once. */
  method ReplayOperations(cache: PieceCache, ops: seq<Operation>, deltas: seq<NetworkDelta>,
                          fetch: int -> Result<Graph>, rootAt: int -> int) returns (err: Option<Error>)
    requires |ops| == |deltas|
    modifies cache
    ensures var s := Steps(old(cache.pieces), ops, deltas, StepWith(fetch, rootAt));
      (s.Ok? ==> err.None? && cache.pieces == s.value) && (s.Err? ==> err == Some(s.error))
  {
    ghost var p0 := cache.pieces;
    ghost var step := StepWith(fetch, rootAt);
    var i := 0;
    while i < |ops|
      invariant 0 <= i <= |ops|
      invariant Steps(p0, ops[..i], deltas[..i], step) == Ok(cache.pieces)
    {
      ghost var before := cache.pieces;
      var e := cache.ApplyOperation(ops[i], deltas[i], fetch, rootAt);
      assert step(before, ops[i], deltas[i]) == Step(before, ops[i], deltas[i], fetch, rootAt);
      if e.Some? {
        StepsStop(p0, ops, deltas, step, i, before);
        return e;
      }
      StepsNext(p0, ops, deltas, step, i, before, cache.pieces);
      i := i + 1;
    }
    assert ops[..|ops|] == ops && deltas[..|deltas|] == deltas;
    return None;
  }

  /** A successful step extends a successful run by one operation. */
  lemma StepsNext(pieces: map<int, Graph>, ops: seq<Operation>, deltas: seq<NetworkDelta>,
                  step: (map<int, Graph>, Operation, NetworkDelta) -> Result<map<int, Graph>>,
                  i: nat, m: map<int, Graph>, m2: map<int, Graph>)
    requires |ops| == |deltas| && i < |ops|
    requires Steps(pieces, ops[..i], deltas[..i], step) == Ok(m)
    requires step(m, ops[i], deltas[i]) == Ok(m2)
    ensures Steps(pieces, ops[..i + 1], deltas[..i + 1], step) == Ok(m2)
  {
    assert ops[..i + 1][..i] == ops[..i] && deltas[..i + 1][..i] == deltas[..i];
  }

  /** A failing step after successful ones is the failure of the whole run. */
  lemma {:induction false} StepsStop(pieces: map<int, Graph>, ops: seq<Operation>, deltas: seq<NetworkDelta>,
                                     step: (map<int, Graph>, Operation, NetworkDelta) -> Result<map<int, Graph>>,
                                     i: nat, m: map<int, Graph>)
    requires |ops| == |deltas| && i < |ops|
    requires Steps(pieces, ops[..i], deltas[..i], step) == Ok(m)
    requires step(m, ops[i], deltas[i]).Err?
    ensures Steps(pieces, ops, deltas, step) == step(m, ops[i], deltas[i])
  {
    assert ops[..i + 1][..i] == ops[..i] && deltas[..i + 1][..i] == deltas[..i];
    StepsPrefixErr(pieces, ops, deltas, step, i + 1);
  }

  /** A failure among the first `n` operations is the failure of the whole run. */
  lemma {:induction false} StepsPrefixErr(pieces: map<int, Graph>, ops: seq<Operation>, deltas: seq<NetworkDelta>,
                                          step: (map<int, Graph>, Operation, NetworkDelta) -> Result<map<int, Graph>>,
                                          n: nat)
    requires |ops| == |deltas| && n <= |ops|
    requires Steps(pieces, ops[..n], deltas[..n], step).Err?
    ensures Steps(pieces, ops, deltas, step) == Steps(pieces, ops[..n], deltas[..n], step)
  {
    if n < |ops| {
      assert ops[..|ops| - 1][..n] == ops[..n] && deltas[..|deltas| - 1][..n] == deltas[..n];
      StepsPrefixErr(pieces, ops[..|ops| - 1], deltas[..|deltas| - 1], step, n);
    } else {
      assert ops[..n] == ops && deltas[..n] == deltas;
    }
  }
}
