/** The power analysis on induced subgraphs: the queried roots are brought up to
    date, the synapses that appear both as an output and as an input of the studied
    neurons form the induced set, every state of every neuron's time-ordered sequence
    owns a left-closed time interval, and the network is read out either at a time or
    at a fraction of each neuron's proofreading effort. */
module SubgraphPower {
  import opened Seqs
  import opened Wrappers

  // ---------------------------------------------------------------------------
  // Generic helpers

  /** What passes a filter is exactly what is in the column and satisfies the mask. */
  lemma FilterMembers<T>(s: seq<T>, keep: T -> bool)
    ensures forall x :: x in Filter(s, keep) <==> x in s && keep(x)
  {
    forall x | x in s && keep(x) ensures x in Filter(s, keep) {
      var i :| 0 <= i < |s| && s[i] == x;
    }
  }

  // ---------------------------------------------------------------------------
  // Root remapping

  /** `root_map` is right for the queried roots: a current root maps to itself, an
      outdated root maps to the root of the single nucleus found among its latest
      roots, and an outdated root with no nucleus or several is left out. */
  ghost predicate RootMapOf(roots: seq<int>, isCurrent: int -> bool, nucleusRoots: int -> seq<int>, m: map<int, int>) {
    && (forall r :: r in m <==> r in roots && (isCurrent(r) || |nucleusRoots(r)| == 1))
    && (forall r :: r in m ==> m[r] == if isCurrent(r) then r else nucleusRoots(r)[0])
  }

  /** The remapping loop. `isCurrent` is the chunkedgraph's `is_latest_roots`;
      `nucleusRoots(r)` is the `pt_root_id` column of the nucleus rows whose root is
      one of `get_latest_roots(r)`. The map starts with the current roots, and each
      outdated root is added only when exactly one nucleus row comes back. */
  method BuildRootMap(roots: seq<int>, isCurrent: int -> bool, nucleusRoots: int -> seq<int>)
    returns (rootMap: map<int, int>)
    ensures RootMapOf(roots, isCurrent, nucleusRoots, rootMap)
  {
    rootMap := map r | r in roots && isCurrent(r) :: r;
    for i := 0 to |roots|
      invariant forall r :: r in rootMap <==>
        r in roots && (isCurrent(r) || (r in roots[..i] && |nucleusRoots(r)| == 1))
      invariant forall r :: r in rootMap ==> rootMap[r] == if isCurrent(r) then r else nucleusRoots(r)[0]
    {
      assert roots[..i + 1] == roots[..i] + [roots[i]];
      var root := roots[i];
      if !isCurrent(root) {
        var nucs := nucleusRoots(root);
        if |nucs| == 1 {
          rootMap := rootMap[root := nucs[0]];
        }
      }
    }
    assert roots[..|roots|] == roots;
  }

  /** `[root_map[root] for root in root_options]`: the lookup raises `KeyError` on the
      first root the map does not hold. */
  function UpdatedRoots(roots: seq<int>, rootMap: map<int, int>): (r: Result<seq<int>>)
    ensures r.Ok? <==> forall i :: 0 <= i < |roots| ==> roots[i] in rootMap
    ensures r.Err? ==> r.error == KeyError
    ensures r.Ok? ==> |r.value| == |roots|
    ensures r.Ok? ==> forall i :: 0 <= i < |roots| ==> r.value[i] == rootMap[roots[i]]
  {
    if |roots| == 0 then Ok([])
    else if roots[0] !in rootMap then Err(KeyError)
    else
      match UpdatedRoots(roots[1..], rootMap)
      case Err(e) => Err(e)
      case Ok(rest) =>
        assert forall i :: 1 <= i < |roots| ==> roots[i] == roots[1..][i - 1];
        Ok([rootMap[roots[0]]] + rest)
  }

  /** The lookup after the remapping loop succeeds exactly when every outdated root
      found a single nucleus; then every root is replaced by itself when current and by
      its nucleus's root otherwise. */
  lemma RemappedLookup(roots: seq<int>, isCurrent: int -> bool, nucleusRoots: int -> seq<int>, m: map<int, int>)
    requires RootMapOf(roots, isCurrent, nucleusRoots, m)
    ensures UpdatedRoots(roots, m).Ok? <==>
      forall i :: 0 <= i < |roots| && !isCurrent(roots[i]) ==> |nucleusRoots(roots[i])| == 1
    ensures UpdatedRoots(roots, m).Ok? ==> forall i :: 0 <= i < |roots| ==>
      UpdatedRoots(roots, m).value[i] == if isCurrent(roots[i]) then roots[i] else nucleusRoots(roots[i])[0]
  {
    forall i | 0 <= i < |roots|
      ensures roots[i] in m <==> isCurrent(roots[i]) || |nucleusRoots(roots[i])| == 1
      ensures roots[i] in m ==> m[roots[i]] == if isCurrent(roots[i]) then roots[i] else nucleusRoots(roots[i])[0]
    {
      var r := roots[i];
      assert r in roots;
      assert r in m <==> r in roots && (isCurrent(r) || |nucleusRoots(r)| == 1);
    }
  }

  /** A row of the node table: the queried root and its up-to-date root. */
  datatype NodeRow = NodeRow(workingRoot: int, currentRoot: int)

  /** `nodes.query("has_sequence")["working_root_id"]`: the queried roots whose current
      root is among the roots with a finished set of sequence files. */
  function WithSequence(nodes: seq<NodeRow>, finished: set<int>): (r: seq<int>)
    ensures |r| <= |nodes|
    ensures forall w :: w in r <==> exists n :: n in nodes && n.currentRoot in finished && n.workingRoot == w
  {
    if |nodes| == 0 then []
    else
      var init := nodes[..|nodes| - 1];
      var last := nodes[|nodes| - 1];
      assert nodes == init + [last];
      WithSequence(init, finished) + (if last.currentRoot in finished then [last.workingRoot] else [])
  }

  // ---------------------------------------------------------------------------
  // The induced synapse set

  /** `np.intersect1d(a, b)`: the values found in both, sorted, each once. */
  function Intersect1d(a: seq<int>, b: seq<int>): (r: seq<int>)
    ensures Increasing(r)
    ensures forall v :: v in r <==> v in a && v in b
  {
    var keep := (v: int) => v in b;
    FilterMembers(a, keep);
    SortedUnique(Filter(a, keep))
  }

  /** The intersection does not depend on the order of its arguments. */
  lemma IntersectCommutes(a: seq<int>, b: seq<int>)
    ensures Intersect1d(a, b) == Intersect1d(b, a)
  {
    assert Elems(Intersect1d(a, b)) == Elems(Intersect1d(b, a));
    IncreasingUnique(Intersect1d(a, b), Intersect1d(b, a));
  }

  /** The output and input synapse ids of one neuron over its whole history. */
  datatype SynapseIds = SynapseIds(pre: seq<int>, post: seq<int>)

  /** The loop extending `all_pre_synapses` and `all_post_synapses` with every neuron's
      ids, then their intersection: the induced synapses are the ids that occur at
      least once as an output and at least once as an input, sorted and unique. */
  method InducedSynapses(prePosts: seq<SynapseIds>) returns (induced: seq<int>)
    ensures Increasing(induced)
    ensures forall v :: v in induced <==>
      (exists i :: 0 <= i < |prePosts| && v in prePosts[i].pre) &&
      (exists j :: 0 <= j < |prePosts| && v in prePosts[j].post)
  {
    var allPre: seq<int> := [];
    var allPost: seq<int> := [];
    for k := 0 to |prePosts|
      invariant forall v :: v in allPre <==> exists i :: 0 <= i < k && v in prePosts[i].pre
      invariant forall v :: v in allPost <==> exists j :: 0 <= j < k && v in prePosts[j].post
    {
      allPre := allPre + prePosts[k].pre;
      allPost := allPost + prePosts[k].post;
    }
    induced := Intersect1d(allPre, allPost);
  }

  // ---------------------------------------------------------------------------
  // State intervals

  /** Times are seconds since the Unix epoch (UTC). A state without an edit time
      (the initial state) is dated 2019-07-01 00:00:00. */
  const DefaultTime: int := 1561939200

  /** The far-future end of the last interval, 2070-01-01 00:00:00. */
  const FarFuture: int := 3155760000

  /** One state of a time-ordered sequence: its order, the time of the edit that made
      it (none for the initial state) and its output and input synapse ids. */
  datatype State = State(order: int, time: Option<int>, pre: seq<int>, post: seq<int>)

  /** Outputs (`pre`) or inputs (`post`). */
  datatype Side = Pre | Post

  function SideIds(s: State, side: Side): seq<int> {
    if side == Pre then s.pre else s.post
  }

  /** The time of a state after `fillna`. */
  function TimeOf(s: State): int {
    if s.time.Some? then s.time.value else DefaultTime
  }

  /** The breaks: every state's time, then the far-future sentinel. */
  function Breaks(states: seq<State>): (b: seq<int>)
    ensures |b| == |states| + 1 && b[|states|] == FarFuture
    ensures forall i :: 0 <= i < |states| ==> b[i] == TimeOf(states[i])
  {
    seq(|states|, i requires 0 <= i < |states| => TimeOf(states[i])) + [FarFuture]
  }

  /** A left-closed interval `[lo, hi)`. */
  datatype Interval = Interval(lo: int, hi: int)

  predicate Contains(iv: Interval, t: int) {
    iv.lo <= t < iv.hi
  }

  /** `IntervalIndex.from_breaks(b, closed="left")`: one interval between each pair of
      consecutive breaks; a break smaller than the one before it makes an interval
      whose left side is past its right side, which raises `ValueError`. */
  function FromBreaks(b: seq<int>): (r: Result<seq<Interval>>)
    ensures r.Err? <==> exists i :: 0 <= i < |b| - 1 && b[i] > b[i + 1]
    ensures r.Err? ==> r.error == ValueError
    ensures r.Ok? ==> |r.value| == if |b| == 0 then 0 else |b| - 1
    ensures r.Ok? ==> forall i :: 0 <= i < |r.value| ==> r.value[i] == Interval(b[i], b[i + 1])
  {
    if exists i :: 0 <= i < |b| - 1 && b[i] > b[i + 1] then Err(ValueError)
    else if |b| == 0 then Ok([])
    else Ok(seq(|b| - 1, i requires 0 <= i < |b| - 1 => Interval(b[i], b[i + 1])))
  }

  /** Breaks that never step down are sorted. */
  lemma {:induction false} StepsSorted(b: seq<int>, i: nat, j: nat)
    requires forall k :: 0 <= k < |b| - 1 ==> b[k] <= b[k + 1]
    requires i <= j < |b|
    ensures b[i] <= b[j]
    decreases j - i
  {
    if i < j {
      StepsSorted(b, i + 1, j);
    }
  }

  /** The last break at or before `t`, for `t` between the first and the last break. */
  lemma {:induction false} FindInterval(b: seq<int>, t: int) returns (i: nat)
    requires |b| > 1 && b[0] <= t < b[|b| - 1]
    ensures i < |b| - 1 && b[i] <= t < b[i + 1]
    decreases |b|
  {
    if t < b[|b| - 2] {
      i := FindInterval(b[..|b| - 1], t);
    } else {
      i := |b| - 2;
    }
  }

  /** Some interval contains `t`. */
  predicate Covered(ivs: seq<Interval>, t: int) {
    exists i :: 0 <= i < |ivs| && Contains(ivs[i], t)
  }

  /** Left-closed intervals built from sorted breaks partition the span from the
      first break to the sentinel: a time in that span lies in exactly one interval,
      a time outside it in none. */
  lemma IntervalsPartition(b: seq<int>)
    requires FromBreaks(b).Ok?
    ensures var ivs := FromBreaks(b).value;
      forall t :: Covered(ivs, t) <==> |b| > 1 && b[0] <= t < b[|b| - 1]
    ensures var ivs := FromBreaks(b).value;
      forall i, j, t :: 0 <= i < |ivs| && 0 <= j < |ivs| && Contains(ivs[i], t) && Contains(ivs[j], t) ==> i == j
  {
    var ivs := FromBreaks(b).value;
    forall t ensures Covered(ivs, t) <==> |b| > 1 && b[0] <= t < b[|b| - 1] {
      if exists i :: 0 <= i < |ivs| && Contains(ivs[i], t) {
        var i :| 0 <= i < |ivs| && Contains(ivs[i], t);
        StepsSorted(b, 0, i);
        StepsSorted(b, i + 1, |b| - 1);
      }
      if |b| > 1 && b[0] <= t < b[|b| - 1] {
        var i := FindInterval(b, t);
        assert Contains(ivs[i], t);
      }
    }
    forall i, j, t | 0 <= i < |ivs| && 0 <= j < |ivs| && Contains(ivs[i], t) && Contains(ivs[j], t)
      ensures i == j
    {
      if i < j {
        StepsSorted(b, i + 1, j);
      } else if j < i {
        StepsSorted(b, j + 1, i);
      }
    }
  }

  /** One exploded row: the state it comes from, a synapse id (none when the state's
      list was empty), the neuron's root and the state's interval. */
  datatype SynRow = SynRow(state: nat, synapse: Option<int>, root: int, interval: Interval)

  /** The rows one state explodes into: one per id, or a single row without an id
      when the list is empty. */
  function StateRows(i: nat, ids: seq<int>, root: int, iv: Interval): (r: seq<SynRow>)
    ensures forall row :: row in r ==> row.state == i && row.root == root && row.interval == iv
    ensures forall row :: row in r ==> (row.synapse.Some? ==> row.synapse.value in ids) && (row.synapse.None? ==> ids == [])
    ensures forall s :: s in ids ==> SynRow(i, Some(s), root, iv) in r
    ensures ids == [] ==> SynRow(i, None, root, iv) in r
  {
    if |ids| == 0 then [SynRow(i, None, root, iv)]
    else
      var r := seq(|ids|, k requires 0 <= k < |ids| => SynRow(i, Some(ids[k]), root, iv));
      assert forall s :: s in ids ==> SynRow(i, Some(s), root, iv) in r by {
        forall s | s in ids ensures SynRow(i, Some(s), root, iv) in r {
          var k :| 0 <= k < |ids| && ids[k] == s;
          assert r[k] == SynRow(i, Some(s), root, iv);
        }
      }
      r
  }

  /** `explode` over the states' id lists, state by state. */
  function Explode(sets: seq<seq<int>>, ivs: seq<Interval>, root: int): (r: seq<SynRow>)
    requires |sets| == |ivs|
    ensures forall row :: row in r ==> row.state < |sets| && row.root == root && row.interval == ivs[row.state]
    ensures forall row :: row in r ==>
      (row.synapse.Some? ==> row.synapse.value in sets[row.state]) && (row.synapse.None? ==> sets[row.state] == [])
    ensures forall i, s :: 0 <= i < |sets| && s in sets[i] ==> SynRow(i, Some(s), root, ivs[i]) in r
    ensures forall i :: 0 <= i < |sets| && sets[i] == [] ==> SynRow(i, None, root, ivs[i]) in r
  {
    if |sets| == 0 then []
    else
      var n := |sets| - 1;
      var init := Explode(sets[..n], ivs[..n], root);
      var last := StateRows(n, sets[n], root, ivs[n]);
      assert forall i :: 0 <= i < n ==> sets[..n][i] == sets[i] && ivs[..n][i] == ivs[i];
      assert forall row :: row in init + last <==> row in init || row in last;
      init + last
  }

  /** `process_resolved_synapses`: each state's ids cut down to the induced set, its
      interval from the breaks, exploded to one row per id. */
  function ProcessResolved(states: seq<State>, root: int, side: Side, induced: seq<int>): (r: Result<seq<SynRow>>)
    ensures r.Err? <==> FromBreaks(Breaks(states)).Err?
    ensures r.Err? ==> r.error == ValueError
  {
    match FromBreaks(Breaks(states))
    case Err(e) => Err(e)
    case Ok(ivs) =>
      Ok(Explode(seq(|states|, i requires 0 <= i < |states| => Intersect1d(SideIds(states[i], side), induced)), ivs, root))
  }

  /** The rows of a neuron: every induced id a state holds appears in a row of that
      state with the state's interval, every row's id is an induced id of its state,
      and a state without any induced id leaves one row without an id. */
  lemma ProcessResolvedSpec(states: seq<State>, root: int, side: Side, induced: seq<int>)
    requires ProcessResolved(states, root, side, induced).Ok?
    ensures var rows := ProcessResolved(states, root, side, induced).value;
      forall row :: row in rows ==>
        && row.state < |states| && row.root == root
        && row.interval == Interval(TimeOf(states[row.state]), Breaks(states)[row.state + 1])
        && (row.synapse.Some? ==> row.synapse.value in SideIds(states[row.state], side) && row.synapse.value in induced)
    ensures var rows := ProcessResolved(states, root, side, induced).value;
      forall i, s :: 0 <= i < |states| && s in SideIds(states[i], side) && s in induced ==>
        SynRow(i, Some(s), root, Interval(TimeOf(states[i]), Breaks(states)[i + 1])) in rows
    ensures var rows := ProcessResolved(states, root, side, induced).value;
      forall row :: row in rows && row.synapse.None? ==>
        forall s :: s in SideIds(states[row.state], side) ==> s !in induced
  {
    var sets := seq(|states|, i requires 0 <= i < |states| => Intersect1d(SideIds(states[i], side), induced));
    var ivs := FromBreaks(Breaks(states)).value;
    assert ProcessResolved(states, root, side, induced).value == Explode(sets, ivs, root);
    forall i, s | 0 <= i < |states| && s in SideIds(states[i], side) && s in induced
      ensures SynRow(i, Some(s), root, ivs[i]) in Explode(sets, ivs, root)
    {
      assert s in sets[i];
    }
    forall row | row in Explode(sets, ivs, root) && row.synapse.None?
      ensures forall s :: s in SideIds(states[row.state], side) ==> s !in induced
    {
      assert sets[row.state] == [];
    }
  }

  /** At any time, the rows of one neuron that are live come from a single state:
      sorted breaks give disjoint intervals. */
  lemma AtTimeSingleState(states: seq<State>, root: int, side: Side, induced: seq<int>, t: int)
    requires ProcessResolved(states, root, side, induced).Ok?
    ensures var rows := ProcessResolved(states, root, side, induced).value;
      forall x, y :: x in rows && y in rows && Contains(x.interval, t) && Contains(y.interval, t) ==> x.state == y.state
  {
    var b := Breaks(states);
    var ivs := FromBreaks(b).value;
    IntervalsPartition(b);
    var sets := seq(|states|, i requires 0 <= i < |states| => Intersect1d(SideIds(states[i], side), induced));
    assert ProcessResolved(states, root, side, induced).value == Explode(sets, ivs, root);
  }

  // ---------------------------------------------------------------------------
  // Joins on the synapse id

  /** A row indexed by a synapse id, carrying a neuron's root. */
  datatype Keyed<K> = Keyed(key: K, root: int)

  /** One row of an inner join of outputs with inputs: the synapse id, the root it
      leaves (`source`) and the root it enters (`target`). */
  datatype JoinedEdge<K> = JoinedEdge(key: K, source: int, target: int)

  /** The matches of one output row among the input rows. */
  function Matches<K(==,!new)>(p: Keyed<K>, post: seq<Keyed<K>>): (r: seq<JoinedEdge<K>>)
    ensures forall e :: e in r <==> exists q :: q in post && q.key == p.key && e == JoinedEdge(p.key, p.root, q.root)
  {
    if |post| == 0 then []
    else
      var n := |post| - 1;
      assert post == post[..n] + [post[n]];
      Matches(p, post[..n]) + (if post[n].key == p.key then [JoinedEdge(p.key, p.root, post[n].root)] else [])
  }

  /** `pre.join(post, how="inner")` on the synapse-id index: one row for every output
      row and input row with equal ids. */
  function Join<K(==,!new)>(pre: seq<Keyed<K>>, post: seq<Keyed<K>>): (r: seq<JoinedEdge<K>>)
    ensures forall e :: e in r <==>
      exists p, q :: p in pre && q in post && p.key == q.key && e == JoinedEdge(p.key, p.root, q.root)
  {
    if |pre| == 0 then []
    else
      var n := |pre| - 1;
      assert pre == pre[..n] + [pre[n]];
      Join(pre[..n], post) + Matches(pre[n], post)
  }

  /** `query("source != target")`. */
  function NoLoops<K(!new)>(es: seq<JoinedEdge<K>>): (r: seq<JoinedEdge<K>>)
    ensures forall e :: e in r <==> e in es && e.source != e.target
  {
    var keep := (e: JoinedEdge<K>) => e.source != e.target;
    FilterMembers(es, keep);
    Filter(es, keep)
  }

  // ---------------------------------------------------------------------------
  // synapselist_at_time

  /** The rows whose interval contains `t`. */
  function AtTime(rows: seq<SynRow>, t: int): (r: seq<SynRow>)
    ensures forall row :: row in r <==> row in rows && Contains(row.interval, t)
  {
    var keep := (row: SynRow) => Contains(row.interval, t);
    FilterMembers(rows, keep);
    Filter(rows, keep)
  }

  /** Rows indexed by their synapse id as it stands, a missing id included. */
  function KeyedAll(rows: seq<SynRow>): (r: seq<Keyed<Option<int>>>)
    ensures forall x :: x in r <==> exists row :: row in rows && x == Keyed(row.synapse, row.root)
  {
    if |rows| == 0 then []
    else
      var n := |rows| - 1;
      assert rows == rows[..n] + [rows[n]];
      KeyedAll(rows[..n]) + [Keyed(rows[n].synapse, rows[n].root)]
  }

  /** Rows that carry a synapse id, indexed by it (`dropna` before the join). */
  function Present(rows: seq<SynRow>): (r: seq<Keyed<int>>)
    ensures forall x :: x in r <==> exists row :: row in rows && row.synapse == Some(x.key) && row.root == x.root
  {
    if |rows| == 0 then []
    else
      var n := |rows| - 1;
      assert rows == rows[..n] + [rows[n]];
      Present(rows[..n]) + (if rows[n].synapse.Some? then [Keyed(rows[n].synapse.value, rows[n].root)] else [])
  }

  /** `synapselist_at_time` as written: the exploded rows keep a missing id for a state
      without induced synapses, and the join pairs missing ids with each other. */
  function SynapselistAtTimeAsWritten(pre: seq<SynRow>, post: seq<SynRow>, t: int, removeLoops: bool): (r: seq<JoinedEdge<Option<int>>>)
    ensures removeLoops ==> forall e :: e in r ==> e.source != e.target
    ensures forall e :: e in r ==> exists x :: x in pre && Contains(x.interval, t) && x.root == e.source
  {
    var joined := Join(KeyedAll(AtTime(pre, t)), KeyedAll(AtTime(post, t)));
    if removeLoops then NoLoops(joined) else joined
  }

  /** Two neurons whose live states hold no induced synapse are joined by an edge that
      stands for no synapse: the missing ids of their exploded rows match. */
  lemma MissingIdsJoin(pre: seq<SynRow>, post: seq<SynRow>, t: int, x: SynRow, y: SynRow)
    requires x in pre && y in post && x.synapse.None? && y.synapse.None?
    requires Contains(x.interval, t) && Contains(y.interval, t) && x.root != y.root
    ensures JoinedEdge(None, x.root, y.root) in SynapselistAtTimeAsWritten(pre, post, t, true)
  {
    assert Keyed(None, x.root) in KeyedAll(AtTime(pre, t));
    assert Keyed(None, y.root) in KeyedAll(AtTime(post, t));
  }

  /** `synapselist_at_time` with rows without a synapse id left out before the join. */
  function SynapselistAtTime(pre: seq<SynRow>, post: seq<SynRow>, t: int, removeLoops: bool): (r: seq<JoinedEdge<int>>)
    ensures removeLoops ==> forall e :: e in r ==> e.source != e.target
    ensures forall e :: e in r ==> exists x :: x in pre && Contains(x.interval, t) && x.root == e.source && x.synapse == Some(e.key)
  {
    var joined := Join(Present(AtTime(pre, t)), Present(AtTime(post, t)));
    if removeLoops then NoLoops(joined) else joined
  }

  /** A live output row and a live input row at `t` share the synapse id of `e` and
      carry its two roots. */
  ghost predicate LivePair(pre: seq<SynRow>, post: seq<SynRow>, t: int, e: JoinedEdge<int>) {
    exists x, y :: x in pre && y in post && Contains(x.interval, t) && Contains(y.interval, t) &&
      x.synapse == Some(e.key) && y.synapse == Some(e.key) && e.source == x.root && e.target == y.root
  }

  /** An edge of the synapse list at `t` is a synapse id held by a live output row and
      a live input row, from the output's root to the input's root, and with loops
      removed the two roots differ; every such pair gives an edge. */
  lemma SynapselistAtTimeSpec(pre: seq<SynRow>, post: seq<SynRow>, t: int, removeLoops: bool)
    ensures forall e :: e in SynapselistAtTime(pre, post, t, removeLoops) <==>
      (removeLoops ==> e.source != e.target) && LivePair(pre, post, t, e)
  {
    var a := Present(AtTime(pre, t));
    var b := Present(AtTime(post, t));
    forall e | LivePair(pre, post, t, e) ensures e in Join(a, b) {
      var x, y :| x in pre && y in post && Contains(x.interval, t) && Contains(y.interval, t) &&
        x.synapse == Some(e.key) && y.synapse == Some(e.key) && e.source == x.root && e.target == y.root;
      assert Keyed(e.key, x.root) in a;
      assert Keyed(e.key, y.root) in b;
    }
  }

  // ---------------------------------------------------------------------------
  // Effort selection

  /** The fractions of a neuron's edits studied: none, half and all of them. */
  datatype Effort = NoEffort | HalfEffort | FullEffort

  /** The fraction as a numerator over a denominator. */
  function Num(p: Effort): nat {
    if p == NoEffort then 0 else 1
  }

  function Den(p: Effort): nat {
    if p == HalfEffort then 2 else 1
  }

  /** The efforts in the order the loop visits them. */
  const Efforts: seq<Effort> := [NoEffort, HalfEffort, FullEffort]

  /** `iloc[k]` on a table of `n` rows: a negative `k` counts from the end, and a
      position outside the table raises `IndexError`. */
  function ILoc(n: nat, k: int): (r: Result<nat>)
    ensures r.Ok? <==> -(n as int) <= k < n
    ensures r.Err? ==> r.error == IndexError
    ensures r.Ok? ==> r.value < n && r.value as int == (if k < 0 then n + k else k)
  {
    if 0 <= k < n then Ok(k)
    else if -(n as int) <= k < 0 then Ok(n + k)
    else Err(IndexError)
  }

  /** `np.floor(n_total * p)` with `n_total = n - 1`, for each of the three fractions;
      Dafny's division by two rounds down as `floor` does. */
  function SelectCount(n: nat, p: Effort): int {
    match p
    case NoEffort => 0
    case HalfEffort => (n - 1) / 2
    case FullEffort => n - 1
  }

  /** The state picked for effort `p` in a sequence of `n` states. */
  function SelectState(n: nat, p: Effort): (r: Result<nat>)
    ensures r.Ok? ==> r.value < n
    ensures r.Err? ==> r.error == IndexError
  {
    ILoc(n, SelectCount(n, p))
  }

  /** The pick succeeds exactly when the sequence has a state, and then it is the
      floor of the fraction of the edits: zero effort picks the initial state and full
      effort the final one. */
  lemma SelectStateSpec(n: nat, p: Effort)
    ensures SelectState(n, p).Ok? <==> n > 0
    ensures SelectState(n, p).Err? ==> SelectState(n, p).error == IndexError
    ensures SelectCount(n, p) * Den(p) <= (n - 1) * Num(p) < (SelectCount(n, p) + 1) * Den(p)
    ensures n > 0 ==> SelectState(n, p).value == SelectCount(n, p)
    ensures n > 0 && p == NoEffort ==> SelectState(n, p).value == 0
    ensures n > 0 && p == FullEffort ==> SelectState(n, p).value == n - 1
  {
    match p
    case NoEffort =>
    case HalfEffort =>
      assert (n - 1) == 2 * ((n - 1) / 2) + (n - 1) % 2;
    case FullEffort =>
  }

  /** More effort never picks an earlier state. */
  lemma SelectStateMonotone(n: nat)
    ensures SelectCount(n, NoEffort) <= SelectCount(n, HalfEffort) || n == 0
    ensures SelectCount(n, HalfEffort) <= SelectCount(n, FullEffort)
  {
    assert (n - 1) == 2 * ((n - 1) / 2) + (n - 1) % 2;
  }

  // ---------------------------------------------------------------------------
  // The selection rows

  /** One row of `synapse_selection_df`. */
  datatype SelectionRow = SelectionRow(
    root: int, effort: Effort, nTotal: int, nSelect: int, order: int, pre: seq<int>, post: seq<int>)

  /** The row of one neuron at effort `p`: the picked state's order and its output and
      input ids within the induced set. */
  function RowAt(root: int, states: seq<State>, p: Effort, induced: seq<int>): (r: Result<SelectionRow>)
    ensures r.Err? ==> r.error == IndexError
    ensures r.Ok? ==> r.value.root == root && r.value.effort == p && r.value.nTotal == |states| - 1
  {
    match SelectState(|states|, p)
    case Err(e) => Err(e)
    case Ok(k) =>
      Ok(SelectionRow(root, p, |states| - 1, SelectCount(|states|, p), states[k].order,
        Intersect1d(states[k].pre, induced), Intersect1d(states[k].post, induced)))
  }

  /** A neuron's row exists exactly when its sequence has a state. It records the
      neuron, the effort, the edit count and the pick; its lists are the picked state's
      ids that are induced, sorted; zero effort records the initial state and full
      effort the final one. */
  lemma RowAtSpec(root: int, states: seq<State>, p: Effort, induced: seq<int>)
    ensures RowAt(root, states, p, induced).Ok? <==> |states| > 0
    ensures RowAt(root, states, p, induced).Err? ==> RowAt(root, states, p, induced).error == IndexError
    ensures RowAt(root, states, p, induced).Ok? ==>
      var row := RowAt(root, states, p, induced).value;
      && row.root == root && row.effort == p && row.nTotal == |states| - 1
      && 0 <= row.nSelect < |states|
      && row.order == states[row.nSelect].order
      && Increasing(row.pre) && Increasing(row.post)
      && (forall s :: s in row.pre <==> s in states[row.nSelect].pre && s in induced)
      && (forall s :: s in row.post <==> s in states[row.nSelect].post && s in induced)
      && (p == NoEffort ==> row.order == states[0].order)
      && (p == FullEffort ==> row.order == states[|states| - 1].order)
  {
    SelectStateSpec(|states|, p);
  }

  /** The inner loop over the three efforts for one neuron: a neuron without states
      raises `IndexError` at the first effort; otherwise its three rows are its rows at
      no, half and full effort. */
  method RootSelections(root: int, states: seq<State>, induced: seq<int>) returns (r: Result<seq<SelectionRow>>)
    ensures r.Ok? <==> |states| > 0
    ensures r.Err? ==> r.error == IndexError
    ensures r.Ok? ==> |r.value| == |Efforts|
    ensures r.Ok? ==> forall j :: 0 <= j < |r.value| ==> Ok(r.value[j]) == RowAt(root, states, Efforts[j], induced)
  {
    var rows: seq<SelectionRow> := [];
    for j := 0 to |Efforts|
      invariant |rows| == j
      invariant forall k :: 0 <= k < j ==> Ok(rows[k]) == RowAt(root, states, Efforts[k], induced)
      invariant j > 0 ==> |states| > 0
    {
      RowAtSpec(root, states, Efforts[j], induced);
      match RowAt(root, states, Efforts[j], induced)
      case Err(e) =>
        return Err(e);
      case Ok(row) =>
        rows := rows + [row];
    }
    if |states| == 0 {
      RowAtSpec(root, states, NoEffort, induced);
    }
    return Ok(rows);
  }

  /** `rows` are the selection rows of `roots`: three per neuron, in order, each the
      neuron's row at the matching effort. */
  ghost predicate SelectedFrom(rows: seq<SelectionRow>, roots: seq<int>, sequenceOf: int -> seq<State>, induced: seq<int>) {
    && |rows| == 3 * |roots|
    && forall k :: 0 <= k < |rows| ==>
      Ok(rows[k]) == RowAt(roots[k / 3], sequenceOf(roots[k / 3]), Efforts[k % 3], induced)
  }

  /** Three more rows for one more neuron keep the rows selected from the roots. */
  lemma SelectedStep(rows: seq<SelectionRow>, more: seq<SelectionRow>, roots: seq<int>, i: nat,
                     sequenceOf: int -> seq<State>, induced: seq<int>)
    requires i < |roots| && SelectedFrom(rows, roots[..i], sequenceOf, induced)
    requires |more| == 3
    requires forall j :: 0 <= j < 3 ==> Ok(more[j]) == RowAt(roots[i], sequenceOf(roots[i]), Efforts[j], induced)
    ensures SelectedFrom(rows + more, roots[..i + 1], sequenceOf, induced)
  {
    var all := rows + more;
    forall k | 0 <= k < |all|
      ensures Ok(all[k]) == RowAt(roots[..i + 1][k / 3], sequenceOf(roots[..i + 1][k / 3]), Efforts[k % 3], induced)
    {
      if k < 3 * i {
        assert all[k] == rows[k];
        assert roots[..i + 1][k / 3] == roots[..i][k / 3];
      } else {
        assert k / 3 == i && k % 3 == k - 3 * i;
        assert all[k] == more[k - 3 * i];
      }
    }
  }

  /** The loop over the distinct working roots (`unique()` keeps the order of first
      occurrence) and, inside, over the three efforts. `sequenceOf` loads a neuron and
      builds its time-ordered sequence. The loop stops with `IndexError` exactly when
      some neuron has no state; otherwise it holds three rows per neuron. */
  method CollectSelections(roots: seq<int>, sequenceOf: int -> seq<State>, induced: seq<int>)
    returns (r: Result<seq<SelectionRow>>)
    ensures r.Err? <==> exists root :: root in roots && |sequenceOf(root)| == 0
    ensures r.Err? ==> r.error == IndexError
    ensures r.Ok? ==> SelectedFrom(r.value, Dedup(roots), sequenceOf, induced)
  {
    var unique := Dedup(roots);
    var rows: seq<SelectionRow> := [];
    for i := 0 to |unique|
      invariant SelectedFrom(rows, unique[..i], sequenceOf, induced)
      invariant forall k :: 0 <= k < i ==> |sequenceOf(unique[k])| > 0
    {
      var more := RootSelections(unique[i], sequenceOf(unique[i]), induced);
      match more
      case Err(e) =>
        assert unique[i] in Elems(unique);
        return Err(e);
      case Ok(m) =>
        SelectedStep(rows, m, unique, i, sequenceOf, induced);
        rows := rows + m;
    }
    assert unique[..|unique|] == unique;
    forall root | root in roots ensures |sequenceOf(root)| > 0 {
      assert root in Elems(unique);
    }
    return Ok(rows);
  }

  /** Every id recorded in a selection row is an induced synapse. */
  lemma SelectionsInduced(rows: seq<SelectionRow>, roots: seq<int>, sequenceOf: int -> seq<State>, induced: seq<int>)
    requires SelectedFrom(rows, roots, sequenceOf, induced)
    ensures forall row :: row in rows ==>
      (forall s :: s in row.pre ==> s in induced) && (forall s :: s in row.post ==> s in induced)
  {
    forall row | row in rows
      ensures (forall s :: s in row.pre ==> s in induced) && (forall s :: s in row.post ==> s in induced)
    {
      var k :| 0 <= k < |rows| && rows[k] == row;
      var root := roots[k / 3];
      RowAtSpec(root, sequenceOf(root), Efforts[k % 3], induced);
    }
  }

  // ---------------------------------------------------------------------------
  // Subgraph edges

  function Listed(row: SelectionRow, side: Side): seq<int> {
    if side == Pre then row.pre else row.post
  }

  /** `explode(...).dropna()` indexed by the id: one row per listed id with the row's
      root; an empty list leaves nothing once the missing id is dropped. */
  function Long(rows: seq<SelectionRow>, side: Side): (r: seq<Keyed<int>>)
    ensures forall x :: x in r <==> exists row :: row in rows && x.key in Listed(row, side) && x.root == row.root
  {
    if |rows| == 0 then []
    else
      var n := |rows| - 1;
      var ids := Listed(rows[n], side);
      var last := seq(|ids|, k requires 0 <= k < |ids| => Keyed(ids[k], rows[n].root));
      assert forall x :: x in last <==> x.key in ids && x.root == rows[n].root by {
        forall x: Keyed<int> | x.key in ids && x.root == rows[n].root ensures x in last {
          var k :| 0 <= k < |ids| && ids[k] == x.key;
          assert last[k] == x;
        }
      }
      assert rows == rows[..n] + [rows[n]];
      Long(rows[..n], side) + last
  }

  /** The edges of the subgraph on `subRoots` at effort `p`: the selection rows at that
      effort whose root is in the subgraph, exploded, joined on the synapse id, with
      loops dropped. */
  function SubgraphEdges(rows: seq<SelectionRow>, p: Effort, subRoots: set<int>): (r: seq<JoinedEdge<int>>)
    ensures forall e :: e in r ==> e.source != e.target && e.source in subRoots && e.target in subRoots
  {
    var keep := (row: SelectionRow) => row.effort == p && row.root in subRoots;
    var sel := Filter(rows, keep);
    NoLoops(Join(Long(sel, Pre), Long(sel, Post)))
  }

  /** Two selection rows at effort `p` with roots in the subgraph list the id of `e`,
      one as an output and one as an input, and carry its two roots. */
  ghost predicate SelectedPair(rows: seq<SelectionRow>, p: Effort, subRoots: set<int>, e: JoinedEdge<int>) {
    exists x, y :: x in rows && y in rows && x.effort == p && y.effort == p &&
      x.root in subRoots && y.root in subRoots &&
      e.key in x.pre && e.key in y.post && e.source == x.root && e.target == y.root
  }

  /** A subgraph edge is an id listed as an output of one selected neuron and as an
      input of another, both at the chosen effort and in the subgraph; it never joins
      a neuron to itself, and every such pair of distinct neurons gives one. */
  lemma SubgraphEdgesSpec(rows: seq<SelectionRow>, p: Effort, subRoots: set<int>)
    ensures forall e :: e in SubgraphEdges(rows, p, subRoots) <==>
      e.source != e.target && SelectedPair(rows, p, subRoots, e)
  {
    var keep := (row: SelectionRow) => row.effort == p && row.root in subRoots;
    FilterMembers(rows, keep);
    var sel := Filter(rows, keep);
    var a := Long(sel, Pre);
    var b := Long(sel, Post);
    forall e | SelectedPair(rows, p, subRoots, e) ensures e in Join(a, b) {
      var x, y :| x in rows && y in rows && x.effort == p && y.effort == p &&
        x.root in subRoots && y.root in subRoots &&
        e.key in x.pre && e.key in y.post && e.source == x.root && e.target == y.root;
      assert x in sel && y in sel;
      assert e.key in Listed(x, Pre) && e.key in Listed(y, Post);
      assert Keyed(e.key, x.root) in a;
      assert Keyed(e.key, y.root) in b;
    }
  }

  /** Built from the selection loop, every subgraph edge stands for an induced
      synapse. */
  lemma SubgraphEdgesInduced(rows: seq<SelectionRow>, roots: seq<int>, sequenceOf: int -> seq<State>, induced: seq<int>,
                              p: Effort, subRoots: set<int>)
    requires SelectedFrom(rows, roots, sequenceOf, induced)
    ensures forall e :: e in SubgraphEdges(rows, p, subRoots) ==> e.key in induced
  {
    SelectionsInduced(rows, roots, sequenceOf, induced);
    SubgraphEdgesSpec(rows, p, subRoots);
  }
}
