/** Mapping output synapses onto merge meta-operations: final-graph nodes are tagged
    with the meta-operation that added them, candidate meta-edits are selected
    (filtered, with merges, not the soma/nucleus merge), random fractions of the
    candidates are rolled back, and for each rolled-back sample the output synapses
    on the nucleus component are counted per postsynaptic target.
    `reverse_edit` is not part of this model: it is a parameter. */
module SynapseEditMapping {
  import opened Seqs
  import opened Wrappers
  import opened Graphs
  import opened Changes

  /** A meta-operation with its merged delta and the metadata the script reads. */
  datatype MetaEdit = MetaEdit(id: int, operationIds: seq<int>, anyMerges: bool, delta: NetworkDelta)

  // ---------------------------------------------------------------------------
  // Tagging nodes with the meta-operation that added them

  /** The node ids a meta-operation tags: its added nodes that are in the final
      node index (`index.intersection`); removed nodes play no part. */
  function TagTargets(d: NetworkDelta, index: seq<int>): (r: seq<int>)
    ensures NoDup(r)
    ensures forall v :: v in r <==> v in d.addedNodes && v in index
  {
    var f := Filter(d.addedNodes, v => v in index);
    forall v ensures v in f <==> v in d.addedNodes && v in index {
      if v in d.addedNodes && v in index {
        var j :| 0 <= j < |d.addedNodes| && d.addedNodes[j] == v;
      }
      if v in f {
        var j :| 0 <= j < |f| && f[j] == v;
      }
    }
    DedupMember(f);
    Dedup(f)
  }

  lemma DedupMember<T>(s: seq<T>)
    ensures forall x :: x in Dedup(s) <==> x in s
  {
    forall x ensures x in Dedup(s) <==> x in s {
      assert x in Dedup(s) <==> x in Elems(Dedup(s));
    }
  }

  /** The target set of each meta-operation, in order. */
  function TargetSets(metas: seq<MetaEdit>, index: seq<int>): (r: seq<seq<int>>)
    ensures |r| == |metas| && forall i :: 0 <= i < |metas| ==> r[i] == TagTargets(metas[i].delta, index)
  {
    seq(|metas|, i requires 0 <= i < |metas| => TagTargets(metas[i].delta, index))
  }

  function Ids(metas: seq<MetaEdit>): (r: seq<int>)
    ensures |r| == |metas| && forall i :: 0 <= i < |metas| ==> r[i] == metas[i].id
  {
    seq(|metas|, i requires 0 <= i < |metas| => metas[i].id)
  }

  /** Tagging one meta-operation: `AssertionError` if any target already carries a
      meta-operation id, otherwise every target gets this one. */
  function TagOne(tags: map<int, int>, id: int, ts: seq<int>): Result<map<int, int>> {
    if exists v :: v in ts && v in tags then Err(AssertionError)
    else Ok(Tagged(tags, id, ts))
  }

  /** `nodes.loc[targets, "metaoperation_id"] = id`. */
  function Tagged(tags: map<int, int>, id: int, ts: seq<int>): (r: map<int, int>)
    ensures r.Keys == tags.Keys + Elems(ts)
    ensures forall v :: v in r ==> r[v] == if v in ts then id else tags[v]
  {
    tags + map v | v in ts :: id
  }

  /** The tagging loop over the meta-operations in order. */
  function TagFold(tags: map<int, int>, ids: seq<int>, sets: seq<seq<int>>): (r: Result<map<int, int>>)
    requires |ids| == |sets|
    ensures r.Err? ==> r.error == AssertionError
    ensures r.Ok? ==> tags.Keys <= r.value.Keys && forall v :: v in tags ==> r.value[v] == tags[v]
  {
    if |ids| == 0 then Ok(tags)
    else match TagFold(tags, ids[..|ids| - 1], sets[..|sets| - 1])
      case Err(e) => Err(e)
      case Ok(t) => TagOne(t, ids[|ids| - 1], sets[|sets| - 1])
  }

  function Tagging(tags: map<int, int>, metas: seq<MetaEdit>, index: seq<int>): (r: Result<map<int, int>>)
    ensures r.Err? ==> r.error == AssertionError
    ensures r.Ok? ==> tags.Keys <= r.value.Keys && forall v :: v in tags ==> r.value[v] == tags[v]
  {
    TagFold(tags, Ids(metas), TargetSets(metas, index))
  }

  /** No node is a target of two meta-operations. */
  predicate Disjoint(sets: seq<seq<int>>) {
    forall i, j, v :: 0 <= i < j < |sets| && v in sets[i] ==> v !in sets[j]
  }

  /** Every node some meta-operation targets. */
  function Union(sets: seq<seq<int>>): (r: set<int>)
    ensures forall v :: v in r <==> exists i :: 0 <= i < |sets| && v in sets[i]
  {
    if |sets| == 0 then {}
    else
      var init := sets[..|sets| - 1];
      assert forall i :: 0 <= i < |init| ==> init[i] == sets[i];
      Union(init) + Elems(sets[|sets| - 1])
  }

  /** A successful tagging from an empty column tags exactly the targets, each with
      the meta-operation that added it. */
  lemma {:induction false} TagFoldValues(ids: seq<int>, sets: seq<seq<int>>)
    requires |ids| == |sets| && TagFold(map[], ids, sets).Ok?
    ensures TagFold(map[], ids, sets).value.Keys == Union(sets)
    ensures forall i, v :: 0 <= i < |sets| && v in sets[i] ==>
      (v in TagFold(map[], ids, sets).value && TagFold(map[], ids, sets).value[v] == ids[i])
  {
    if |ids| > 0 {
      var n := |ids| - 1;
      TagFoldValues(ids[..n], sets[..n]);
      assert forall i :: 0 <= i < n ==> sets[..n][i] == sets[i] && ids[..n][i] == ids[i];
    }
  }

  /** Tagging from an empty column succeeds exactly when no node is a target of two
      meta-operations. */
  lemma {:induction false} TagFoldOk(ids: seq<int>, sets: seq<seq<int>>)
    requires |ids| == |sets|
    ensures TagFold(map[], ids, sets).Ok? <==> Disjoint(sets)
  {
    if |ids| > 0 {
      var n := |ids| - 1;
      var init := sets[..n];
      TagFoldOk(ids[..n], init);
      assert forall i :: 0 <= i < n ==> init[i] == sets[i];
      if TagFold(map[], ids[..n], init).Ok? {
        var t := TagFold(map[], ids[..n], init).value;
        TagFoldValues(ids[..n], init);
        assert (exists v :: v in sets[n] && v in t) <==> !(forall v :: v in sets[n] ==> v !in Union(init));
      }
      assert Disjoint(sets) <==> Disjoint(init) && forall v :: v in sets[n] ==> v !in Union(init) by {
        if Disjoint(init) && forall v :: v in sets[n] ==> v !in Union(init) {
          forall i, j, v | 0 <= i < j < |sets| && v in sets[i] ensures v !in sets[j] {
            if j == n {
              assert v in Union(init);
            } else {
              assert v in init[i];
            }
          }
        }
      }
    }
  }

  /** Tagging from an empty column succeeds exactly when no node of the final index
      is added by two meta-operations. */
  lemma TaggingOk(metas: seq<MetaEdit>, index: seq<int>)
    ensures Tagging(map[], metas, index).Ok? <==>
      forall i, j, v :: 0 <= i < j < |metas| && v in index && v in metas[i].delta.addedNodes ==>
        v !in metas[j].delta.addedNodes
  {
    var sets := TargetSets(metas, index);
    TagFoldOk(Ids(metas), sets);
    forall i, j, v | 0 <= i < j < |metas| && v in index
      ensures (v in sets[i] ==> v !in sets[j]) <==>
        (v in metas[i].delta.addedNodes ==> v !in metas[j].delta.addedNodes)
    {
      assert sets[i] == TagTargets(metas[i].delta, index);
      assert sets[j] == TagTargets(metas[j].delta, index);
    }
    assert Disjoint(sets) ==> forall i, j, v :: 0 <= i < j < |metas| && v in index && v in metas[i].delta.addedNodes ==>
        v !in metas[j].delta.addedNodes;
  }

  /** After a successful tagging, the tagged nodes are exactly the final-index nodes
      some meta-operation added, each tagged with the meta-operation that added it. */
  lemma TaggingValues(metas: seq<MetaEdit>, index: seq<int>)
    requires Tagging(map[], metas, index).Ok?
    ensures var t := Tagging(map[], metas, index).value;
      (forall v :: v in t <==> v in index && exists i :: 0 <= i < |metas| && v in metas[i].delta.addedNodes) &&
      (forall i, v :: 0 <= i < |metas| && v in index && v in metas[i].delta.addedNodes ==> v in t && t[v] == metas[i].id)
  {
    var sets := TargetSets(metas, index);
    TagFoldValues(Ids(metas), sets);
    var t := Tagging(map[], metas, index).value;
    forall v ensures v in t <==> v in index && exists i :: 0 <= i < |metas| && v in metas[i].delta.addedNodes {
      if v in index && exists i :: 0 <= i < |metas| && v in metas[i].delta.addedNodes {
        var i :| 0 <= i < |metas| && v in metas[i].delta.addedNodes;
        assert v in sets[i];
      }
    }
  }

  /** The final node table's `metaoperation_id` column; a node without a key is NA. */
  class NodeTable {
    var index: seq<int>
    var metaoperation: map<int, int>

    constructor (ids: seq<int>)
      ensures index == ids && metaoperation == map[]
    {
      index := ids;
      metaoperation := map[];
    }

    /** The tagging loop (on failure the column may hold the tags written so far). */
    method TagMetaoperations(metas: seq<MetaEdit>) returns (err: Option<Error>)
      modifies this
      ensures index == old(index)
      ensures var s := Tagging(old(metaoperation), metas, index);
        (s.Ok? ==> err.None? && metaoperation == s.value) && (s.Err? ==> err == Some(s.error))
    {
      ghost var t0 := metaoperation;
      var ids := Ids(metas);
      var sets := TargetSets(metas, index);
      var i := 0;
      while i < |metas|
        invariant 0 <= i <= |metas| && index == old(index)
        invariant TagFold(t0, ids[..i], sets[..i]) == Ok(metaoperation)
      {
        ghost var before := metaoperation;
        var clash := TagStep(ids[i], sets[i]);
        if clash {
          TagFoldStop(t0, ids, sets, i);
          return Some(AssertionError);
        }
        TagFoldNext(t0, ids, sets, i, before, metaoperation);
        i := i + 1;
      }
      assert ids[..|metas|] == ids && sets[..|metas|] == sets;
      return None;
    }

    /** One meta-operation: refuse targets already tagged, else tag them all. */
    method TagStep(id: int, ts: seq<int>) returns (clash: bool)
      modifies this
      ensures index == old(index)
      ensures clash <==> TagOne(old(metaoperation), id, ts).Err?
      ensures !clash ==> metaoperation == TagOne(old(metaoperation), id, ts).value
    {
      clash := FindTagged(ts, metaoperation);
      if !clash {
        metaoperation := Tagged(metaoperation, id, ts);
      }
    }
  }

  /** `~isna().all()` over the targets: whether some target is already tagged. */
  method FindTagged(ts: seq<int>, tags: map<int, int>) returns (r: bool)
    ensures r <==> exists v :: v in ts && v in tags
  {
    r := false;
    var i := 0;
    while i < |ts|
      invariant 0 <= i <= |ts|
      invariant r <==> exists j :: 0 <= j < i && ts[j] in tags
    {
      if ts[i] in tags {
        r := true;
      }
      i := i + 1;
    }
    if exists v :: v in ts && v in tags {
      var v :| v in ts && v in tags;
      var j :| 0 <= j < |ts| && ts[j] == v;
    }
  }

  /** A meta-operation tagged without a clash extends a successful run by one. */
  lemma TagFoldNext(tags: map<int, int>, ids: seq<int>, sets: seq<seq<int>>, i: nat, m: map<int, int>, m2: map<int, int>)
    requires |ids| == |sets| && i < |ids|
    requires TagFold(tags, ids[..i], sets[..i]) == Ok(m)
    requires TagOne(m, ids[i], sets[i]) == Ok(m2)
    ensures TagFold(tags, ids[..i + 1], sets[..i + 1]) == Ok(m2)
  {
    assert ids[..i + 1][..i] == ids[..i] && sets[..i + 1][..i] == sets[..i];
  }

  lemma {:induction false} TagFoldStop(tags: map<int, int>, ids: seq<int>, sets: seq<seq<int>>, i: nat)
    requires |ids| == |sets| && i < |ids| && TagFold(tags, ids[..i], sets[..i]).Ok?
    requires TagOne(TagFold(tags, ids[..i], sets[..i]).value, ids[i], sets[i]).Err?
    ensures TagFold(tags, ids, sets) == Err(AssertionError)
  {
    assert ids[..i + 1][..i] == ids[..i] && sets[..i + 1][..i] == sets[..i];
    TagFoldPrefixErr(tags, ids, sets, i + 1);
  }

  lemma {:induction false} TagFoldPrefixErr(tags: map<int, int>, ids: seq<int>, sets: seq<seq<int>>, n: nat)
    requires |ids| == |sets| && n <= |ids| && TagFold(tags, ids[..n], sets[..n]).Err?
    ensures TagFold(tags, ids, sets) == TagFold(tags, ids[..n], sets[..n])
  {
    if n < |ids| {
      var m := |ids| - 1;
      assert ids[..m][..n] == ids[..n] && sets[..m][..n] == sets[..n];
      TagFoldPrefixErr(tags, ids[..m], sets[..m], n);
    } else {
      assert ids[..n] == ids && sets[..n] == sets;
    }
  }

  // ---------------------------------------------------------------------------
  // Candidate meta-edits

  /** The per-operation statistics the script reads; the distance is in micrometres. */
  datatype EditStat = EditStat(isFiltered: bool, isMerge: bool, distanceUm: real, nModifiedNodes: int)

  const NucDistanceThreshold: real := 10.0
  const ModifiedNodesThreshold: int := 10

  /** A soma/nucleus merge: a merge closer than 10 um with at least 10 modified nodes. */
  predicate IsSomaMerge(s: EditStat) {
    s.isMerge && s.distanceUm < NucDistanceThreshold && s.nModifiedNodes >= ModifiedNodesThreshold
  }

  /** The inner loop over a meta-operation's operations, which stops at the first
      soma/nucleus merge: whether a filtered operation was met, and whether it stopped. */
  function Scan(ops: seq<int>, stat: int -> EditStat): (bool, bool) {
    if |ops| == 0 then (false, false)
    else
      var s := stat(ops[0]);
      if IsSomaMerge(s) then (s.isFiltered, true)
      else
        var r := Scan(ops[1..], stat);
        (s.isFiltered || r.0, r.1)
  }

  method ScanOperations(ops: seq<int>, stat: int -> EditStat) returns (hasFiltered: bool, hasSoma: bool)
    ensures (hasFiltered, hasSoma) == Scan(ops, stat)
  {
    hasFiltered, hasSoma := false, false;
    var i := 0;
    while i < |ops|
      invariant 0 <= i <= |ops| && !hasSoma
      invariant Scan(ops, stat) == (hasFiltered || Scan(ops[i..], stat).0, Scan(ops[i..], stat).1)
    {
      assert ops[i..][1..] == ops[i + 1..];
      var s := stat(ops[i]);
      if s.isFiltered {
        hasFiltered := true;
      }
      if s.isMerge {
        if s.distanceUm < NucDistanceThreshold && s.nModifiedNodes >= ModifiedNodesThreshold {
          hasSoma := true;
          break;
        }
      }
      i := i + 1;
    }
  }

  /** The scan stops exactly when some operation is a soma/nucleus merge; when it does
      not stop, it has seen whether any operation is filtered. */
  lemma {:induction false} ScanSpec(ops: seq<int>, stat: int -> EditStat)
    ensures Scan(ops, stat).1 <==> exists i :: 0 <= i < |ops| && IsSomaMerge(stat(ops[i]))
    ensures !Scan(ops, stat).1 ==> (Scan(ops, stat).0 <==> exists i :: 0 <= i < |ops| && stat(ops[i]).isFiltered)
  {
    if |ops| > 0 {
      ScanSpec(ops[1..], stat);
      assert forall i :: 0 < i < |ops| ==> ops[i] == ops[1..][i - 1];
      if exists i :: 0 <= i < |ops[1..]| && IsSomaMerge(stat(ops[1..][i])) {
        var i :| 0 <= i < |ops[1..]| && IsSomaMerge(stat(ops[1..][i]));
        assert ops[i + 1] == ops[1..][i];
      }
      if exists i :: 0 <= i < |ops[1..]| && stat(ops[1..][i]).isFiltered {
        var i :| 0 <= i < |ops[1..]| && stat(ops[1..][i]).isFiltered;
        assert ops[i + 1] == ops[1..][i];
      }
    }
  }

  /** `has_filtered and any_merges and not has_soma_nuc`. */
  predicate IsCandidate(m: MetaEdit, stat: int -> EditStat) {
    var r := Scan(m.operationIds, stat);
    r.0 && m.anyMerges && !r.1
  }

  /** The early stop does not change the verdict: a meta-edit is a candidate iff it
      has a filtered operation, has merges, and none of its operations is a
      soma/nucleus merge. */
  lemma CandidateSpec(m: MetaEdit, stat: int -> EditStat)
    ensures IsCandidate(m, stat) <==>
      (exists i :: 0 <= i < |m.operationIds| && stat(m.operationIds[i]).isFiltered) &&
      m.anyMerges &&
      !(exists i :: 0 <= i < |m.operationIds| && IsSomaMerge(stat(m.operationIds[i])))
  {
    ScanSpec(m.operationIds, stat);
  }

  /** The candidate ids in meta-operation order. */
  function Candidates(metas: seq<MetaEdit>, stat: int -> EditStat): (r: seq<int>)
    ensures forall x :: x in r <==> exists i :: 0 <= i < |metas| && metas[i].id == x && IsCandidate(metas[i], stat)
  {
    if |metas| == 0 then []
    else
      var init := metas[..|metas| - 1];
      var m := metas[|metas| - 1];
      assert forall i :: 0 <= i < |init| ==> init[i] == metas[i];
      Candidates(init, stat) + (if IsCandidate(m, stat) then [m.id] else [])
  }

  /** `soma_nuc_merge_metaoperation`: the last meta-operation whose scan stopped. */
  function LastSoma(metas: seq<MetaEdit>, stat: int -> EditStat): (r: Option<int>)
    ensures r.None? <==> forall i :: 0 <= i < |metas| ==> !Scan(metas[i].operationIds, stat).1
    ensures r.Some? ==> exists i :: (0 <= i < |metas| && metas[i].id == r.value &&
      Scan(metas[i].operationIds, stat).1 &&
      forall j :: i < j < |metas| ==> !Scan(metas[j].operationIds, stat).1)
  {
    if |metas| == 0 then None
    else
      var init := metas[..|metas| - 1];
      var m := metas[|metas| - 1];
      assert forall i :: 0 <= i < |init| ==> init[i] == metas[i];
      if Scan(m.operationIds, stat).1 then Some(m.id) else LastSoma(init, stat)
  }

  /** With distinct meta-operation ids, the soma/nucleus meta-operation is never a
      candidate. */
  lemma SomaNotCandidate(metas: seq<MetaEdit>, stat: int -> EditStat)
    requires forall i, j :: 0 <= i < j < |metas| ==> metas[i].id != metas[j].id
    requires LastSoma(metas, stat).Some?
    ensures LastSoma(metas, stat).value !in Candidates(metas, stat)
  {
  }

  /** The candidate loop. */
  method SelectCandidates(metas: seq<MetaEdit>, stat: int -> EditStat) returns (candidates: seq<int>, soma: Option<int>)
    ensures candidates == Candidates(metas, stat)
    ensures soma == LastSoma(metas, stat)
  {
    candidates, soma := [], None;
    var i := 0;
    while i < |metas|
      invariant 0 <= i <= |metas|
      invariant candidates == Candidates(metas[..i], stat) && soma == LastSoma(metas[..i], stat)
    {
      assert metas[..i + 1][..i] == metas[..i];
      var hasFiltered, hasSoma := ScanOperations(metas[i].operationIds, stat);
      if hasSoma {
        soma := Some(metas[i].id);
      }
      if hasFiltered && metas[i].anyMerges && !hasSoma {
        candidates := candidates + [metas[i].id];
      }
      i := i + 1;
    }
    assert metas[..|metas|] == metas;
  }

  // ---------------------------------------------------------------------------
  // Dependencies along the path to the nucleus

  /** The meta-operation ids of the keypoints on a path, in path order, each once. */
  function PathTags(path: seq<int>, tags: map<int, int>, keypoints: set<int>): (r: seq<int>)
    ensures NoDup(r)
    ensures forall x :: x in r <==> exists v :: v in path && v in keypoints && v in tags && tags[v] == x
  {
    var onPath := Filter(path, v => v in keypoints && v in tags);
    var r := seq(|onPath|, i requires 0 <= i < |onPath| => tags[onPath[i]]);
    assert forall x :: x in r <==> exists v :: v in path && v in keypoints && v in tags && tags[v] == x by {
      forall x ensures x in r <==> exists v :: v in path && v in keypoints && v in tags && tags[v] == x {
        if exists v :: v in path && v in keypoints && v in tags && tags[v] == x {
          var v :| v in path && v in keypoints && v in tags && tags[v] == x;
          var j :| 0 <= j < |onPath| && onPath[j] == v;
          assert r[j] == x;
        }
      }
    }
    DedupMember(r);
    Dedup(r)
  }

  /** A meta-operation's predecessors: the keypoint tags on its path other than its own. */
  function Predecessors(path: seq<int>, tags: map<int, int>, keypoints: set<int>, m: int): (r: seq<int>)
    ensures NoDup(r) && m !in r
    ensures forall x :: x in r <==> x != m && x in PathTags(path, tags, keypoints)
  {
    var all := PathTags(path, tags, keypoints);
    FilterNoDup(all, x => x != m);
    Filter(all, x => x != m)
  }

  /** The per-synapse dependencies as written: filtered against `stale`, the
      meta-operation id left over from the per-meta-operation `groupby` loop before it
      (the key of its last group). */
  function SynapseDependenciesAsWritten(path: seq<int>, tags: map<int, int>, keypoints: set<int>, stale: int): seq<int> {
    Predecessors(path, tags, keypoints, stale)
  }

  /** The per-synapse dependencies: every meta-operation tagged on the synapse's path. */
  function SynapseDependencies(path: seq<int>, tags: map<int, int>, keypoints: set<int>): (r: seq<int>)
    ensures NoDup(r)
    ensures forall x :: x in r <==> exists v :: v in path && v in keypoints && v in tags && tags[v] == x
  {
    PathTags(path, tags, keypoints)
  }

  /** A synapse whose path crosses a node tagged with the leftover id loses that
      dependency as written, and keeps it with no exclusion. */
  lemma StaleIdDropsDependency(v: int, m: int)
    ensures SynapseDependenciesAsWritten([v], map[v := m], {v}, m) == []
    ensures SynapseDependencies([v], map[v := m], {v}) == [m]
  {
    var r := SynapseDependencies([v], map[v := m], {v});
    assert m in r;
    assert forall x :: x in r ==> x == m;
    assert r == [m];
  }

  /** The path added to the dependency graph: predecessors, then the meta-operation,
      with the root -1 in front when no soma/nucleus merge was found. */
  function DependencyPath(preds: seq<int>, m: int, somaFound: bool): (r: seq<int>)
    ensures |r| == |preds| + (if somaFound then 1 else 2) && r[|r| - 1] == m
    ensures somaFound ==> r[..|preds|] == preds
    ensures !somaFound ==> r[0] == -1 && r[1..|preds| + 1] == preds
  {
    var path := preds + [m];
    if somaFound then path else [-1] + path
  }

  // ---------------------------------------------------------------------------
  // Rollback samples; fractions are in tenths

  const RollbackFractions: seq<int> := [0, 2, 4, 6, 8, 10]
  const SamplesPerFraction: nat := 25

  /** One sample at fractions 0 and 1, 25 at the others. */
  function SampleCount(k: int): (r: nat)
    ensures r == 1 <==> k == 0 || k == 10
    ensures r != 1 ==> r == SamplesPerFraction
  {
    if k == 0 || k == 10 then 1 else SamplesPerFraction
  }

  /** `Series.sample(frac=k/10)`: round(k * n / 10) rows; the fractions used are even
      tenths, so the product never ends in exactly one half. */
  function SampleSize(k: nat, n: nat): (r: nat)
    requires k <= 10
    ensures r <= n
    ensures k == 0 ==> r == 0
    ensures k == 10 ==> r == n
  {
    (k * n + 5) / 10
  }

  /** A draw of `frac = k/10` of the candidates: distinct candidates, as many as the
      rounded fraction. */
  predicate IsSample(s: seq<int>, candidates: seq<int>, k: nat)
    requires k <= 10
  {
    NoDup(s) && Elems(s) <= Elems(candidates) && |s| == SampleSize(k, |candidates|)
  }

  /** The final graph with the sampled meta-edits reversed, in sample order. */
  function RollBack(g: Graph, sampled: seq<int>, deltas: map<int, NetworkDelta>,
                    reverse: (Graph, NetworkDelta) -> Graph): (r: Graph)
    requires Elems(sampled) <= deltas.Keys
    ensures |sampled| == 0 ==> r == g
  {
    if |sampled| == 0 then g
    else
      assert sampled[|sampled| - 1] in Elems(sampled);
      reverse(RollBack(g, sampled[..|sampled| - 1], deltas, reverse), deltas[sampled[|sampled| - 1]])
  }

  /** Reversing a longer sample reverses its first part, then the rest, on top. */
  lemma {:induction false} RollBackAppend(g: Graph, a: seq<int>, b: seq<int>, deltas: map<int, NetworkDelta>,
                                          reverse: (Graph, NetworkDelta) -> Graph)
    requires Elems(a + b) <= deltas.Keys
    ensures Elems(a) <= deltas.Keys && Elems(b) <= deltas.Keys
    ensures RollBack(g, a + b, deltas, reverse) == RollBack(RollBack(g, a, deltas, reverse), b, deltas, reverse)
  {
    assert forall x :: x in a ==> x in a + b;
    assert forall x :: x in b ==> x in a + b;
    if |b| > 0 {
      var init := b[..|b| - 1];
      assert (a + b)[..|a + b| - 1] == a + init;
      assert Elems(a + init) <= deltas.Keys by {
        forall x | x in a + init ensures x in a + b { }
      }
      RollBackAppend(g, a, init, deltas, reverse);
    } else {
      assert a + b == a;
    }
  }

  /** One sample: the nucleus component of the rolled-back graph; at fraction 0 it
      must equal the final graph (`None` never does), else `AssertionError`. A
      sampled id without a meta-delta is a `KeyError`. */
  function SampleOutcome(final: Graph, sampled: seq<int>, deltas: map<int, NetworkDelta>,
                         reverse: (Graph, NetworkDelta) -> Graph, nucL2: int, k: int): (r: Result<Option<Graph>>)
    ensures !(Elems(sampled) <= deltas.Keys) ==> r == Err(KeyError)
    ensures r.Err? ==> r.error == KeyError || (k == 0 && r.error == AssertionError)
    ensures k != 0 && Elems(sampled) <= deltas.Keys ==> r.Ok?
  {
    if !(Elems(sampled) <= deltas.Keys) then Err(KeyError) else
    var nuc := FindComponent(RollBack(final, sampled, deltas, reverse), nucL2);
    if k == 0 && !(nuc.Some? && Same(nuc.value, final)) then Err(AssertionError) else Ok(nuc)
  }

  /** At fraction 0 nothing is reversed, so the check compares the final graph's own
      nucleus component with the final graph. */
  lemma RollbackZero(final: Graph, sampled: seq<int>, candidates: seq<int>, deltas: map<int, NetworkDelta>,
                     reverse: (Graph, NetworkDelta) -> Graph, nucL2: int)
    requires IsSample(sampled, candidates, 0) && Elems(sampled) <= deltas.Keys
    ensures RollBack(final, sampled, deltas, reverse) == final
    ensures SampleOutcome(final, sampled, deltas, reverse, nucL2, 0).Ok? <==>
      (FindComponent(final, nucL2).Some? && Same(FindComponent(final, nucL2).value, final))
  {
  }

  /** The fraction-0 check passes on a connected final graph that holds the nucleus
      node and whose edges join its nodes. */
  lemma ConnectedFinalPasses(final: Graph, nucL2: int)
    requires |Components(final)| == 1 && nucL2 in NodeSet(final)
    requires forall e :: e in final.edges ==> e.source in final.nodes && e.target in final.nodes
    ensures FindComponent(final, nucL2).Some? && Same(FindComponent(final, nucL2).value, final)
  {
    FindComponentSpec(final, nucL2);
    ComponentsPartition(final);
    ComponentNodes(final, 0);
    forall v | v in NodeSet(final) ensures v in ComponentOf(final, nucL2) {
      assert v in NodeSet(Components(final)[0]);
      assert nucL2 in NodeSet(Components(final)[0]);
    }
  }

  /** The (fraction, sample) pairs drawn for the listed fractions, in loop order. */
  function Plan(fracs: seq<int>): seq<(int, nat)> {
    if |fracs| == 0 then []
    else Plan(fracs[..|fracs| - 1]) + Draws(fracs[|fracs| - 1])
  }

  function Draws(k: int): (r: seq<(int, nat)>)
    ensures |r| == SampleCount(k) && forall i :: 0 <= i < |r| ==> r[i] == (k, i)
  {
    seq(SampleCount(k), i requires 0 <= i => (k, i))
  }

  /** One sample for each of fractions 0 and 1 and 25 for each of the four others. */
  lemma PlanSize()
    ensures |Plan(RollbackFractions)| == 102
  {
    assert |Plan([0])| == 1 by { assert [0][..0] == []; }
    assert |Plan([0, 2])| == 26 by { assert [0, 2][..1] == [0]; }
    assert |Plan([0, 2, 4])| == 51 by { assert [0, 2, 4][..2] == [0, 2]; }
    assert |Plan([0, 2, 4, 6])| == 76 by { assert [0, 2, 4, 6][..3] == [0, 2, 4]; }
    assert |Plan([0, 2, 4, 6, 8])| == 101 by { assert [0, 2, 4, 6, 8][..4] == [0, 2, 4, 6]; }
    assert RollbackFractions[..5] == [0, 2, 4, 6, 8];
  }

  /** One drawn sample as a value: the sample of fraction `k` numbered `i`. */
  function SampleWith(final: Graph, deltas: map<int, NetworkDelta>, reverse: (Graph, NetworkDelta) -> Graph,
                      nucL2: int, draw: (int, nat) -> seq<int>): (int, nat) -> Result<Option<Graph>>
  {
    (k: int, i: nat) => SampleOutcome(final, draw(k, i), deltas, reverse, nucL2, k)
  }

  /** The sample loop: each (fraction, sample) drawn is stored under
      (1 - fraction, sample) in tenths; the first failing sample ends it. */
  function Outcomes(plan: seq<(int, nat)>, sample: (int, nat) -> Result<Option<Graph>>)
    : (r: Result<map<(int, nat), Option<Graph>>>)
    ensures r.Err? ==> exists j :: 0 <= j < |plan| && sample(plan[j].0, plan[j].1) == Err(r.error)
    ensures r.Ok? ==> forall key :: key in r.value ==> exists j :: 0 <= j < |plan| && key == (10 - plan[j].0, plan[j].1)
  {
    if |plan| == 0 then Ok(map[])
    else match Outcomes(plan[..|plan| - 1], sample)
      case Err(e) => Err(e)
      case Ok(m) =>
        var (k, i) := plan[|plan| - 1];
        match sample(k, i)
        case Err(e) => Err(e)
        case Ok(nuc) => Ok(m[(10 - k, i) := nuc])
  }

  /** The nested sample loops: for each fraction, its samples in order, each a fresh
      copy of the final graph with the drawn meta-edits reversed. */
  method RollbackSamples(final: Graph, deltas: map<int, NetworkDelta>,
                         reverse: (Graph, NetworkDelta) -> Graph, nucSupervoxel: int, l2Of: int -> int,
                         draw: (int, nat) -> seq<int>) returns (r: Result<map<(int, nat), Option<Graph>>>)
    ensures r == Outcomes(Plan(RollbackFractions), SampleWith(final, deltas, reverse, l2Of(nucSupervoxel), draw))
  {
    var fracs := RollbackFractions;
    var nucL2 := l2Of(nucSupervoxel);
    ghost var sample := SampleWith(final, deltas, reverse, nucL2, draw);
    var acc: map<(int, nat), Option<Graph>> := map[];
    var j := 0;
    while j < |fracs|
      invariant 0 <= j <= |fracs|
      invariant Outcomes(Plan(fracs[..j]), sample) == Ok(acc)
    {
      var e;
      e, acc := SampleFraction(Plan(fracs[..j]), acc, fracs[j], final, deltas, reverse, nucL2, draw);
      FractionStep(fracs, j, sample);
      if e.Some? {
        return Err(e.value);
      }
      j := j + 1;
    }
    assert fracs[..|fracs|] == fracs;
    return Ok(acc);
  }

  /** One more fraction: its samples follow the earlier ones, and a failure among them
      is the failure of the whole plan. */
  lemma FractionStep(fracs: seq<int>, j: nat, sample: (int, nat) -> Result<Option<Graph>>)
    requires j < |fracs|
    ensures Plan(fracs[..j + 1]) == Plan(fracs[..j]) + Draws(fracs[j])
    ensures Outcomes(Plan(fracs[..j]) + Draws(fracs[j]), sample).Err? ==>
      Outcomes(Plan(fracs), sample) == Outcomes(Plan(fracs[..j]) + Draws(fracs[j]), sample)
  {
    assert fracs[..j + 1][..j] == fracs[..j];
    if Outcomes(Plan(fracs[..j + 1]), sample).Err? {
      assert fracs == fracs[..j + 1] + fracs[j + 1..];
      OutcomesPrefixErr(Plan(fracs[..j + 1]), Plan(fracs[j + 1..]), sample);
      PlanAppend(fracs[..j + 1], fracs[j + 1..]);
    }
  }

  /** The inner loop for one fraction. */
  method SampleFraction(done: seq<(int, nat)>, acc0: map<(int, nat), Option<Graph>>, k: int, final: Graph,
                        deltas: map<int, NetworkDelta>, reverse: (Graph, NetworkDelta) -> Graph, nucL2: int,
                        draw: (int, nat) -> seq<int>)
    returns (err: Option<Error>, acc: map<(int, nat), Option<Graph>>)
    requires Outcomes(done, SampleWith(final, deltas, reverse, nucL2, draw)) == Ok(acc0)
    ensures var s := Outcomes(done + Draws(k), SampleWith(final, deltas, reverse, nucL2, draw));
      (s.Ok? ==> err.None? && s.value == acc) && (s.Err? ==> err == Some(s.error))
  {
    ghost var sample := SampleWith(final, deltas, reverse, nucL2, draw);
    var ds := Draws(k);
    acc := acc0;
    var i: nat := 0;
    SliceEnds(done, ds);
    while i < |ds|
      invariant i <= |ds|
      invariant Outcomes(done + ds[..i], sample) == Ok(acc)
    {
      assert ds[i] == (k, i);
      var o := SampleAt(done, ds, k, i, acc, final, deltas, reverse, nucL2, draw, sample);
      if o.Err? {
        return Some(o.error), acc;
      }
      acc := acc[(10 - k, i) := o.value];
      i := i + 1;
    }
    assert ds[..i] == ds;
    return None, acc;
  }

  /** One more sample: a failing sample is the failure of the whole plan, a
      successful one extends the outcomes by its entry. */
  /** One sample of the inner loop, with what it does to the outcomes so far. */
  method SampleAt(done: seq<(int, nat)>, ds: seq<(int, nat)>, k: int, i: nat, acc: map<(int, nat), Option<Graph>>,
                  final: Graph, deltas: map<int, NetworkDelta>, reverse: (Graph, NetworkDelta) -> Graph, nucL2: int,
                  draw: (int, nat) -> seq<int>, ghost sample: (int, nat) -> Result<Option<Graph>>)
    returns (o: Result<Option<Graph>>)
    requires sample == SampleWith(final, deltas, reverse, nucL2, draw)
    requires i < |ds| && ds[i] == (k, i) && Outcomes(done + ds[..i], sample) == Ok(acc)
    ensures o.Err? ==> Outcomes(done + ds, sample) == Err(o.error)
    ensures o.Ok? ==> Outcomes(done + ds[..i + 1], sample) == Ok(acc[(10 - k, i) := o.value])
  {
    o := Sample(final, draw(k, i), deltas, reverse, nucL2, k);
    assert sample(k, i) == o;
    DrawStep(done, ds, k, i, acc, sample);
  }

  lemma DrawStep(done: seq<(int, nat)>, ds: seq<(int, nat)>, k: int, i: nat, acc: map<(int, nat), Option<Graph>>,
                 sample: (int, nat) -> Result<Option<Graph>>)
    requires i < |ds| && ds[i] == (k, i) && Outcomes(done + ds[..i], sample) == Ok(acc)
    ensures sample(k, i).Err? ==> Outcomes(done + ds, sample) == Err(sample(k, i).error)
    ensures sample(k, i).Ok? ==> Outcomes(done + ds[..i + 1], sample) == Ok(acc[(10 - k, i) := sample(k, i).value])
  {
    var plan := done + ds[..i];
    OutcomesSnoc(plan, ds[i], sample);
    SliceStep(done, ds, i);
    if sample(k, i).Err? {
      OutcomesPrefixErr(plan + [ds[i]], ds[i + 1..], sample);
    }
  }

  /** One sample: roll back, find the nucleus component, check fraction 0. */
  method Sample(final: Graph, sampled: seq<int>, deltas: map<int, NetworkDelta>,
                reverse: (Graph, NetworkDelta) -> Graph, nucL2: int, k: int) returns (r: Result<Option<Graph>>)
    ensures r == SampleOutcome(final, sampled, deltas, reverse, nucL2, k)
  {
    if !(Elems(sampled) <= deltas.Keys) {
      return Err(KeyError);
    }
    var g := RollBackInPlace(final, sampled, deltas, reverse);
    var nuc := SearchComponents(g, nucL2);
    if k == 0 && !(nuc.Some? && Same(nuc.value, final)) {
      return Err(AssertionError);
    }
    return Ok(nuc);
  }

  /** `nf = final_nf.copy()` and the loop reversing each sampled meta-edit. */
  method RollBackInPlace(final: Graph, sampled: seq<int>, deltas: map<int, NetworkDelta>,
                         reverse: (Graph, NetworkDelta) -> Graph) returns (g: Graph)
    requires Elems(sampled) <= deltas.Keys
    ensures g == RollBack(final, sampled, deltas, reverse)
  {
    g := final;
    var i := 0;
    while i < |sampled|
      invariant 0 <= i <= |sampled|
      invariant Elems(sampled[..i]) <= deltas.Keys
      invariant g == RollBack(final, sampled[..i], deltas, reverse)
    {
      assert sampled[..i + 1][..i] == sampled[..i];
      assert sampled[i] in Elems(sampled);
      g := reverse(g, deltas[sampled[i]]);
      i := i + 1;
    }
    assert sampled[..|sampled|] == sampled;
  }

  lemma SliceEnds<T>(done: seq<T>, s: seq<T>)
    ensures done + s[..0] == done && done + s[..|s|] == done + s
  {
    assert s[..0] == [] && s[..|s|] == s;
  }

  lemma SliceStep<T>(done: seq<T>, s: seq<T>, i: nat)
    requires i < |s|
    ensures done + s[..i] + [s[i]] == done + s[..i + 1]
    ensures done + s[..i] + [s[i]] + s[i + 1..] == done + s
  {
    assert s[..i + 1] == s[..i] + [s[i]];
    assert s == s[..i + 1] + s[i + 1..];
  }

  lemma {:induction false} PlanAppend(a: seq<int>, b: seq<int>)
    ensures Plan(a + b) == Plan(a) + Plan(b)
  {
    if |b| > 0 {
      assert (a + b)[..|a + b| - 1] == a + b[..|b| - 1];
      PlanAppend(a, b[..|b| - 1]);
    } else {
      assert a + b == a;
    }
  }

  lemma OutcomesSnoc(plan: seq<(int, nat)>, x: (int, nat), sample: (int, nat) -> Result<Option<Graph>>)
    requires Outcomes(plan, sample).Ok?
    ensures var o := sample(x.0, x.1);
      Outcomes(plan + [x], sample) ==
        if o.Err? then Err(o.error) else Ok(Outcomes(plan, sample).value[(10 - x.0, x.1) := o.value])
  {
    assert (plan + [x])[..|plan|] == plan;
  }

  lemma {:induction false} OutcomesPrefixErr(a: seq<(int, nat)>, b: seq<(int, nat)>,
                                             sample: (int, nat) -> Result<Option<Graph>>)
    requires Outcomes(a, sample).Err?
    ensures Outcomes(a + b, sample) == Outcomes(a, sample)
  {
    if |b| > 0 {
      assert (a + b)[..|a + b| - 1] == a + b[..|b| - 1];
      OutcomesPrefixErr(a, b[..|b| - 1], sample);
    } else {
      assert a + b == a;
    }
  }

  // ---------------------------------------------------------------------------
  // Synapses per sample and counts per postsynaptic target

  /** The list column concatenated over the nodes that hold a list, in node order;
      nodes added back by a rollback hold no list and are skipped. */
  function Collected(nodes: seq<int>, lists: map<int, seq<int>>): (r: seq<int>)
    ensures forall s :: s in r <==> exists v :: v in nodes && v in lists && s in lists[v]
  {
    if |nodes| == 0 then []
    else
      var init := nodes[..|nodes| - 1];
      var v := nodes[|nodes| - 1];
      assert forall w :: w in nodes <==> w in init || w == v by { assert nodes == init + [v]; }
      Collected(init, lists) + (if v in lists then lists[v] else [])
  }

  /** The collection loop over one sample; a sample whose nucleus component is
      `None` has no node table (`AttributeError`). */
  method CollectSynapses(nuc: Option<Graph>, lists: map<int, seq<int>>) returns (r: Result<seq<int>>)
    ensures nuc.None? ==> r == Err(AttributeError)
    ensures nuc.Some? ==> r == Ok(Collected(nuc.value.nodes, lists))
  {
    if nuc.None? {
      return Err(AttributeError);
    }
    var nodes := nuc.value.nodes;
    var all: seq<int> := [];
    var i := 0;
    while i < |nodes|
      invariant 0 <= i <= |nodes| && all == Collected(nodes[..i], lists)
    {
      assert nodes[..i + 1][..i] == nodes[..i];
      if nodes[i] in lists {
        all := all + lists[nodes[i]];
      }
      i := i + 1;
    }
    assert nodes[..|nodes|] == nodes;
    return Ok(all);
  }

  /** How many of the synapses have postsynaptic root `t`. */
  function Count(t: int, syns: seq<int>, postRoot: map<int, int>): nat {
    if |syns| == 0 then 0
    else
      var s := syns[|syns| - 1];
      Count(t, syns[..|syns| - 1], postRoot) + (if s in postRoot && postRoot[s] == t then 1 else 0)
  }

  /** The counting loop as a fold: each synapse id is looked up in the output-synapse
      table (`KeyError` when absent) and its target's cell is incremented. */
  function Counts(syns: seq<int>, postRoot: map<int, int>, targets: seq<int>): (r: Result<map<int, nat>>)
    ensures r.Err? ==> r.error == KeyError
    ensures r.Ok? ==> r.value.Keys == Elems(targets)
  {
    if |syns| == 0 then Ok(map t | t in targets :: 0)
    else match Counts(syns[..|syns| - 1], postRoot, targets)
      case Err(e) => Err(e)
      case Ok(c) =>
        var s := syns[|syns| - 1];
        if s !in postRoot then Err(KeyError)
        else if postRoot[s] !in c then Err(KeyError)
        else Ok(c[postRoot[s] := c[postRoot[s]] + 1])
  }

  /** The counts exist exactly when every synapse is an output synapse; then every
      target has a cell, holding the number of synapses onto it. */
  lemma {:induction false} CountsSpec(syns: seq<int>, postRoot: map<int, int>, targets: seq<int>)
    requires postRoot.Values <= Elems(targets)
    ensures Counts(syns, postRoot, targets).Ok? <==> forall s :: s in syns ==> s in postRoot
    ensures Counts(syns, postRoot, targets).Ok? ==>
      var c := Counts(syns, postRoot, targets).value;
      c.Keys == Elems(targets) && forall t :: t in c ==> c[t] == Count(t, syns, postRoot)
  {
    if |syns| > 0 {
      var init := syns[..|syns| - 1];
      var s := syns[|syns| - 1];
      assert forall x :: x in syns <==> x in init || x == s by { assert syns == init + [s]; }
      CountsSpec(init, postRoot, targets);
      if s in postRoot {
        assert postRoot[s] in postRoot.Values;
      }
    }
  }

  /** One row of the connectivity table. */
  method CountTargets(syns: seq<int>, postRoot: map<int, int>, targets: seq<int>) returns (r: Result<map<int, nat>>)
    ensures r == Counts(syns, postRoot, targets)
  {
    var c: map<int, nat> := map t | t in targets :: 0;
    var i := 0;
    while i < |syns|
      invariant 0 <= i <= |syns|
      invariant Counts(syns[..i], postRoot, targets) == Ok(c)
    {
      assert syns[..i + 1][..i] == syns[..i];
      var s := syns[i];
      if s !in postRoot || postRoot[s] !in c {
        CountsStop(syns, postRoot, targets, i);
        return Err(KeyError);
      }
      c := c[postRoot[s] := c[postRoot[s]] + 1];
      i := i + 1;
    }
    assert syns[..|syns|] == syns;
    return Ok(c);
  }

  lemma {:induction false} CountsStop(syns: seq<int>, postRoot: map<int, int>, targets: seq<int>, i: nat)
    requires i < |syns| && Counts(syns[..i], postRoot, targets).Ok?
    requires syns[i] !in postRoot || postRoot[syns[i]] !in Counts(syns[..i], postRoot, targets).value
    ensures Counts(syns, postRoot, targets) == Err(KeyError)
  {
    assert syns[..i + 1][..i] == syns[..i];
    CountsPrefixErr(syns, postRoot, targets, i + 1);
  }

  lemma {:induction false} CountsPrefixErr(syns: seq<int>, postRoot: map<int, int>, targets: seq<int>, n: nat)
    requires n <= |syns| && Counts(syns[..n], postRoot, targets).Err?
    ensures Counts(syns, postRoot, targets) == Counts(syns[..n], postRoot, targets)
  {
    if n < |syns| {
      assert syns[..|syns| - 1][..n] == syns[..n];
      CountsPrefixErr(syns[..|syns| - 1], postRoot, targets, n);
    } else {
      assert syns[..n] == syns;
    }
  }

  /** The counts of a row, in target order. */
  function Row(targets: seq<int>, syns: seq<int>, postRoot: map<int, int>): (r: seq<int>)
    ensures |r| == |targets| && forall j :: 0 <= j < |targets| ==> r[j] == Count(targets[j], syns, postRoot)
  {
    seq(|targets|, j requires 0 <= j < |targets| => Count(targets[j], syns, postRoot))
  }

  /** A unit column at the position of `t` in a target list without repeats. */
  lemma {:induction false} SumHit(targets: seq<int>, t: int)
    requires NoDup(targets)
    ensures Sum(seq(|targets|, j requires 0 <= j < |targets| => if targets[j] == t then 1 else 0)) ==
      if t in targets then 1 else 0
  {
    if |targets| > 0 {
      var init := targets[..|targets| - 1];
      var u := targets[|targets| - 1];
      SumHit(init, t);
      var h := seq(|targets|, j requires 0 <= j < |targets| => if targets[j] == t then 1 else 0);
      assert h[..|h| - 1] == seq(|init|, j requires 0 <= j < |init| => if init[j] == t then 1 else 0);
      assert u !in init;
      assert forall w :: w in targets <==> w in init || w == u by { assert targets == init + [u]; }
    }
  }

  lemma {:induction false} SumPlus(a: seq<int>, b: seq<int>)
    requires |a| == |b|
    ensures Sum(seq(|a|, j requires 0 <= j < |a| => a[j] + b[j])) == Sum(a) + Sum(b)
  {
    if |a| > 0 {
      var n := |a| - 1;
      SumPlus(a[..n], b[..n]);
      assert seq(|a|, j requires 0 <= j < |a| => a[j] + b[j])[..n] ==
        seq(|a[..n]|, j requires 0 <= j < |a[..n]| => a[..n][j] + b[..n][j]);
    }
  }

  /** Each sample's counts add up to the number of synapses collected for it,
      when every one is an output synapse onto a listed target. */
  lemma {:induction false} CountsSum(targets: seq<int>, syns: seq<int>, postRoot: map<int, int>)
    requires NoDup(targets)
    requires forall s :: s in syns ==> s in postRoot && postRoot[s] in targets
    ensures Sum(Row(targets, syns, postRoot)) == |syns|
  {
    if |syns| == 0 {
      assert Row(targets, syns, postRoot) == seq(|targets|, j requires 0 <= j < |targets| => 0);
      SumHit(targets, if |targets| > 0 then targets[0] - 1 else 0);
      var z := seq(|targets|, j requires 0 <= j < |targets| => 0);
      SumPlus(z, z);
      assert seq(|z|, j requires 0 <= j < |z| => z[j] + z[j]) == z;
    } else {
      var init := syns[..|syns| - 1];
      var s := syns[|syns| - 1];
      assert forall x :: x in init ==> x in syns;
      CountsSum(targets, init, postRoot);
      var a := Row(targets, init, postRoot);
      var h := seq(|targets|, j requires 0 <= j < |targets| => if targets[j] == postRoot[s] then 1 else 0);
      SumHit(targets, postRoot[s]);
      SumPlus(a, h);
      assert Row(targets, syns, postRoot) == seq(|a|, j requires 0 <= j < |a| => a[j] + h[j]);
    }
  }

  /** As written, the collected list comes from the `synapses` column, which also holds
      input-synapse ids; one such id on the nucleus component makes the count raise
      `KeyError`. */
  lemma InputSynapseBreaksCount(v: int, p: int, postRoot: map<int, int>, targets: seq<int>)
    requires p !in postRoot
    ensures Counts(Collected([v], map[v := [p]]), postRoot, targets) == Err(KeyError)
  {
    var lists := map[v := [p]];
    assert [v][..0] == [];
    assert Collected([], lists) == [];
    var c := Collected([v], lists);
    assert c == [p];
    assert c[..0] == [];
  }

  /** With the `pre_synapses` column, whose ids all come from the output-synapse
      table, the count succeeds for every sample and its cells add up to the number
      of synapses collected. */
  lemma OutputSynapsesCount(nodes: seq<int>, preLists: map<int, seq<int>>, postRoot: map<int, int>, targets: seq<int>)
    requires NoDup(targets) && postRoot.Values <= Elems(targets)
    requires forall v, s :: v in preLists && s in preLists[v] ==> s in postRoot
    ensures Counts(Collected(nodes, preLists), postRoot, targets).Ok?
    ensures Sum(Row(targets, Collected(nodes, preLists), postRoot)) == |Collected(nodes, preLists)|
  {
    var syns := Collected(nodes, preLists);
    CountsSpec(syns, postRoot, targets);
    forall s | s in syns ensures s in postRoot && postRoot[s] in targets {
      assert postRoot[s] in postRoot.Values;
    }
    CountsSum(targets, syns, postRoot);
  }
}
