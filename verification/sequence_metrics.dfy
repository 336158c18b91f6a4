/** Per-neuron sequence metrics: every finished file names a sequence scheme
    ("clean-and-merge" when it records an order, "historical" otherwise); each scheme
    builds its sequence, per-state target counts are computed, and every feature
    table is tagged with the sequence key and the row order. */
module SequenceMetrics {
  import opened Seqs
  import opened Wrappers
  import opened FileNames

  // ---------------------------------------------------------------------------
  // Schemes

  const CleanAndMerge: string := "clean-and-merge"
  const Historical: string := "historical"

  /** `files["scheme"]`: "historical", overwritten by "clean-and-merge" where
      `order_by` is not NaN. */
  function SchemeOf(orderBy: Option<string>): (s: string)
    ensures s == CleanAndMerge <==> orderBy.Some?
    ensures s == Historical <==> orderBy.None?
  {
    assert CleanAndMerge[0] != Historical[0];
    if orderBy.Some? then CleanAndMerge else Historical
  }

  /** The two ways a sequence is built. */
  datatype SequenceKind = MergeAndClean | TimeOrdered

  /** The scheme dispatch: a known scheme picks its builder, any other string raises
      `ValueError`. */
  function Dispatch(scheme: string): (r: Result<SequenceKind>)
    ensures r == Ok(MergeAndClean) <==> scheme == CleanAndMerge
    ensures r == Ok(TimeOrdered) <==> scheme == Historical
    ensures r.Err? <==> scheme != CleanAndMerge && scheme != Historical
    ensures r.Err? ==> r.error == ValueError
  {
    if scheme == CleanAndMerge then Ok(MergeAndClean)
    else if scheme == Historical then Ok(TimeOrdered)
    else Err(ValueError)
  }

  /** Every scheme the table can hold is recognised: the `ValueError` branch is never
      taken, and a file with an order is replayed by merge-and-clean. */
  lemma SchemesDispatch(orderBy: Option<string>)
    ensures Dispatch(SchemeOf(orderBy)) == Ok(if orderBy.Some? then MergeAndClean else TimeOrdered)
  {
  }

  // ---------------------------------------------------------------------------
  // compute_target_counts

  /** `synapses_df.groupby(by).size()`: the number of rows of each key; rows whose
      key is NaN belong to no group. */
  function TargetCounts(keys: seq<Option<string>>): (m: map<string, nat>)
    ensures forall k :: k in m <==> Some(k) in keys
    ensures forall k :: k in m ==> m[k] > 0
  {
    if |keys| == 0 then map[]
    else
      var init := keys[..|keys| - 1];
      var last := keys[|keys| - 1];
      assert keys == init + [last];
      var m := TargetCounts(init);
      match last
      case None => m
      case Some(k) => m[k := (if k in m then m[k] else 0) + 1]
  }

  /** The number of rows carrying key `k`. */
  function CountOf(keys: seq<Option<string>>, k: string): nat {
    |Filter(keys, (x: Option<string>) => x == Some(k))|
  }

  /** Each group's size is the number of rows with its key. */
  lemma {:induction false} TargetCountsSpec(keys: seq<Option<string>>)
    ensures forall k :: k in TargetCounts(keys) ==> TargetCounts(keys)[k] == CountOf(keys, k)
  {
    if |keys| > 0 {
      var init := keys[..|keys| - 1];
      TargetCountsSpec(init);
      forall k | k in TargetCounts(keys) ensures TargetCounts(keys)[k] == CountOf(keys, k) {
        if Some(k) !in init {
          FilterNone(init, (x: Option<string>) => x == Some(k));
        }
      }
    }
  }

  /** Nothing passes a filter that nothing in the column satisfies. */
  lemma {:induction false} FilterNone<T>(s: seq<T>, keep: T -> bool)
    requires forall i :: 0 <= i < |s| ==> !keep(s[i])
    ensures Filter(s, keep) == []
  {
    if |s| > 0 {
      FilterNone(s[..|s| - 1], keep);
    }
  }

  /** The sum of the values of a map. */
  ghost function Total(m: map<string, nat>): nat
    decreases |m|
  {
    if |m| == 0 then 0
    else
      var k :| k in m;
      m[k] + Total(m - {k})
  }

  /** The sum may start at any key. */
  lemma {:induction false} TotalAt(m: map<string, nat>, k: string)
    requires k in m
    ensures Total(m) == m[k] + Total(m - {k})
    decreases |m|
  {
    var j :| j in m && Total(m) == m[j] + Total(m - {j});
    if j != k {
      var mj := m - {j};
      var mk := m - {k};
      TotalAt(mj, k);
      TotalAt(mk, j);
      RemoveBoth(m, j, k);
    }
  }

  lemma RemoveBoth(m: map<string, nat>, j: string, k: string)
    ensures (m - {j}) - {k} == (m - {k}) - {j}
  {
  }

  /** The group sizes add up to the number of rows with a key. */
  lemma {:induction false} CountsTotal(keys: seq<Option<string>>)
    ensures Total(TargetCounts(keys)) == |Filter(keys, (x: Option<string>) => x.Some?)|
  {
    if |keys| > 0 {
      var present := (x: Option<string>) => x.Some?;
      var init := keys[..|keys| - 1];
      var last := keys[|keys| - 1];
      CountsTotal(init);
      assert |Filter(keys, present)| == |Filter(init, present)| + (if last.Some? then 1 else 0);
      var m := TargetCounts(init);
      if last.Some? {
        var k := last.value;
        assert TargetCounts(keys) == m[k := (if k in m then m[k] else 0) + 1];
        CountOne(m, k);
      } else {
        assert TargetCounts(keys) == m;
      }
    }
  }

  /** Counting one more row of key `k` adds one to the total. */
  lemma CountOne(m: map<string, nat>, k: string)
    ensures Total(m[k := (if k in m then m[k] else 0) + 1]) == Total(m) + 1
  {
    var m2 := m[k := (if k in m then m[k] else 0) + 1];
    TotalAt(m2, k);
    assert m2 - {k} == m - {k};
    if k in m {
      TotalAt(m, k);
    } else {
      assert m - {k} == m;
    }
  }

  // ---------------------------------------------------------------------------
  // apply_metadata

  /** The key of one sequence: root, scheme, order and seed (NaN for historical). */
  datatype SequenceKey = SequenceKey(root: int, scheme: string, orderBy: Option<string>, seed: Option<string>)

  /** A feature row indexed by the state it belongs to. */
  datatype IndexedRow<T> = IndexedRow(index: int, value: T)

  /** A feature row under the six-level index. */
  datatype TaggedRow<T> = TaggedRow(key: SequenceKey, index: int, order: nat, value: T)

  /** `apply_metadata(df, key)`: every row gets the sequence key and its position
      (`order`), and the old index moves into the new six-level index. */
  function ApplyMetadata<T>(rows: seq<IndexedRow<T>>, key: SequenceKey): (r: seq<TaggedRow<T>>)
    ensures |r| == |rows|
    ensures forall i :: 0 <= i < |r| ==> r[i].order == i && r[i].key == key
  {
    seq(|rows|, i requires 0 <= i < |rows| => TaggedRow(key, rows[i].index, i, rows[i].value))
  }

  /** The rows without their tags. */
  function Untagged<T>(rows: seq<TaggedRow<T>>): (r: seq<IndexedRow<T>>)
    ensures |r| == |rows|
  {
    seq(|rows|, i requires 0 <= i < |rows| => IndexedRow(rows[i].index, rows[i].value))
  }

  /** Tagging keeps every row, in order: removing the tags gives the table back. The
      six-level index is unique, since `order` tells the rows apart even when the old
      index repeats. */
  lemma ApplyMetadataSpec<T>(rows: seq<IndexedRow<T>>, key: SequenceKey)
    ensures Untagged(ApplyMetadata(rows, key)) == rows
    ensures var r := ApplyMetadata(rows, key);
      forall i, j :: 0 <= i < j < |r| ==> (r[i].key, r[i].index, r[i].order) != (r[j].key, r[j].index, r[j].order)
  {
  }

  // ---------------------------------------------------------------------------
  // The loop over finished files

  /** The sequence key of one file row. */
  function KeyOfRow(f: FileRow): SequenceKey {
    SequenceKey(f.root, SchemeOf(f.orderBy), f.orderBy, f.seed)
  }

  function KeysOf(rows: seq<FileRow>): set<SequenceKey> {
    set f | f in rows :: KeyOfRow(f)
  }

  /** The loop over the finished files, grouped by scheme, order and seed with NaN
      kept: each group is dispatched on its scheme and its features (the parameter
      `features`) are stored under its key. A scheme the dispatch does not know
      would raise `ValueError`; none of the parsed schemes is such a scheme. */
  method CollectFeatures<S>(rows: seq<FileRow>, features: (SequenceKey, SequenceKind) -> S)
    returns (r: Result<map<SequenceKey, S>>)
    ensures r.Ok?
    ensures r.value.Keys == KeysOf(rows)
    ensures forall key :: key in r.value ==>
      r.value[key] == features(key, if key.orderBy.Some? then MergeAndClean else TimeOrdered)
  {
    var all: map<SequenceKey, S> := map[];
    for i := 0 to |rows|
      invariant all.Keys == KeysOf(rows[..i])
      invariant forall key :: key in all ==>
        all[key] == features(key, if key.orderBy.Some? then MergeAndClean else TimeOrdered)
    {
      assert rows[..i + 1] == rows[..i] + [rows[i]];
      var key := KeyOfRow(rows[i]);
      SchemesDispatch(rows[i].orderBy);
      match Dispatch(key.scheme)
      case Err(e) =>
        return Err(e);
      case Ok(kind) =>
        all := all[key := features(key, kind)];
    }
    assert rows[..|rows|] == rows;
    return Ok(all);
  }
}
