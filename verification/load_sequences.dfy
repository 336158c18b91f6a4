/** Loading the stored merge-and-clean sequences: for every finished root and every
    time-ordered or random-ordered run, the synapse statistics of the states that end
    a bout, a bout being the stretch of states between two merges. */
module LoadSequences {
  import opened Seqs
  import opened Wrappers
  import opened FileNames

  // ---------------------------------------------------------------------------
  // Bouts

  /** `has_merge` after `fillna(False)`, as a count: one for a merge, zero for a
      state without one or with no value. */
  function MergeCount(h: Option<bool>): nat {
    if h == Some(true) then 1 else 0
  }

  /** `has_merge.fillna(False).cumsum()`: the bout of every state, the running number
      of merges up to and including it. */
  function Bouts(h: seq<Option<bool>>): (r: seq<int>)
    ensures |r| == |h|
  {
    if |h| == 0 then []
    else
      var prev := Bouts(h[..|h| - 1]);
      var before := if |prev| == 0 then 0 else prev[|prev| - 1];
      prev + [before + MergeCount(h[|h| - 1])]
  }

  /** Each state's bout is the one before it plus its own merge count. */
  lemma {:induction false} BoutsStep(h: seq<Option<bool>>)
    ensures |h| > 0 ==> Bouts(h)[0] == MergeCount(h[0])
    ensures forall i :: 0 <= i < |h| - 1 ==> Bouts(h)[i + 1] == Bouts(h)[i] + MergeCount(h[i + 1])
  {
    if |h| > 0 {
      var init := h[..|h| - 1];
      BoutsStep(init);
      var r := Bouts(h);
      assert r[..|h| - 1] == Bouts(init);
      if |h| > 1 {
        assert init[0] == h[0];
      }
      forall i | 0 <= i < |h| - 1 ensures r[i + 1] == r[i] + MergeCount(h[i + 1]) {
        if i + 1 < |h| - 1 {
          assert r[i + 1] == Bouts(init)[i + 1] && r[i] == Bouts(init)[i] && init[i + 1] == h[i + 1];
        }
      }
    }
  }

  /** Between two states the bout rises by at most one per state. */
  lemma {:induction false} BoutsClimb(h: seq<Option<bool>>, i: nat, j: nat)
    requires i <= j < |h|
    ensures Bouts(h)[i] <= Bouts(h)[j] <= Bouts(h)[i] + (j - i)
    decreases j - i
  {
    if i < j {
      BoutsStep(h);
      BoutsClimb(h, i, j - 1);
    }
  }

  /** The first state's bout is its own merge count; each later state steps up by one
      exactly when it is a merge; so bouts never decrease and stay within the number
      of states so far. */
  lemma BoutsSpec(h: seq<Option<bool>>)
    ensures |h| > 0 ==> Bouts(h)[0] == MergeCount(h[0])
    ensures forall i :: 0 <= i < |h| - 1 ==> Bouts(h)[i + 1] == Bouts(h)[i] + MergeCount(h[i + 1])
    ensures forall i, j :: 0 <= i <= j < |h| ==> Bouts(h)[i] <= Bouts(h)[j]
    ensures forall i :: 0 <= i < |h| ==> 0 <= Bouts(h)[i] <= i + 1
  {
    BoutsStep(h);
    forall i, j | 0 <= i <= j < |h| ensures Bouts(h)[i] <= Bouts(h)[j] {
      BoutsClimb(h, i, j);
    }
    forall i | 0 <= i < |h| ensures 0 <= Bouts(h)[i] <= i + 1 {
      BoutsClimb(h, 0, i);
    }
  }

  // ---------------------------------------------------------------------------
  // Exemplars: the last state of each bout

  /** The last position of `k` in `keys`. */
  function LastPosition(keys: seq<int>, k: int): (p: nat)
    requires k in keys
    ensures p < |keys| && keys[p] == k
    ensures forall j :: p < j < |keys| ==> keys[j] != k
  {
    if keys[|keys| - 1] == k then |keys| - 1
    else
      assert keys == keys[..|keys| - 1] + [keys[|keys| - 1]];
      LastPosition(keys[..|keys| - 1], k)
  }

  /** `index.to_series().groupby(keys).apply(lambda x: x.iloc[-1])`: for each distinct
      key, the index value of its last row. */
  function LastPerGroup(index: seq<int>, keys: seq<int>): (m: map<int, int>)
    requires |index| == |keys|
    ensures m.Keys == Elems(keys)
  {
    if |keys| == 0 then map[]
    else
      var n := |keys| - 1;
      assert keys == keys[..n] + [keys[n]];
      LastPerGroup(index[..n], keys[..n])[keys[n] := index[n]]
  }

  /** Each group's value is the index of the last row with its key. */
  lemma {:induction false} LastPerGroupSpec(index: seq<int>, keys: seq<int>)
    requires |index| == |keys|
    ensures forall k :: k in LastPerGroup(index, keys) ==> LastPerGroup(index, keys)[k] == index[LastPosition(keys, k)]
  {
    if |keys| > 0 {
      var n := |keys| - 1;
      LastPerGroupSpec(index[..n], keys[..n]);
      forall k | k in LastPerGroup(index, keys)
        ensures LastPerGroup(index, keys)[k] == index[LastPosition(keys, k)]
      {
        if k != keys[n] {
          assert keys == keys[..n] + [keys[n]];
          assert LastPosition(keys, k) == LastPosition(keys[..n], k);
        }
      }
    }
  }

  /** `bout_exemplars`: bout number to the id of the last state of that bout. */
  function BoutExemplars(index: seq<int>, h: seq<Option<bool>>): (m: map<int, int>)
    requires |index| == |h|
    ensures m.Keys == Elems(Bouts(h))
  {
    LastPerGroup(index, Bouts(h))
  }

  /** A state ends its bout when it is the final state or the next one is a merge. */
  predicate EndsBout(h: seq<Option<bool>>, p: nat) {
    p < |h| && (p == |h| - 1 || h[p + 1] == Some(true))
  }

  /** The exemplars are exactly the states that end a bout: one per distinct bout,
      each the last state before the next merge (or the final state). */
  lemma ExemplarsEndBouts(index: seq<int>, h: seq<Option<bool>>)
    requires |index| == |h|
    ensures var b := Bouts(h);
      forall k :: k in BoutExemplars(index, h) ==>
        EndsBout(h, LastPosition(b, k)) && BoutExemplars(index, h)[k] == index[LastPosition(b, k)]
    ensures var b := Bouts(h);
      forall p :: 0 <= p < |h| && EndsBout(h, p) ==> LastPosition(b, b[p]) == p
  {
    var b := Bouts(h);
    BoutsSpec(h);
    LastPerGroupSpec(index, b);
    forall k | k in BoutExemplars(index, h) ensures EndsBout(h, LastPosition(b, k)) {
      var p := LastPosition(b, k);
      if p < |h| - 1 {
        assert b[p + 1] == b[p] + MergeCount(h[p + 1]);
      }
    }
    forall p | 0 <= p < |h| && EndsBout(h, p) ensures LastPosition(b, b[p]) == p {
      if p < |h| - 1 {
        assert b[p + 1] == b[p] + 1;
        assert forall j :: p < j < |h| ==> b[p + 1] <= b[j];
      }
    }
  }

  // ---------------------------------------------------------------------------
  // compute_target_stats

  /** One row of the per-state synapse statistics: the state's meta-operation id and
      its statistics. */
  datatype StatRow<T> = StatRow(metaoperationId: int, stats: T)

  /** `post_mtype_stats.query("metaoperation_id.isin(@bout_exemplars)")`. */
  function BoutStats<T(!new)>(stats: seq<StatRow<T>>, exemplars: map<int, int>): (r: seq<StatRow<T>>)
    ensures forall s :: s in r <==> s in stats && s.metaoperationId in exemplars.Values
  {
    var keep := (s: StatRow<T>) => s.metaoperationId in exemplars.Values;
    var r := Filter(stats, keep);
    assert forall s :: s in stats && keep(s) ==> s in r by {
      forall s | s in stats && keep(s) ensures s in r {
        var i :| 0 <= i < |stats| && stats[i] == s;
      }
    }
    r
  }

  /** `compute_target_stats`: the statistics rows of the states that end a bout. The
      states are the sequence's index (`index`) with their `has_merge` values (`h`). */
  function TargetStats<T(!new)>(index: seq<int>, h: seq<Option<bool>>, stats: seq<StatRow<T>>): seq<StatRow<T>>
    requires |index| == |h|
  {
    BoutStats(stats, BoutExemplars(index, h))
  }

  /** A statistics row is kept exactly when its state ends a bout. */
  lemma TargetStatsSpec<T(!new)>(index: seq<int>, h: seq<Option<bool>>, stats: seq<StatRow<T>>)
    requires |index| == |h|
    ensures forall s :: s in TargetStats(index, h, stats) <==>
      s in stats && exists p :: 0 <= p < |h| && EndsBout(h, p) && index[p] == s.metaoperationId
  {
    forall s | s in stats
      ensures s.metaoperationId in BoutExemplars(index, h).Values <==>
        exists p :: 0 <= p < |h| && EndsBout(h, p) && index[p] == s.metaoperationId
    {
      if s.metaoperationId in BoutExemplars(index, h).Values {
        var p := EndOfExemplar(index, h, s.metaoperationId);
      }
      if exists p :: 0 <= p < |h| && EndsBout(h, p) && index[p] == s.metaoperationId {
        var p :| 0 <= p < |h| && EndsBout(h, p) && index[p] == s.metaoperationId;
        ExemplarOfEnd(index, h, p);
      }
    }
  }

  /** An exemplar is the id of a state that ends its bout. */
  lemma EndOfExemplar(index: seq<int>, h: seq<Option<bool>>, x: int) returns (p: nat)
    requires |index| == |h| && x in BoutExemplars(index, h).Values
    ensures p < |h| && EndsBout(h, p) && index[p] == x
  {
    var m := BoutExemplars(index, h);
    ExemplarsEndBouts(index, h);
    var k :| k in m && m[k] == x;
    p := LastPosition(Bouts(h), k);
  }

  /** The id of a state that ends its bout is an exemplar. */
  lemma ExemplarOfEnd(index: seq<int>, h: seq<Option<bool>>, p: nat)
    requires |index| == |h| && p < |h| && EndsBout(h, p)
    ensures index[p] in BoutExemplars(index, h).Values
  {
    var b := Bouts(h);
    var m := BoutExemplars(index, h);
    ExemplarsEndBouts(index, h);
    assert b[p] in Elems(b);
    assert m[b[p]] == index[p];
  }

  // ---------------------------------------------------------------------------
  // The loop over finished roots and their runs

  /** The key a run's results are stored under. */
  datatype RunKey = RunKey(root: int, orderBy: string, seed: string)

  /** A file's run is processed when both group keys are present (`groupby` drops
      NaN keys) and the order is "time" or "random". */
  predicate Processed(f: FileRow) {
    f.orderBy.Some? && f.seed.Some? && (f.orderBy.value == "time" || f.orderBy.value == "random")
  }

  function KeyOf(f: FileRow): RunKey
    requires f.orderBy.Some? && f.seed.Some?
  {
    RunKey(f.root, f.orderBy.value, f.seed.value)
  }

  /** The keys of the processed runs among `rows`. */
  function ProcessedKeys(rows: seq<FileRow>): set<RunKey> {
    set f | f in rows && Processed(f) :: KeyOf(f)
  }

  /** The loop over the finished files: each processed run stores its result (the
      parameter `compute`, which loads the neuron and builds the sequence) under its
      key. Runs of several files share one key and one result. */
  method CollectRuns<S>(rows: seq<FileRow>, compute: RunKey -> S) returns (all: map<RunKey, S>)
    ensures all.Keys == ProcessedKeys(rows)
    ensures forall key :: key in all ==> all[key] == compute(key)
  {
    all := map[];
    for i := 0 to |rows|
      invariant all.Keys == ProcessedKeys(rows[..i])
      invariant forall key :: key in all ==> all[key] == compute(key)
    {
      assert rows[..i + 1] == rows[..i] + [rows[i]];
      if Processed(rows[i]) {
        all := all[KeyOf(rows[i]) := compute(KeyOf(rows[i]))];
      }
    }
    assert rows[..|rows|] == rows;
  }

  /** The whole loading step: parse the names, keep the finished roots, and collect
      the runs. A name whose root id does not parse aborts with `ValueError`. */
  method LoadRuns<S>(names: seq<string>, compute: RunKey -> S) returns (r: Result<map<RunKey, S>>)
    ensures r.Err? <==> ParseFiles(names).Err?
    ensures r.Err? ==> r.error == ValueError
    ensures r.Ok? ==> r.value.Keys == ProcessedKeys(FilesFinished(ParseFiles(names).value))
    ensures r.Ok? ==> forall key :: key in r.value ==> r.value[key] == compute(key)
  {
    match ParseFiles(names)
    case Err(e) => return Err(e);
    case Ok(rows) =>
      var all := CollectRuns(FilesFinished(rows), compute);
      return Ok(all);
  }

  /** Every processed run belongs to a root with all twelve files. */
  lemma RunsAreFinished(rows: seq<FileRow>, key: RunKey)
    requires key in ProcessedKeys(FilesFinished(rows))
    ensures FileCount(rows, key.root) == FilesPerRoot
    ensures key.orderBy == "time" || key.orderBy == "random"
  {
    FinishedSpec(rows);
    var f :| f in FilesFinished(rows) && Processed(f) && KeyOf(f) == key;
  }
}
