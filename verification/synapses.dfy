/** Synapse tables of a neuron across its whole history, and their mapping onto the
    level-2 nodes of its graph. Service calls (root lookups, supervoxel-to-level-2
    lookups, children of a level-2 node) are parameters; the lineage component map
    is an input (its construction is not part of this model). */
module Synapses {
  import opened Seqs
  import opened Wrappers

  /** A row of the synapse table: its id and, per side, root and supervoxel. */
  datatype Synapse = Synapse(
    id: int,
    preRoot: int,
    postRoot: int,
    preSupervoxel: int,
    postSupervoxel: int)

  datatype Side = Pre | Post

  function Root(s: Synapse, side: Side): int {
    if side == Pre then s.preRoot else s.postRoot
  }

  function Supervoxel(s: Synapse, side: Side): int {
    if side == Pre then s.preSupervoxel else s.postSupervoxel
  }

  /** A table row together with its index label. */
  datatype Row = Row(key: int, syn: Synapse)

  function Syns(rows: seq<Row>): (ss: seq<Synapse>)
    ensures |ss| == |rows|
    ensures forall i :: 0 <= i < |rows| ==> ss[i] == rows[i].syn
  {
    seq(|rows|, i requires 0 <= i < |rows| => rows[i].syn)
  }

  // ---------------------------------------------------------------------------
  // get_alltime_synapses

  /** The synapses whose root on `side` is one of the latest roots, in table order
      (the service's `filter_in_dict` query). */
  function Matching(table: seq<Synapse>, latest: seq<int>, side: Side): (ms: seq<Synapse>)
    ensures forall s :: s in ms <==> s in table && Root(s, side) in latest
  {
    if |table| == 0 then []
    else
      var init := table[..|table| - 1];
      var last := table[|table| - 1];
      assert table == init + [last];
      Matching(init, latest, side) + (if Root(last, side) in latest then [last] else [])
  }

  /** A query result as the service returns it: labelled 0, 1, 2, ... by position. */
  function Positional(ss: seq<Synapse>): (rows: seq<Row>)
    ensures |rows| == |ss|
    ensures forall i :: 0 <= i < |ss| ==> rows[i] == Row(i, ss[i])
  {
    seq(|ss|, i requires 0 <= i < |ss| => Row(i, ss[i]))
  }

  /** The same rows indexed by synapse id, as `set_index("id")` would give. */
  function ById(ss: seq<Synapse>): (rows: seq<Row>)
    ensures |rows| == |ss|
    ensures forall i :: 0 <= i < |ss| ==> rows[i] == Row(ss[i].id, ss[i])
  {
    seq(|ss|, i requires 0 <= i < |ss| => Row(ss[i].id, ss[i]))
  }

  /** `remove_self`: drop the synapses whose two sides are on the same root. */
  function DropSelf(rows: seq<Row>, removeSelf: bool): (r: seq<Row>)
    ensures forall x :: x in r <==> x in rows && (removeSelf ==> x.syn.preRoot != x.syn.postRoot)
  {
    if removeSelf then Filter(rows, (r: Row) => r.syn.preRoot != r.syn.postRoot) else rows
  }

  /** One side of `get_alltime_synapses` as written: the `set_index("id")` result is
      discarded, so the rows keep the positional labels of their query result. */
  function SideRowsAsWritten(table: seq<Synapse>, latest: seq<int>, side: Side, removeSelf: bool): seq<Row> {
    DropSelf(Positional(Matching(table, latest, side)), removeSelf)
  }

  /** One side of `get_alltime_synapses` with the rows indexed by synapse id. */
  function SideRows(table: seq<Synapse>, latest: seq<int>, side: Side, removeSelf: bool): (r: seq<Row>)
    ensures forall x :: x in r ==> x.key == x.syn.id && x.syn in table && Root(x.syn, side) in latest
  {
    DropSelf(ById(Matching(table, latest, side)), removeSelf)
  }

  /** `get_alltime_synapses` as written; the pre side is returned first. */
  function AlltimeSynapsesAsWritten(table: seq<Synapse>, latest: seq<int>, removeSelf: bool): (seq<Row>, seq<Row>) {
    (SideRowsAsWritten(table, latest, Pre, removeSelf), SideRowsAsWritten(table, latest, Post, removeSelf))
  }

  /** `get_alltime_synapses` with both tables indexed by synapse id. */
  function AlltimeSynapses(table: seq<Synapse>, latest: seq<int>, removeSelf: bool): (seq<Row>, seq<Row>) {
    (SideRows(table, latest, Pre, removeSelf), SideRows(table, latest, Post, removeSelf))
  }

  /** A side holds exactly the table's synapses whose root on that side is a latest
      root, less the self-synapses when `removeSelf`; every row is labelled by its
      synapse id. */
  lemma SideRowsSpec(table: seq<Synapse>, latest: seq<int>, side: Side, removeSelf: bool)
    ensures forall r :: r in SideRows(table, latest, side, removeSelf) <==>
      r.syn in table && Root(r.syn, side) in latest &&
      (removeSelf ==> r.syn.preRoot != r.syn.postRoot) && r.key == r.syn.id
  {
    var m := Matching(table, latest, side);
    var rows := ById(m);
    forall r: Row | r.syn in table && Root(r.syn, side) in latest && r.key == r.syn.id
      ensures r in rows
    {
      var k :| 0 <= k < |m| && m[k] == r.syn;
      assert rows[k] == r;
    }
  }

  /** Both sides, in the order the call returns them. */
  lemma AlltimeSynapsesSpec(table: seq<Synapse>, latest: seq<int>, removeSelf: bool)
    ensures var (pre, post) := AlltimeSynapses(table, latest, removeSelf);
      (forall r :: r in pre <==>
        r.syn in table && r.syn.preRoot in latest &&
        (removeSelf ==> r.syn.preRoot != r.syn.postRoot) && r.key == r.syn.id) &&
      (forall r :: r in post <==>
        r.syn in table && r.syn.postRoot in latest &&
        (removeSelf ==> r.syn.preRoot != r.syn.postRoot) && r.key == r.syn.id)
  {
    SideRowsSpec(table, latest, Pre, removeSelf);
    SideRowsSpec(table, latest, Post, removeSelf);
  }

  /** Dropping self-synapses keeps a single row on two different roots. */
  lemma DropSelfOne(x: Row)
    requires x.syn.preRoot != x.syn.postRoot
    ensures DropSelf([x], true) == [x]
  {
    assert [x][..0] == [];
  }

  lemma MatchingPair(a: Synapse, b: Synapse, latest: seq<int>, side: Side)
    ensures Matching([a, b], latest, side) ==
      (if Root(a, side) in latest then [a] else []) + (if Root(b, side) in latest then [b] else [])
  {
    assert [a, b][..1] == [a];
    assert [a][..0] == [];
    assert Matching([a], latest, side) == if Root(a, side) in latest then [a] else [];
  }

  /** As written, a pre-side row and a post-side row of two different synapses carry
      the same label whenever each comes first in its own query result. */
  lemma AlltimeLabelsCollide(a: Synapse, b: Synapse, latest: seq<int>)
    requires a.id != b.id
    requires a.preRoot in latest && a.postRoot !in latest && a.preRoot != a.postRoot
    requires b.preRoot !in latest && b.postRoot in latest && b.preRoot != b.postRoot
    ensures AlltimeSynapsesAsWritten([a, b], latest, true) == ([Row(0, a)], [Row(0, b)])
  {
    MatchingPair(a, b, latest, Pre);
    MatchingPair(a, b, latest, Post);
    assert Positional([a]) == [Row(0, a)];
    assert Positional([b]) == [Row(0, b)];
    DropSelfOne(Row(0, a));
    DropSelfOne(Row(0, b));
  }

  /** Indexed by id, labels of synapses with distinct ids never collide, on either
      side or across the two sides. */
  lemma AlltimeLabelsDistinct(table: seq<Synapse>, latest: seq<int>, removeSelf: bool)
    ensures var (pre, post) := AlltimeSynapses(table, latest, removeSelf);
      forall r, q :: r in pre + post && q in pre + post && r.syn.id != q.syn.id ==> r.key != q.key
  {
    SideRowsSpec(table, latest, Pre, removeSelf);
    SideRowsSpec(table, latest, Post, removeSelf);
  }

  // ---------------------------------------------------------------------------
  // map_synapse_level2_ids

  /** One entry of the lineage component map: a level-2 id (the index) and the
      lineage component it belongs to (the value). */
  datatype LineageEntry = LineageEntry(l2: int, component: int)

  function IndexOf(lineage: seq<LineageEntry>): set<int> {
    set e | e in lineage :: e.l2
  }

  function ValuesOf(lineage: seq<LineageEntry>): set<int> {
    set e | e in lineage :: e.component
  }

  /** Which collection a synapse's current level-2 id is looked up in. pandas'
      `isin` given a Series looks at its values. */
  datatype CurrentTest = ValuesTest | IndexTest

  /** A synapse is current when its level-2 id took part in no edit. */
  predicate IsCurrent(lineage: seq<LineageEntry>, cur: int, test: CurrentTest) {
    match test
    case ValuesTest => cur !in ValuesOf(lineage)
    case IndexTest => cur !in IndexOf(lineage)
  }

  /** `map[l2]`: the component of a level-2 id; a missing id raises `KeyError`. */
  function Lookup(lineage: seq<LineageEntry>, l2: int): (r: Result<int>)
    ensures r.Ok? <==> l2 in IndexOf(lineage)
    ensures r.Ok? ==> LineageEntry(l2, r.value) in lineage
    ensures r.Err? ==> r.error == KeyError
  {
    if |lineage| == 0 then Err(KeyError)
    else if lineage[0].l2 == l2 then Ok(lineage[0].component)
    else
      assert forall e :: e in lineage <==> e == lineage[0] || e in lineage[1..] by {
        assert lineage == [lineage[0]] + lineage[1..];
      }
      Lookup(lineage[1..], l2)
  }

  /** The level-2 ids of a lineage component that are nodes, in index order. */
  function Candidates(lineage: seq<LineageEntry>, component: int, nodelist: seq<int>): (cs: seq<int>)
    ensures forall x :: x in cs <==> LineageEntry(x, component) in lineage && x in nodelist
  {
    if |lineage| == 0 then []
    else
      var init := lineage[..|lineage| - 1];
      var e := lineage[|lineage| - 1];
      assert forall f :: f in lineage <==> f in init || f == e by {
        assert lineage == init + [e];
      }
      Candidates(init, component, nodelist) +
        (if e.component == component && e.l2 in nodelist then [e.l2] else [])
  }

  /** The position of the first candidate whose children hold the supervoxel. */
  function FirstWithChild(cands: seq<int>, sv: int, children: int -> seq<int>): (r: Option<nat>)
    ensures r.Some? ==> r.value < |cands| && sv in children(cands[r.value])
    ensures r.Some? ==> forall t :: 0 <= t < r.value ==> sv !in children(cands[t])
    ensures r.None? ==> forall t :: 0 <= t < |cands| ==> sv !in children(cands[t])
  {
    if |cands| == 0 then None
    else if sv in children(cands[0]) then Some(0)
    else match FirstWithChild(cands[1..], sv, children)
      case None => None
      case Some(k) => Some(k + 1)
  }

  /** The level-2 id one synapse is given: its current id when it is current,
      otherwise the first candidate of its lineage component whose children hold its
      supervoxel (None when there is none). Looking up the component of a current id
      that the map does not hold raises `KeyError`. */
  function Resolve(
    lineage: seq<LineageEntry>, nodelist: seq<int>, roots: int -> int,
    children: int -> seq<int>, sv: int, test: CurrentTest): (r: Result<Option<int>>)
    ensures r.Err? ==> r.error == KeyError && !IsCurrent(lineage, roots(sv), test)
    ensures r.Ok? && r.value.Some? ==>
      r.value.value == roots(sv) || (r.value.value in nodelist && sv in children(r.value.value))
  {
    var cur := roots(sv);
    if IsCurrent(lineage, cur, test) then Ok(Some(cur))
    else match Lookup(lineage, cur)
      case Err(e) => Err(e)
      case Ok(c) =>
        var cands := Candidates(lineage, c, nodelist);
        match FirstWithChild(cands, sv, children)
        case None => Ok(None)
        case Some(k) => Ok(Some(cands[k]))
  }

  /** The first failure among per-row results, in row order. */
  function FirstError<T>(rs: seq<Result<T>>): (r: Option<Error>)
    ensures r.None? <==> forall i :: 0 <= i < |rs| ==> rs[i].Ok?
    ensures r.Some? ==> exists i :: 0 <= i < |rs| && rs[i] == Err(r.value)
  {
    if |rs| == 0 then None
    else if rs[0].Err? then Some(rs[0].error)
    else
      assert forall i :: 1 <= i < |rs| ==> rs[i] == rs[1..][i - 1];
      FirstError(rs[1..])
  }

  /** A failure after a clean prefix is the first failure. */
  lemma {:induction false} FirstErrorAt<T>(rs: seq<Result<T>>, i: nat)
    requires i < |rs| && rs[i].Err?
    requires forall k :: 0 <= k < i ==> rs[k].Ok?
    ensures FirstError(rs) == Some(rs[i].error)
  {
    if i > 0 {
      FirstErrorAt(rs[1..], i - 1);
    }
  }

  /** Every row resolved, or the `assert` on missing ids fails. */
  function Filled(cells: seq<Option<int>>): (r: Result<seq<int>>)
    ensures r.Ok? <==> forall i :: 0 <= i < |cells| ==> cells[i].Some?
    ensures r.Ok? ==> |r.value| == |cells| && forall i :: 0 <= i < |cells| ==> cells[i] == Some(r.value[i])
    ensures r.Err? ==> r.error == AssertionError
  {
    if forall i :: 0 <= i < |cells| ==> cells[i].Some? then
      Ok(seq(|cells|, i requires 0 <= i < |cells| => cells[i].value))
    else Err(AssertionError)
  }

  function Resolutions(
    svs: seq<int>, lineage: seq<LineageEntry>, nodelist: seq<int>, roots: int -> int,
    children: int -> seq<int>, test: CurrentTest): (rs: seq<Result<Option<int>>>)
    ensures |rs| == |svs|
    ensures forall i :: 0 <= i < |svs| ==> rs[i] == Resolve(lineage, nodelist, roots, children, svs[i], test)
  {
    seq(|svs|, i requires 0 <= i < |svs| => Resolve(lineage, nodelist, roots, children, svs[i], test))
  }

  /** `map_synapse_level2_ids` for the synapses whose supervoxels are `svs`: the
      first lookup failure in row order, otherwise the resolved ids, or
      `AssertionError` when some synapse found no id. */
  function Level2Ids(
    svs: seq<int>, lineage: seq<LineageEntry>, nodelist: seq<int>, roots: int -> int,
    children: int -> seq<int>, test: CurrentTest): (r: Result<seq<int>>)
    ensures r.Ok? ==> |r.value| == |svs|
    ensures r.Err? ==> r.error == KeyError || r.error == AssertionError
  {
    var rs := Resolutions(svs, lineage, nodelist, roots, children, test);
    match FirstError(rs)
    case Some(e) => Err(e)
    case None => Filled(seq(|rs|, i requires 0 <= i < |rs| => rs[i].value))
  }

  /** The ids filled in before the loop: a current synapse gets its current id. */
  function Initial(svs: seq<int>, lineage: seq<LineageEntry>, roots: int -> int, test: CurrentTest): (cells: seq<Option<int>>)
    ensures |cells| == |svs|
    ensures forall i :: 0 <= i < |svs| ==>
      cells[i] == if IsCurrent(lineage, roots(svs[i]), test) then Some(roots(svs[i])) else None
  {
    seq(|svs|, i requires 0 <= i < |svs| =>
      if IsCurrent(lineage, roots(svs[i]), test) then Some(roots(svs[i])) else None)
  }

  /** The inner loop: walk the candidates until one holds the supervoxel (`break`). */
  method FindCandidate(cands: seq<int>, sv: int, children: int -> seq<int>) returns (r: Option<int>)
    ensures r.None? <==> FirstWithChild(cands, sv, children).None?
    ensures r.Some? ==> r.value == cands[FirstWithChild(cands, sv, children).value]
  {
    var j := 0;
    while j < |cands|
      invariant 0 <= j <= |cands|
      invariant forall t :: 0 <= t < j ==> sv !in children(cands[t])
    {
      if sv in children(cands[j]) {
        return Some(cands[j]);
      }
      j := j + 1;
    }
    return None;
  }

  /** The body of the loop for a synapse that is not current: look up its lineage
      component, then take the first candidate that holds its supervoxel. */
  method ResolveRow(
    lineage: seq<LineageEntry>, nodelist: seq<int>, roots: int -> int,
    children: int -> seq<int>, sv: int, test: CurrentTest) returns (r: Result<Option<int>>)
    requires !IsCurrent(lineage, roots(sv), test)
    ensures r == Resolve(lineage, nodelist, roots, children, sv, test)
  {
    var c := Lookup(lineage, roots(sv));
    if c.Err? {
      return Err(KeyError);
    }
    var found := FindCandidate(Candidates(lineage, c.value, nodelist), sv, children);
    return Ok(found);
  }

  /** The loop of `map_synapse_level2_ids`: current synapses are filled first; then
      every row still missing an id looks up its lineage component and takes the
      first candidate that holds its supervoxel; a missing id fails the final
      `assert`. */
  method MapSynapseLevel2Ids(
    svs: seq<int>, lineage: seq<LineageEntry>, nodelist: seq<int>, roots: int -> int,
    children: int -> seq<int>, test: CurrentTest) returns (r: Result<seq<int>>)
    ensures r == Level2Ids(svs, lineage, nodelist, roots, children, test)
  {
    ghost var rs := Resolutions(svs, lineage, nodelist, roots, children, test);
    var cells := Initial(svs, lineage, roots, test);
    ghost var init := cells;
    var i := 0;
    while i < |svs|
      invariant 0 <= i <= |svs| && |cells| == |svs|
      invariant forall k :: 0 <= k < i ==> rs[k] == Ok(cells[k])
      invariant forall k :: i <= k < |svs| ==> cells[k] == init[k]
    {
      if cells[i].None? {
        var x := ResolveRow(lineage, nodelist, roots, children, svs[i], test);
        if x.Err? {
          FirstErrorAt(rs, i);
          Level2IdsError(svs, lineage, nodelist, roots, children, test);
          return Err(KeyError);
        }
        if x.value.Some? {
          cells := cells[i := x.value];
        }
      }
      i := i + 1;
    }
    Level2IdsFilled(svs, lineage, nodelist, roots, children, test, cells);
    r := Filled(cells);
  }

  lemma Level2IdsError(
    svs: seq<int>, lineage: seq<LineageEntry>, nodelist: seq<int>, roots: int -> int,
    children: int -> seq<int>, test: CurrentTest)
    requires FirstError(Resolutions(svs, lineage, nodelist, roots, children, test)).Some?
    ensures Level2Ids(svs, lineage, nodelist, roots, children, test) ==
      Err(FirstError(Resolutions(svs, lineage, nodelist, roots, children, test)).value)
  {
  }

  lemma Level2IdsFilled(
    svs: seq<int>, lineage: seq<LineageEntry>, nodelist: seq<int>, roots: int -> int,
    children: int -> seq<int>, test: CurrentTest, cells: seq<Option<int>>)
    requires |cells| == |svs|
    requires forall k :: 0 <= k < |svs| ==>
      Resolutions(svs, lineage, nodelist, roots, children, test)[k] == Ok(cells[k])
    ensures Level2Ids(svs, lineage, nodelist, roots, children, test) == Filled(cells)
  {
    var rs := Resolutions(svs, lineage, nodelist, roots, children, test);
    assert cells == seq(|rs|, i requires 0 <= i < |rs| => rs[i].value);
  }

  /** A successful mapping gives every synapse the id its own resolution found. */
  lemma Level2IdsOk(
    svs: seq<int>, lineage: seq<LineageEntry>, nodelist: seq<int>, roots: int -> int,
    children: int -> seq<int>, test: CurrentTest, i: nat)
    requires i < |svs|
    requires Level2Ids(svs, lineage, nodelist, roots, children, test).Ok?
    ensures |Level2Ids(svs, lineage, nodelist, roots, children, test).value| == |svs|
    ensures Resolve(lineage, nodelist, roots, children, svs[i], test) ==
      Ok(Some(Level2Ids(svs, lineage, nodelist, roots, children, test).value[i]))
  {
    var rs := Resolutions(svs, lineage, nodelist, roots, children, test);
    assert rs[i].Ok?;
  }

  /** With the index test, a synapse keeps its current id exactly when that id took
      part in no edit; any other synapse gets a node of the same lineage component
      whose children hold its supervoxel. */
  lemma ResolveIndexTest(
    lineage: seq<LineageEntry>, nodelist: seq<int>, roots: int -> int,
    children: int -> seq<int>, sv: int, id: int)
    requires Resolve(lineage, nodelist, roots, children, sv, IndexTest) == Ok(Some(id))
    ensures roots(sv) !in IndexOf(lineage) ==> id == roots(sv)
    ensures roots(sv) in IndexOf(lineage) ==>
      id in nodelist && sv in children(id) &&
      exists c :: LineageEntry(roots(sv), c) in lineage && LineageEntry(id, c) in lineage
  {
    var cur := roots(sv);
    if cur in IndexOf(lineage) {
      var c := Lookup(lineage, cur).value;
      var cands := Candidates(lineage, c, nodelist);
      var k := FirstWithChild(cands, sv, children).value;
      assert cands[k] in cands;
    }
  }

  /** The whole mapping with the index test: the per-synapse property above. */
  lemma Level2IdsIndexTest(
    svs: seq<int>, lineage: seq<LineageEntry>, nodelist: seq<int>, roots: int -> int,
    children: int -> seq<int>, i: nat)
    requires i < |svs|
    requires Level2Ids(svs, lineage, nodelist, roots, children, IndexTest).Ok?
    ensures var ids := Level2Ids(svs, lineage, nodelist, roots, children, IndexTest).value;
      var cur := roots(svs[i]);
      |ids| == |svs| &&
      (cur !in IndexOf(lineage) ==> ids[i] == cur) &&
      (cur in IndexOf(lineage) ==>
        ids[i] in nodelist && svs[i] in children(ids[i]) &&
        exists c :: LineageEntry(cur, c) in lineage && LineageEntry(ids[i], c) in lineage)
  {
    Level2IdsOk(svs, lineage, nodelist, roots, children, IndexTest, i);
    var ids := Level2Ids(svs, lineage, nodelist, roots, children, IndexTest).value;
    ResolveIndexTest(lineage, nodelist, roots, children, svs[i], ids[i]);
  }

  /** As written, `isin` tests the component labels, so a synapse whose current id
      took part in an edit is still taken as current: it keeps an id that is not a
      node, while the index test resolves it to the node that holds its supervoxel. */
  lemma ValuesTestMissesLineage(roots: int -> int, children: int -> seq<int>)
    requires roots(5) == 100 && children(101) == [5]
    ensures var lineage := [LineageEntry(100, 0), LineageEntry(101, 0)];
      Level2Ids([5], lineage, [101], roots, children, ValuesTest) == Ok([100]) &&
      Level2Ids([5], lineage, [101], roots, children, IndexTest) == Ok([101]) &&
      100 !in [101]
  {
    var lineage := [LineageEntry(100, 0), LineageEntry(101, 0)];
    assert ValuesOf(lineage) == {0};
    assert LineageEntry(100, 0) in lineage;
    assert Lookup(lineage, 100) == Ok(0);
    assert lineage[..1] == [LineageEntry(100, 0)];
    assert [LineageEntry(100, 0)][..0] == [];
    assert Candidates([LineageEntry(100, 0)], 0, [101]) == [];
    var cands := Candidates(lineage, 0, [101]);
    assert cands == [101];
    assert FirstWithChild(cands, 5, children) == Some(0);
    assert Resolve(lineage, [101], roots, children, 5, IndexTest) == Ok(Some(101));
    assert Resolve(lineage, [101], roots, children, 5, ValuesTest) == Ok(Some(100));
    var ri := Resolutions([5], lineage, [101], roots, children, IndexTest);
    var rv := Resolutions([5], lineage, [101], roots, children, ValuesTest);
    assert ri == [Ok(Some(101))];
    assert rv == [Ok(Some(100))];
    assert FirstError(ri[1..]) == None;
    assert FirstError(rv[1..]) == None;
    assert seq(|ri|, i requires 0 <= i < |ri| => ri[i].value) == [Some(101)];
    assert seq(|rv|, i requires 0 <= i < |rv| => rv[i].value) == [Some(100)];
    var fi := Filled([Some(101)]);
    var fv := Filled([Some(100)]);
    assert fi.Ok? && |fi.value| == 1 && fi.value[0] == 101;
    assert fv.Ok? && |fv.value| == 1 && fv.value[0] == 100;
    assert fi.value == [101];
    assert fv.value == [100];
  }

  // ---------------------------------------------------------------------------
  // map_synapses_to_spatial_graph and apply_synapses

  /** A synapse row with its current level-2 id and the level-2 id it was mapped to. */
  datatype Mapped = Mapped(key: int, syn: Synapse, current: int, level2: int)

  function Supervoxels(rows: seq<Row>, side: Side): (svs: seq<int>)
    ensures |svs| == |rows|
    ensures forall i :: 0 <= i < |rows| ==> svs[i] == Supervoxel(rows[i].syn, side)
  {
    seq(|rows|, i requires 0 <= i < |rows| => Supervoxel(rows[i].syn, side))
  }

  /** Map one side and keep the synapses whose level-2 id is a node. `test` is the
      "is the current id outside the lineage" check: the code as written uses
      `ValuesTest`; `IndexTest` is the corrected one. */
  function MapSide(
    rows: seq<Row>, side: Side, lineage: seq<LineageEntry>, nodelist: seq<int>,
    roots: int -> int, children: int -> seq<int>, test: CurrentTest): (r: Result<seq<Mapped>>)
    ensures r.Ok? ==> forall m :: m in r.value ==> m.level2 in nodelist
  {
    var svs := Supervoxels(rows, side);
    match Level2Ids(svs, lineage, nodelist, roots, children, test)
    case Err(e) => Err(e)
    case Ok(ids) =>
      var all := seq(|rows|, i requires 0 <= i < |rows| && i < |ids| =>
        Mapped(rows[i].key, rows[i].syn, roots(svs[i]), ids[i]));
      Ok(Filter(all, (m: Mapped) => m.level2 in nodelist))
  }

  /** `map_synapses_to_spatial_graph`: the pre side, then the post side; the first
      failure ends the call. */
  function MapSynapsesToSpatialGraph(
    pre: seq<Row>, post: seq<Row>, lineage: seq<LineageEntry>, nodelist: seq<int>,
    roots: int -> int, children: int -> seq<int>, test: CurrentTest): (r: Result<(seq<Mapped>, seq<Mapped>)>)
    ensures r.Ok? <==>
      MapSide(pre, Pre, lineage, nodelist, roots, children, test).Ok? &&
      MapSide(post, Post, lineage, nodelist, roots, children, test).Ok?
    ensures MapSide(pre, Pre, lineage, nodelist, roots, children, test).Err? ==>
      r == Err(MapSide(pre, Pre, lineage, nodelist, roots, children, test).error)
    ensures r.Ok? ==> forall m :: m in r.value.0 || m in r.value.1 ==> m.level2 in nodelist
  {
    match MapSide(pre, Pre, lineage, nodelist, roots, children, test)
    case Err(e) => Err(e)
    case Ok(p) =>
      match MapSide(post, Post, lineage, nodelist, roots, children, test)
      case Err(e) => Err(e)
      case Ok(q) => Ok((p, q))
  }

  /** Every mapped synapse sits on a node, and a synapse is kept exactly when the id
      it was mapped to is a node. */
  lemma MapSideSpec(
    rows: seq<Row>, side: Side, lineage: seq<LineageEntry>, nodelist: seq<int>,
    roots: int -> int, children: int -> seq<int>, test: CurrentTest)
    requires MapSide(rows, side, lineage, nodelist, roots, children, test).Ok?
    ensures var ids := Level2Ids(Supervoxels(rows, side), lineage, nodelist, roots, children, test).value;
      |ids| == |rows| &&
      forall i :: 0 <= i < |rows| ==>
        ((Mapped(rows[i].key, rows[i].syn, roots(Supervoxel(rows[i].syn, side)), ids[i])
          in MapSide(rows, side, lineage, nodelist, roots, children, test).value) <==> ids[i] in nodelist)
  {
    var svs := Supervoxels(rows, side);
    var ids := Level2Ids(svs, lineage, nodelist, roots, children, test).value;
    var rs := Resolutions(svs, lineage, nodelist, roots, children, test);
    assert |ids| == |rows|;
    var all := seq(|rows|, i requires 0 <= i < |rows| && i < |ids| =>
      Mapped(rows[i].key, rows[i].syn, roots(svs[i]), ids[i]));
    forall i | 0 <= i < |rows|
      ensures (Mapped(rows[i].key, rows[i].syn, roots(Supervoxel(rows[i].syn, side)), ids[i])
        in MapSide(rows, side, lineage, nodelist, roots, children, test).value) <==> ids[i] in nodelist
    {
      assert all[i] == Mapped(rows[i].key, rows[i].syn, roots(Supervoxel(rows[i].syn, side)), ids[i]);
    }
  }

  /** The labels of the rows attached to node `k`, in row order. */
  function LabelsAt(rows: seq<Mapped>, k: int): seq<int> {
    if |rows| == 0 then []
    else LabelsAt(rows[..|rows| - 1], k) + (if rows[|rows| - 1].current == k then [rows[|rows| - 1].key] else [])
  }

  lemma LabelsAtSnoc(rows: seq<Mapped>, m: Mapped, k: int)
    ensures LabelsAt(rows + [m], k) == LabelsAt(rows, k) + (if m.current == k then [m.key] else [])
  {
    assert (rows + [m])[..|rows|] == rows;
  }

  /** A fresh list column: an empty list for every node. */
  function EmptyLists(ids: seq<int>): (m: map<int, seq<int>>)
    ensures m.Keys == Elems(ids)
    ensures forall k :: k in m ==> m[k] == []
  {
    map k | k in Elems(ids) :: []
  }

  /** The `has_synapses` column: whether a node's list is non-empty. */
  function NonEmpty(lists: map<int, seq<int>>): (m: map<int, bool>)
    ensures m.Keys == lists.Keys
    ensures forall k :: k in m ==> (m[k] <==> |lists[k]| > 0)
  {
    map k | k in lists :: |lists[k]| > 0
  }

  /** One loop of `apply_synapses`: append each row's label, in row order, to the
      list of the node of its current level-2 id, in both `lists` and `side`
      (which starts empty). A current id that is not a node raises `KeyError`. */
  method AttachSide(rows: seq<Mapped>, ids: seq<int>, lists: map<int, seq<int>>)
    returns (r: Result<(map<int, seq<int>>, map<int, seq<int>>)>)
    requires lists.Keys == Elems(ids)
    ensures r.Ok? <==> forall m :: m in rows ==> m.current in ids
    ensures r.Err? ==> r.error == KeyError
    ensures r.Ok? ==> r.value.0.Keys == r.value.1.Keys == Elems(ids)
    ensures r.Ok? ==> forall k :: k in Elems(ids) ==>
      r.value.0[k] == lists[k] + LabelsAt(rows, k) && r.value.1[k] == LabelsAt(rows, k)
  {
    var all := lists;
    var side := EmptyLists(ids);
    var i := 0;
    while i < |rows|
      invariant 0 <= i <= |rows|
      invariant all.Keys == side.Keys == Elems(ids)
      invariant forall t :: 0 <= t < i ==> rows[t].current in ids
      invariant forall k :: k in Elems(ids) ==>
        all[k] == lists[k] + LabelsAt(rows[..i], k) && side[k] == LabelsAt(rows[..i], k)
    {
      var m := rows[i];
      if m.current !in ids {
        return Err(KeyError);
      }
      all := all[m.current := all[m.current] + [m.key]];
      side := side[m.current := side[m.current] + [m.key]];
      assert rows[..i + 1] == rows[..i] + [m];
      forall k | k in Elems(ids)
        ensures LabelsAt(rows[..i + 1], k) == LabelsAt(rows[..i], k) + (if m.current == k then [m.key] else [])
      {
        LabelsAtSnoc(rows[..i], m, k);
      }
      i := i + 1;
    }
    assert rows[..|rows|] == rows;
    return Ok((all, side));
  }

  /** The per-node synapse list columns of a node table, written in place. */
  class NodeSynapses {
    var index: seq<int>
    var synapses: map<int, seq<int>>
    var preSynapses: map<int, seq<int>>
    var postSynapses: map<int, seq<int>>
    var hasSynapses: map<int, bool>

    predicate Valid()
      reads this
    {
      synapses.Keys == preSynapses.Keys == postSynapses.Keys == hasSynapses.Keys == Elems(index)
    }

    constructor (ids: seq<int>)
      ensures index == ids && synapses == preSynapses == postSynapses == map[]
      ensures hasSynapses == map[]
    {
      index := ids;
      synapses, preSynapses, postSynapses, hasSynapses := map[], map[], map[], map[];
    }

    /** `apply_synapses` once the synapses are mapped: every node starts with empty
        lists; each pre-synapse's label is appended to the `synapses` and
        `pre_synapses` lists of the node of its CURRENT level-2 id, then likewise
        for the post-synapses; `has_synapses` says whether the `synapses` list is
        non-empty. A current id that is not a node raises `KeyError`. */
    method ApplySynapses(pre: seq<Mapped>, post: seq<Mapped>) returns (err: Option<Error>)
      modifies this
      ensures index == old(index)
      ensures err.None? <==>
        (forall m :: m in pre ==> m.current in index) && (forall m :: m in post ==> m.current in index)
      ensures err.Some? ==> err.value == KeyError
      ensures err.None? ==> Valid()
      ensures err.None? ==> forall k :: k in Elems(index) ==>
        && synapses[k] == LabelsAt(pre, k) + LabelsAt(post, k)
        && preSynapses[k] == LabelsAt(pre, k)
        && postSynapses[k] == LabelsAt(post, k)
        && (hasSynapses[k] <==> |synapses[k]| > 0)
    {
      var ids := index;
      var empty := EmptyLists(ids);
      var p := AttachSide(pre, ids, empty);
      if p.Err? {
        synapses, preSynapses, postSynapses := empty, empty, empty;
        return Some(KeyError);
      }
      var q := AttachSide(post, ids, p.value.0);
      if q.Err? {
        synapses, preSynapses, postSynapses := p.value.0, p.value.1, empty;
        return Some(KeyError);
      }
      synapses, preSynapses, postSynapses := q.value.0, p.value.1, q.value.1;
      hasSynapses := NonEmpty(q.value.0);
      return None;
    }
  }

  /** A node has synapses exactly when some mapped synapse's current id is that node,
      on either side. */
  lemma {:induction false} LabelsAtEmpty(rows: seq<Mapped>, k: int)
    ensures |LabelsAt(rows, k)| > 0 <==> exists m :: m in rows && m.current == k
  {
    if |rows| > 0 {
      var init := rows[..|rows| - 1];
      assert forall m :: m in rows <==> m in init || m == rows[|rows| - 1] by {
        assert rows == init + [rows[|rows| - 1]];
      }
      LabelsAtEmpty(init, k);
    }
  }
}
