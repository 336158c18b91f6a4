/** Time-ordered access to a neuron's edits. The animation draws, frame by frame, the
    neuron with a prefix of its time-ordered edits applied. The merge sequence starts
    from every split edit (and the edit that added the nucleus node) and greedily
    adds, one at a time, the earliest merge that touches the current neuron. */
module TimeOrdered {
  import opened Seqs
  import opened Wrappers
  import opened Graphs
  import opened NeuronFrames

  predicate ByTime(es: seq<EditRow>) {
    forall i, j :: 0 <= i < j < |es| ==> es[i].datetime <= es[j].datetime
  }

  /** `sort_values("time")`: the same rows ordered by time; rows with equal times
      may come in any order. */
  predicate SortOf(ordered: seq<EditRow>, edits: seq<EditRow>) {
    ByTime(ordered) && multiset(ordered) == multiset(edits)
  }

  // ---------------------------------------------------------------------------
  // Animation frames

  /** The edits applied in animation frame `i` as written: `edits.index[:i]`, the
      first `i` edits in time order. */
  function FrameEdits(ordered: seq<EditRow>, i: nat): (r: seq<int>)
    requires i <= |ordered|
    ensures |r| == i && forall k :: 0 <= k < i ==> r[k] == ordered[k].operationId
  {
    OperationIds(ordered)[..i]
  }

  /** As written, frame `i` is labelled with the user and time of edit `i` but does
      not apply it, and no frame applies the last edit. */
  lemma LabelledEditNotApplied(ordered: seq<EditRow>, i: nat)
    requires NoDup(OperationIds(ordered)) && i < |ordered|
    ensures ordered[i].operationId !in FrameEdits(ordered, i)
    ensures ordered[|ordered| - 1].operationId !in FrameEdits(ordered, i)
  {
    var ids := OperationIds(ordered);
    forall k | 0 <= k < i ensures FrameEdits(ordered, i)[k] != ids[i] && FrameEdits(ordered, i)[k] != ids[|ids| - 1] {
      assert FrameEdits(ordered, i)[k] == ids[k];
    }
  }

  /** Frame `i` as evidently intended: the first `i + 1` edits, so the edit whose
      user and time label the frame is applied, and the last frame applies every
      edit. */
  function FrameEditsThrough(ordered: seq<EditRow>, i: nat): (r: seq<int>)
    requires i < |ordered|
    ensures |r| == i + 1 && forall k :: 0 <= k <= i ==> r[k] == ordered[k].operationId
  {
    OperationIds(ordered)[..i + 1]
  }

  /** The labelled edit is applied in its frame, and the last frame is the neuron
      with all its edits applied. */
  lemma FrameThroughSpec(full: Neuron, ordered: seq<EditRow>, i: nat)
    requires i < |ordered|
    ensures ordered[i].operationId in FrameEditsThrough(ordered, i)
    ensures i == |ordered| - 1 ==>
      SetEdits(full, Many(FrameEditsThrough(ordered, i)), Plain) == SetEdits(full, Many(OperationIds(ordered)), Plain)
  {
    assert FrameEditsThrough(ordered, i)[i] == ordered[i].operationId;
    if i == |ordered| - 1 {
      assert OperationIds(ordered)[..i + 1] == OperationIds(ordered);
    }
  }

  /** Animation frame `i` as written: the neuron with `edits.index[:i]` applied, then
      the unguarded undirected component of the full neuron's nucleus. */
  function AnimationFrame(full: Neuron, ordered: seq<EditRow>, i: nat): (r: Result<Neuron>)
    requires i <= |ordered|
    ensures r.Err? <==> full.nucleusId !in IdSet(SetEdits(full, Many(FrameEdits(ordered, i)), Plain).nodes)
    ensures r.Err? ==> r.error == KeyError
    ensures r.Ok? ==> IdSet(r.value.nodes) <= IdSet(full.nodes)
  {
    SelectFromNode(SetEdits(full, Many(FrameEdits(ordered, i)), Plain), full.nucleusId)
  }

  /** A loop that computes `frame(0)`, `frame(1)`, ... up to `frame(n - 1)` and
      stops at the first one that raises. */
  method FrameLoop<S>(n: nat, frame: nat -> Result<S>) returns (frames: seq<S>, err: Option<Error>)
    ensures |frames| <= n
    ensures forall i :: 0 <= i < |frames| ==> frame(i) == Ok(frames[i])
    ensures err.None? ==> |frames| == n
    ensures err.Some? ==> |frames| < n && frame(|frames|) == Err(err.value)
  {
    frames := [];
    var i := 0;
    while i < n
      invariant 0 <= i <= n && |frames| == i
      invariant forall k :: 0 <= k < i ==> frame(k) == Ok(frames[k])
    {
      var r := frame(i);
      if r.Err? {
        return frames, Some(r.error);
      }
      frames := frames + [r.value];
      i := i + 1;
    }
    return frames, None;
  }

  /** The animation loop: one frame per edit, in time order; a frame whose edited
      neuron lacks the nucleus node raises and ends the loop. */
  method AnimationFrames(full: Neuron, ordered: seq<EditRow>) returns (frames: seq<Neuron>, err: Option<Error>)
    ensures |frames| <= |ordered|
    ensures forall i :: 0 <= i < |frames| ==> AnimationFrame(full, ordered, i) == Ok(frames[i])
    ensures err.None? ==> |frames| == |ordered|
    ensures err.Some? ==> |frames| < |ordered| && AnimationFrame(full, ordered, |frames|) == Err(err.value)
  {
    frames, err := FrameLoop(|ordered|, (k: nat) => if k <= |ordered| then AnimationFrame(full, ordered, k) else Err(ValueError));
  }

  /** The frames as written are the corrected frames one step late: frame `i + 1`
      applies the edits through edit `i`, and frame 0 applies none. */
  lemma {:induction false} FramesShifted(ordered: seq<EditRow>, i: nat)
    requires i < |ordered|
    ensures FrameEdits(ordered, i + 1) == FrameEditsThrough(ordered, i)
    ensures FrameEdits(ordered, 0) == []
  {
    var a, b := FrameEdits(ordered, i + 1), FrameEditsThrough(ordered, i);
    assert |a| == |b|;
    forall k | 0 <= k < |a| ensures a[k] == b[k] {
      assert a[k] == ordered[k].operationId;
    }
  }

  // ---------------------------------------------------------------------------
  // Greedy merge sequence

  /** The ids of the merge (`has_merge`) or split (`has_split`, the negation) edits,
      in time order. */
  function IdsWhere(es: seq<EditRow>, merge: bool): (r: seq<int>)
    ensures forall x :: x in r <==> exists e :: e in es && e.isMerge == merge && e.operationId == x
  {
    if |es| == 0 then []
    else
      var init := es[..|es| - 1];
      var last := es[|es| - 1];
      assert forall e :: e in es <==> e in init || e == last by { assert es == init + [last]; }
      IdsWhere(init, merge) + (if last.isMerge == merge then [last.operationId] else [])
  }

  /** The initial applied list: every split in time order, then the edit that added
      the nucleus node when that is not an original node. A neuron without its
      nucleus node is a `KeyError`. */
  function InitialApplied(full: Neuron, ordered: seq<EditRow>): (r: Result<seq<int>>)
    ensures r.Err? <==> full.nucleusId !in IdSet(full.nodes)
    ensures r.Err? ==> r.error == KeyError
    ensures r.Ok? ==> forall x :: x in r.value <==>
      x in IdsWhere(ordered, false) ||
      (x == NodeAt(full.nodes, full.nucleusId).value.prov.operationAdded && x != -1)
  {
    match NodeAt(full.nodes, full.nucleusId)
    case None => Err(KeyError)
    case Some(nuc) =>
      var splits := IdsWhere(ordered, false);
      Ok(if nuc.prov.operationAdded != -1 then splits + [nuc.prov.operationAdded] else splits)
  }

  /** The point of the edge case: with the initial edits applied, the nucleus row is
      kept exactly when no applied edit removed it, even when a merge added it. */
  lemma InitialKeepsNucleus(full: Neuron, ordered: seq<EditRow>)
    requires InitialApplied(full, ordered).Ok?
    ensures var nuc := NodeAt(full.nodes, full.nucleusId).value;
      var initial := InitialApplied(full, ordered).value;
      nuc in SetEdits(full, Many(initial), Plain).nodes <==> nuc.prov.operationRemoved !in initial
  {
    SetEditsRule(full, Many(InitialApplied(full, ordered).value), Plain);
  }

  /** An edge of the full neuron that touches the current neuron but is not one of
      its edges. */
  predicate Outgoing(e: EdgeRow, current: Neuron) {
    (e.source in IdSet(current.nodes) || e.target in IdSet(current.nodes)) && e !in current.edges
  }

  function OutgoingOps(edges: seq<EdgeRow>, current: Neuron): (r: seq<int>)
    ensures forall x :: x in r <==> exists e :: e in edges && Outgoing(e, current) && e.prov.operationAdded == x
  {
    if |edges| == 0 then []
    else
      var init := edges[..|edges| - 1];
      var last := edges[|edges| - 1];
      assert forall e :: e in edges <==> e in init || e == last by { assert edges == init + [last]; }
      OutgoingOps(init, current) + (if Outgoing(last, current) then [last.prov.operationAdded] else [])
  }

  /** `candidate_operations`: the distinct edits that added an outgoing edge, in order
      of first appearance. */
  function CandidateOperations(full: Neuron, current: Neuron): (r: seq<int>)
    ensures NoDup(r)
    ensures forall x :: x in r <==> exists e :: e in full.edges && Outgoing(e, current) && e.prov.operationAdded == x
  {
    var ops := OutgoingOps(full.edges, current);
    assert forall x :: x in Dedup(ops) <==> x in Elems(ops);
    Dedup(ops)
  }

  predicate Eligible(x: int, candidates: seq<int>, appliedMerges: seq<int>) {
    x in candidates && x !in appliedMerges
  }

  /** The choice of `select_next_operation`: the first possible merge, in time order,
      that is a candidate and not yet applied; `None` when there is none. */
  function NextOperation(possible: seq<int>, candidates: seq<int>, appliedMerges: seq<int>): (r: Option<int>)
    ensures r.None? <==> forall x :: x in possible ==> !Eligible(x, candidates, appliedMerges)
    ensures r.Some? ==> exists k :: (0 <= k < |possible| && possible[k] == r.value &&
                                     Eligible(r.value, candidates, appliedMerges) &&
                                     forall j :: 0 <= j < k ==> !Eligible(possible[j], candidates, appliedMerges))
  {
    if |possible| == 0 then None
    else if Eligible(possible[0], candidates, appliedMerges) then Some(possible[0])
    else
      var r := NextOperation(possible[1..], candidates, appliedMerges);
      assert forall x :: x in possible <==> x == possible[0] || x in possible[1..] by {
        assert possible == [possible[0]] + possible[1..];
      }
      if r.Some? then
        var k :| 0 <= k < |possible[1..]| && possible[1..][k] == r.value &&
          Eligible(r.value, candidates, appliedMerges) &&
          forall j :: 0 <= j < k ==> !Eligible(possible[1..][j], candidates, appliedMerges);
        assert possible[k + 1] == r.value;
        assert forall j :: 1 <= j < k + 1 ==> possible[j] == possible[1..][j - 1];
        r
      else r
  }

  /** One state of the sequence: the nucleus component of the neuron with the
      applied edits, its synapses pruned to it. Where the nucleus node is gone, the
      component is chosen by `fallback` (a nearest-point search). */
  function ApplyOperations(full: Neuron, applied: seq<int>, fallback: Neuron -> Neuron): (r: Result<Neuron>)
    ensures r.Err? ==> r.error == NameError
  {
    var current := SetEdits(full, Many(applied), Plain);
    var selected := if full.nucleusId in IdSet(current.nodes) then SelectNucleusComponent(current) else fallback(current);
    RemoveUnusedSynapses(selected, Both)
  }

  /** With the nucleus node present and both mapping columns in place, a state is the
      nucleus's component of the edited neuron, holding exactly the synapses on it. */
  lemma ApplyOperationsSpec(full: Neuron, applied: seq<int>, fallback: Neuron -> Neuron)
    requires full.nucleusId in IdSet(SetEdits(full, Many(applied), Plain).nodes)
    requires full.preCol in full.pre.columns && full.postCol in full.post.columns
    ensures var current := SetEdits(full, Many(applied), Plain);
      var r := ApplyOperations(full, applied, fallback);
      r.Ok? &&
      IdSet(r.value.nodes) == ComponentOf(Shape(current), full.nucleusId) &&
      full.nucleusId in IdSet(r.value.nodes) &&
      (forall s :: s in r.value.pre.rows <==>
        s in full.pre.rows && full.preCol in s && s[full.preCol] in IdSet(r.value.nodes))
  {
    var current := SetEdits(full, Many(applied), Plain);
    SetEditsRule(full, Many(applied), Plain);
    SelectNucleusComponentSpec(current);
    RemoveUnusedSynapsesSpec(SelectNucleusComponent(current), Both);
  }

  /** `applied_op_ids` and the global `applied_merges`, which `select_next_operation`
      appends to. */
  class MergeSequence {
    var applied: seq<int>
    var appliedMerges: seq<int>

    constructor (initial: seq<int>)
      ensures applied == initial && appliedMerges == []
    {
      applied := initial;
      appliedMerges := [];
    }

    /** The tail of `select_next_operation`: no choice returns `false`; a choice is
        appended to both lists. */
    method Record(next: Option<int>) returns (more: bool)
      modifies this
      ensures more == next.Some?
      ensures more ==> applied == old(applied) + [next.value] && appliedMerges == old(appliedMerges) + [next.value]
      ensures !more ==> applied == old(applied) && appliedMerges == old(appliedMerges)
    {
      if next.None? {
        return false;
      }
      applied := applied + [next.value];
      appliedMerges := appliedMerges + [next.value];
      return true;
    }

    /** `select_next_operation`: `false` when no candidate merge remains unapplied;
        otherwise the earliest one is appended to both lists. */
    method SelectNextOperation(full: Neuron, current: Neuron, possible: seq<int>) returns (more: bool)
      modifies this
      ensures var next := NextOperation(possible, CandidateOperations(full, current), old(appliedMerges));
        more == next.Some? &&
        (more ==> applied == old(applied) + [next.value] && appliedMerges == old(appliedMerges) + [next.value]) &&
        (!more ==> applied == old(applied) && appliedMerges == old(appliedMerges))
    {
      var candidates := CandidateOperations(full, current);
      more := Record(NextOperation(possible, candidates, appliedMerges));
    }
  }

  /** A greedy sequence over states of any kind: state `k` is what `apply` gives for
      the initial list followed by the first `k` choices, and choice `k` is what
      `pick` makes of state `k` and the choices before it. */
  predicate GreedyOver<S(==)>(apply: seq<int> -> Result<S>, pick: (S, seq<int>) -> Option<int>,
                              initial: seq<int>, states: seq<S>, chosen: seq<int>) {
    |chosen| <= |states| &&
    (forall k :: 0 <= k < |states| && k <= |chosen| ==> apply(initial + chosen[..k]) == Ok(states[k])) &&
    (forall k :: 0 <= k < |chosen| ==> pick(states[k], chosen[..k]) == Some(chosen[k]))
  }

  lemma GreedyOverAddState<S>(apply: seq<int> -> Result<S>, pick: (S, seq<int>) -> Option<int>,
                              initial: seq<int>, states: seq<S>, chosen: seq<int>, state: S)
    requires GreedyOver(apply, pick, initial, states, chosen) && |states| == |chosen|
    requires apply(initial + chosen) == Ok(state)
    ensures GreedyOver(apply, pick, initial, states + [state], chosen)
  {
    var ns := states + [state];
    forall k | 0 <= k < |ns| && k <= |chosen| ensures apply(initial + chosen[..k]) == Ok(ns[k]) {
      if k < |states| {
        assert ns[k] == states[k];
      } else {
        assert chosen[..k] == chosen;
      }
    }
  }

  lemma GreedyOverAddChoice<S>(apply: seq<int> -> Result<S>, pick: (S, seq<int>) -> Option<int>,
                               initial: seq<int>, states: seq<S>, chosen: seq<int>, x: int)
    requires GreedyOver(apply, pick, initial, states, chosen) && |states| == |chosen| + 1
    requires pick(states[|chosen|], chosen) == Some(x)
    ensures GreedyOver(apply, pick, initial, states, chosen + [x])
  {
    var cs := chosen + [x];
    forall k | 0 <= k <= |chosen| ensures cs[..k] == chosen[..k] {
    }
    assert chosen[..|chosen|] == chosen;
  }

  /** `pick` only chooses a possible merge that was not chosen before. */
  ghost predicate PicksFresh<S(!new)>(pick: (S, seq<int>) -> Option<int>, possible: seq<int>) {
    forall st, ch :: pick(st, ch).Some? ==> pick(st, ch).value in possible && pick(st, ch).value !in ch
  }

  lemma PicksFreshAt<S(!new)>(pick: (S, seq<int>) -> Option<int>, possible: seq<int>, st: S, ch: seq<int>)
    requires PicksFresh(pick, possible)
    ensures pick(st, ch).Some? ==> pick(st, ch).value in possible && pick(st, ch).value !in ch
  {
  }

  /** The record the main loop keeps: no merge chosen twice, only possible merges
      chosen, a greedy sequence, and each state recorded with the merge before it. */
  ghost predicate Progress<S>(apply: seq<int> -> Result<S>, pick: (S, seq<int>) -> Option<int>,
                                  initial: seq<int>, possible: seq<int>,
                                  states: seq<S>, lastOps: seq<Option<int>>, chosen: seq<int>) {
    NoDup(chosen) && Elems(chosen) <= Elems(possible) &&
    |lastOps| == |states| <= |chosen| + 1 &&
    GreedyOver(apply, pick, initial, states, chosen) &&
    forall k :: 0 <= k < |lastOps| ==> lastOps[k] == if k == 0 then None else Some(chosen[k - 1])
  }

  lemma ProgressAddState<S>(apply: seq<int> -> Result<S>, pick: (S, seq<int>) -> Option<int>,
                            initial: seq<int>, possible: seq<int>,
                            states: seq<S>, lastOps: seq<Option<int>>, chosen: seq<int>, state: S)
    requires Progress(apply, pick, initial, possible, states, lastOps, chosen) && |states| == |chosen|
    requires apply(initial + chosen) == Ok(state)
    ensures Progress(apply, pick, initial, possible, states + [state],
                     lastOps + [if |chosen| > 0 then Some(chosen[|chosen| - 1]) else None], chosen)
  {
    GreedyOverAddState(apply, pick, initial, states, chosen, state);
  }

  lemma ProgressAddChoice<S(!new)>(apply: seq<int> -> Result<S>, pick: (S, seq<int>) -> Option<int>,
                                   initial: seq<int>, possible: seq<int>,
                                   states: seq<S>, lastOps: seq<Option<int>>, chosen: seq<int>, x: int)
    requires Progress(apply, pick, initial, possible, states, lastOps, chosen) && |states| == |chosen| + 1
    requires PicksFresh(pick, possible) && pick(states[|chosen|], chosen) == Some(x)
    ensures Progress(apply, pick, initial, possible, states, lastOps, chosen + [x])
  {
    PicksFreshAt(pick, possible, states[|chosen|], chosen);
    GreedyOverAddChoice(apply, pick, initial, states, chosen, x);
    NoDupSnoc(chosen, x);
    var cs := chosen + [x];
    forall k | 0 <= k < |lastOps| ensures lastOps[k] == if k == 0 then None else Some(cs[k - 1]) {
    }
  }

  /** The main loop over any `apply` and `pick`: apply the current list, record the
      state with the last choice (none in the first pass), let `pick` choose the next
      merge and record it on `s`, stop when it chooses none; at most one pass more
      than there are possible merges. An error of `apply` ends the loop. */
  method GreedyLoop<S(==,!new)>(s: MergeSequence, apply: seq<int> -> Result<S>, pick: (S, seq<int>) -> Option<int>,
                                initial: seq<int>, possible: seq<int>)
    returns (err: Option<Error>, states: seq<S>, lastOps: seq<Option<int>>, chosen: seq<int>)
    requires s.applied == initial && s.appliedMerges == []
    requires PicksFresh(pick, possible)
    modifies s
    ensures s.applied == initial + chosen && s.appliedMerges == chosen
    ensures Progress(apply, pick, initial, possible, states, lastOps, chosen)
    ensures err.Some? ==> apply(initial + chosen) == Err(err.value)
    ensures err.None? ==> 0 < |states| <= |possible| + 1
    ensures err.None? && NoDup(possible) ==>
      |chosen| == |states| - 1 && pick(states[|states| - 1], chosen).None?
  {
    states, lastOps, chosen := [], [], [];
    var stopped := false;
    var i := 0;
    while !stopped && i < |possible| + 1
      invariant 0 <= i <= |possible| + 1 && (stopped ==> i <= |possible|)
      invariant s.applied == initial + s.appliedMerges && chosen == s.appliedMerges
      invariant |chosen| == i && |states| == i + (if stopped then 1 else 0)
      invariant Progress(apply, pick, initial, possible, states, lastOps, chosen)
      invariant stopped ==> pick(states[|states| - 1], chosen).None?
    {
      var r := apply(s.applied);
      if r.Err? {
        return Some(r.error), states, lastOps, chosen;
      }
      var lastOp := if i > 0 then Some(s.applied[|s.applied| - 1]) else None;
      assert lastOp == if |chosen| > 0 then Some(chosen[|chosen| - 1]) else None;
      ProgressAddState(apply, pick, initial, possible, states, lastOps, chosen, r.value);
      states := states + [r.value];
      lastOps := lastOps + [lastOp];
      var next := pick(r.value, chosen);
      var more := s.Record(next);
      if !more {
        stopped := true;
      } else {
        ProgressAddChoice(apply, pick, initial, possible, states, lastOps, chosen, next.value);
        chosen := chosen + [next.value];
        i := i + 1;
      }
    }
    if NoDup(possible) && !stopped {
      NoDupSubLength(chosen, possible);
      assert false;
    }
    return None, states, lastOps, chosen;
  }

  /** The states of the script: the edited neuron for an applied list. */
  function Applier(full: Neuron, fallback: Neuron -> Neuron): seq<int> -> Result<Neuron> {
    (applied: seq<int>) => ApplyOperations(full, applied, fallback)
  }

  /** The merge `select_next_operation` picks in a state. */
  function Pick(full: Neuron, merges: seq<int>): (Neuron, seq<int>) -> Option<int> {
    (current: Neuron, chosen: seq<int>) => NextOperation(merges, CandidateOperations(full, current), chosen)
  }

  /** The greedy merge sequence: state `k` applies the initial edits and the first
      `k` chosen merges, and each chosen merge is the one `select_next_operation`
      picks in the state before it. */
  predicate Greedy(full: Neuron, initial: seq<int>, merges: seq<int>, fallback: Neuron -> Neuron,
                   neurons: seq<Neuron>, chosen: seq<int>) {
    GreedyOver(Applier(full, fallback), Pick(full, merges), initial, neurons, chosen)
  }

  /** What `Greedy` states, spelled out. */
  lemma GreedyStates(full: Neuron, initial: seq<int>, merges: seq<int>, fallback: Neuron -> Neuron,
                     neurons: seq<Neuron>, chosen: seq<int>, k: nat)
    requires Greedy(full, initial, merges, fallback, neurons, chosen)
    requires k < |neurons| && k <= |chosen|
    ensures ApplyOperations(full, initial + chosen[..k], fallback) == Ok(neurons[k])
    ensures k < |chosen| ==> NextOperation(merges, CandidateOperations(full, neurons[k]), chosen[..k]) == Some(chosen[k])
  {
    assert Applier(full, fallback)(initial + chosen[..k]) == Ok(neurons[k]);
    if k < |chosen| {
      assert Pick(full, merges)(neurons[k], chosen[..k]) == Some(chosen[k]);
    }
  }

  /** A chosen merge is a possible one that was not applied before. */
  lemma PickChoice(full: Neuron, merges: seq<int>)
    ensures PicksFresh(Pick(full, merges), merges)
  {
    forall st, ch | Pick(full, merges)(st, ch).Some?
      ensures Pick(full, merges)(st, ch).value in merges && Pick(full, merges)(st, ch).value !in ch
    {
      var next := NextOperation(merges, CandidateOperations(full, st), ch);
      assert next == Pick(full, merges)(st, ch);
    }
  }

  /** What the main loop promises for the initial list `initial` and the merges
      `merges`: the sequence is greedy, never repeats a merge, records each state
      with the merge that led to it (`None` for the first), and has at most one state
      more than there are merges. An error is the one applying the chosen merges
      raised; without one, when merge ids are distinct, the loop ends only when no
      candidate merge of the last state is left. */
  predicate Resolved(full: Neuron, initial: seq<int>, merges: seq<int>, fallback: Neuron -> Neuron,
                     err: Option<Error>, neurons: seq<Neuron>, lastOps: seq<Option<int>>, chosen: seq<int>) {
    NoDup(chosen) && Elems(chosen) <= Elems(merges) &&
    |lastOps| == |neurons| <= |chosen| + 1 &&
    Greedy(full, initial, merges, fallback, neurons, chosen) &&
    (forall k :: 0 <= k < |lastOps| ==> lastOps[k] == if k == 0 then None else Some(chosen[k - 1])) &&
    (err.Some? ==> ApplyOperations(full, initial + chosen, fallback) == Err(err.value)) &&
    (err.None? ==> 0 < |neurons| <= |merges| + 1) &&
    (err.None? && NoDup(merges) ==>
       |chosen| == |neurons| - 1 &&
       NextOperation(merges, CandidateOperations(full, neurons[|neurons| - 1]), chosen).None?)
  }

  /** The generic loop instantiated with the script's `apply` and `pick`. */
  lemma LoopResolves(full: Neuron, initial: seq<int>, merges: seq<int>, fallback: Neuron -> Neuron,
                     err: Option<Error>, neurons: seq<Neuron>, lastOps: seq<Option<int>>, chosen: seq<int>)
    requires Progress(Applier(full, fallback), Pick(full, merges), initial, merges, neurons, lastOps, chosen)
    requires err.Some? ==> Applier(full, fallback)(initial + chosen) == Err(err.value)
    requires err.None? ==> 0 < |neurons| <= |merges| + 1
    requires err.None? && NoDup(merges) ==>
      |chosen| == |neurons| - 1 && Pick(full, merges)(neurons[|neurons| - 1], chosen).None?
    ensures Resolved(full, initial, merges, fallback, err, neurons, lastOps, chosen)
  {
    if err.None? && NoDup(merges) {
      assert Pick(full, merges)(neurons[|neurons| - 1], chosen) ==
        NextOperation(merges, CandidateOperations(full, neurons[|neurons| - 1]), chosen);
    }
    if err.Some? {
      assert Applier(full, fallback)(initial + chosen) == ApplyOperations(full, initial + chosen, fallback);
    }
  }

  /** The whole script after loading: the initial list, then the main loop. A neuron
      without its nucleus node is a `KeyError`; otherwise the loop's outcome is
      `Resolved`. */
  method ResolveMerges(full: Neuron, ordered: seq<EditRow>, fallback: Neuron -> Neuron)
    returns (err: Option<Error>, neurons: seq<Neuron>, lastOps: seq<Option<int>>, chosen: seq<int>)
    ensures full.nucleusId !in IdSet(full.nodes) <==> err == Some(KeyError) && InitialApplied(full, ordered).Err?
    ensures InitialApplied(full, ordered).Ok? ==>
      Resolved(full, InitialApplied(full, ordered).value, IdsWhere(ordered, true), fallback, err, neurons, lastOps, chosen)
  {
    var start := InitialApplied(full, ordered);
    if start.Err? {
      return Some(start.error), [], [], [];
    }
    var initial := start.value;
    var merges := IdsWhere(ordered, true);
    var s := new MergeSequence(initial);
    PickChoice(full, merges);
    err, neurons, lastOps, chosen := GreedyLoop(s, Applier(full, fallback), Pick(full, merges), initial, merges);
    LoopResolves(full, initial, merges, fallback, err, neurons, lastOps, chosen);
  }
}
