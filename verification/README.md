# skedits: level-2 edit deltas, replay and edit sequences

This project models the core of skedits, a toolkit that reconstructs how a
proofread neuron's level-2 graph changed edit by edit. The graph's nodes are
level-2 chunk ids and its edges are ordered `(source, target)` pairs. Every
merge or split operation in a neuron's change log becomes a *network delta*:
the nodes and edges it removed and the nodes and edges it added. A *lineage
graph* links each removed node to each added node of the same operation, and
the weakly connected components of that graph group the operations into
numbered *meta-operations*.

On top of the deltas the model covers:

- the neuron frame's edit-state selection (`set_edits`), synapse pruning,
  nucleus-component selection and validating setters;
- the replay scripts: chronological, per-operation and randomly permuted
  replays, with the merge and split component checks;
- synapse-to-edit mapping, single-edit dropout and greedy time-ordered merge
  selection;
- segment labelling, bout exemplars and result file-name parsing;
- the interval and join logic behind the induced subgraph of many neurons.

Each Python module is a Dafny module with a matching name:

| module | file |
|---|---|
| `Changes` | `changes.dfy` |
| `NeuronFrames` | `neuronframe.dfy` |
| `Wrangle` | `wrangle.dfy` |
| `Morphology` | `morphology.dfy` |
| `Synapses` | `synapses.dfy` |
| `Replay` | `replay.dfy` |
| `EditGraphFrame` | `edit_graph_frame.dfy` |
| `RemixEdits` | `remix_edits.dfy` |
| `SynapseEditMapping` | `synapse_edit_mapping.dfy` |
| `SingleEditDropout` | `single_edit_dropout.dfy` |
| `TimeOrdered` | `time_ordered.dfy` |
| `ViewSegments` | `view_segments.dfy` |
| `LoadSequences` | `load_sequences.dfy` |
| `SequenceMetrics` | `sequence_metrics.dfy` |
| `FileNames` | `file_names.dfy` |
| `SubgraphPower` | `subgraph_power.dfy` |

There are also three shared modules:

- `Graphs` (`graph.dfy`): the graph value and the in-place `Frame`, with undirected connected components;
- `Seqs`: sequence helpers;
- `Wrappers`: `Option` and `Result` with the Python exception kinds.

Tables are sequences of rows and column values are integers. A pandas NaN is
`None`. A raised exception is an `Err` carrying its kind. Anything that calls
a service is a parameter of the model:

- the chunkedgraph, materialize and l2cache clients;
- the change-log details;
- neuron loading;
- sequence construction.

Timestamps are integer seconds.

The graph frame library the scripts use is not part of this model. Its
operations are modelled in `Graphs` under these stated assumptions:

- removing nodes also drops every edge that touches them;
- adding nodes or edges is a plain union;
- two frames are equal when their node sets and their sets of ordered edges are equal;
- connected components are the undirected closures over edges whose two ends are both nodes.

## Model

| member | source | states |
|---|---|---|
| Changes.ChangedEdges | pkg/pkg/edits/changes.py:18-22 | every removed edge is a before pair absent after, every added edge an after pair absent before, and neither result is longer than its input |
| Changes.ChangedEdgesAreDifferences | pkg/pkg/edits/changes.py:13-23 | for duplicate-free tables, removed edges are exactly before minus after and added edges exactly after minus before, and the two results are disjoint |
| Changes.ChangedEdgesDropRepeats | pkg/pkg/edits/changes.py:14-20 | a pair occurring twice in one input is in neither result, because the de-duplicated tables are discarded |
| Changes.ChangedEdgesDirected | pkg/pkg/edits/changes.py:18-20 | edges are ordered pairs: replacing (a, b) by (b, a) removes (a, b) and adds (b, a) |
| Changes.GetChangedEdges | pkg/pkg/edits/changes.py:13-23 | both input tables gain the `is_before` column (true before, false after) with their rows unchanged, and the results are the changed edges of the original rows |
| Changes.SortByTime | pkg/pkg/edits/changes.py:31 | the log's rows, as a permutation, sorted by timestamp |
| Changes.BatchesCover | pkg/pkg/edits/changes.py:35-40 | the request batches cover the ids exactly once and in order, each with between 1 and 500 ids |
| Changes.JoinDetails | pkg/pkg/edits/changes.py:52 | every log row keeps its place and gets the details of its operation exactly when some were returned |
| Changes.TimeOrderedIds | pkg/pkg/edits/changes.py:30-31 | one operation id per log row, exactly the log's ids |
| Changes.RequestDetails | pkg/pkg/edits/changes.py:36-41 | the batch loop's result is the fold of the detail requests over the batches, ending at the first failed request |
| Changes.GetDetailedChangeLog | pkg/pkg/edits/changes.py:26-54 | a failed request raises its own error (the handler re-raises `HTTPError` as `HTTPError` and lets any other error through), a detail count different from the log length raises `AssertionError`, and otherwise the result is the time-ordered log joined with the details |
| Changes.IndexDifference | pkg/pkg/edits/changes.py:120-123 | the ids of one index not in the other, sorted and unique |
| Changes.OperationDelta | pkg/pkg/edits/changes.py:119-133 | added nodes are after minus before, removed nodes before minus after, the two are disjoint and sorted |
| Changes.ApplyDelta | experiments/graph_frame_remix_edits.py:69-72 | nodes become (old + added) − removed; edges become old + added edges, minus those touching a removed node, minus removed edges |
| Changes.OperationDeltaEdges | pkg/pkg/edits/changes.py:119-128 | for well-formed before and after graphs, the after edges are exactly what applying the delta's edge changes to the before edges gives |
| Changes.ApplyOperationDelta | pkg/pkg/edits/changes.py:119-133 | replaying an operation's delta on its before graph gives its after graph |
| Changes.DeltasCommute | pkg/pkg/edits/changes.py:57-64 | two deltas neither of which adds what the other removes give the same graph in either order |
| Changes.DeltasNeedIndependence | pkg/pkg/edits/changes.py:57-64 | a delta that re-adds a node another removes does not commute with it |
| Changes.Concat | pkg/pkg/edits/changes.py:68-88 | a value is in the concatenation exactly when it is in some member's list |
| Changes.CombineDeltas | pkg/pkg/edits/changes.py:67-92 | succeeds exactly when there is a member and no node id or (source, target) key repeats among the added or among the removed lists, else `ValueError`; each combined list holds exactly the members' entries |
| Changes.CombineAcceptsAddThenRemove | pkg/pkg/edits/changes.py:67-92 | a node added by one member and removed by another is accepted |
| Changes.CombineRejectsRepeatedAdd | pkg/pkg/edits/changes.py:67-92 | a node added by two members is rejected with `ValueError` |
| Changes.AddArc | pkg/pkg/edits/changes.py:138-140 | `add_edge` adds the edge and its ends and overwrites the edge's attributes |
| Changes.AddRowSpec | pkg/pkg/edits/changes.py:137-140 | the inner loop adds exactly the edges from one removed node to each added node, labelled with the operation, other labels untouched |
| Changes.AddBlockSpec | pkg/pkg/edits/changes.py:136-140 | the nested loops add exactly removed × added, labelled with the operation, other labels untouched |
| Changes.RowDeltas | pkg/pkg/edits/changes.py:100-133 | one delta per change-log row, labelled with the row's operation id and merge flag |
| Changes.RowDeltasDisjoint | pkg/pkg/edits/changes.py:119-123 | no row's delta both removes and adds a node |
| Changes.LineageGraph.AddEdge | pkg/pkg/edits/changes.py:138-140 | the lineage graph becomes `AddArc` of its old value |
| Changes.LinkToAdded | pkg/pkg/edits/changes.py:137-140 | the inner loop leaves the lineage graph equal to `AddRow` of its old value |
| Changes.LinkRemovedToAdded | pkg/pkg/edits/changes.py:136-140 | the nested loops leave the lineage graph equal to `AddBlock` of its old value |
| Changes.EditsSnoc | pkg/pkg/edits/changes.py:100-140 | one more row extends the delta map by that operation and the lineage by its removed × added block |
| Changes.GetNetworkEdits | pkg/pkg/edits/changes.py:95-142 | the delta dictionary and the lineage graph are the folds of the rows' deltas in change-log order |
| Changes.LineageEdges | pkg/pkg/edits/changes.py:136-140 | the lineage edges are exactly the removed × added pairs of the operations |
| Changes.LineageAttributes | pkg/pkg/edits/changes.py:138-140 | each lineage edge carries the attributes of the last operation whose block contains it |
| Changes.DeltasByOperation | pkg/pkg/edits/changes.py:131-133 | with distinct operation ids, the dictionary's keys are the ids and each holds its operation's delta |
| Changes.DeltaMap | pkg/pkg/edits/changes.py:99-133 | the dictionary of deltas has exactly the operation ids of the change log as keys |
| Changes.DeltaMapLastWins | pkg/pkg/edits/changes.py:131-133 | an operation whose id no later operation repeats keeps its own delta under that id (a repeated id is overwritten by the later operation) |
| Changes.LineageNoSelfLoop | pkg/pkg/edits/changes.py:136-140 | no lineage edge is a self-loop when no operation both removes and adds a node |
| Changes.EditsCoherent | pkg/pkg/edits/changes.py:95-142 | with distinct ids, every lineage edge's operation has a delta whose block contains the edge, and that whole block is in the lineage |
| Changes.LabelsOf | pkg/pkg/edits/changes.py:150-151 | an operation is gathered exactly when it labels one of the component's edges |
| Changes.MetaOperationMap | pkg/pkg/edits/changes.py:146-152 | one entry per weak component, holding the operations on that component's edges |
| Changes.OperationComponent | pkg/pkg/edits/changes.py:147-151 | two lineage edges of one operation lie in the same weak component |
| Changes.MetaOperationsDisjoint | pkg/pkg/edits/changes.py:145-152 | meta-operations are pairwise disjoint |
| Changes.CollectOperations | pkg/pkg/edits/changes.py:149-151 | the loop gathers each distinct operation id of the component's edges once |
| Changes.LookupDeltas | pkg/pkg/edits/changes.py:157 | the list comprehension succeeds exactly when every id has a delta, else `KeyError`, and holds the deltas in order |
| Changes.CombineGroup | pkg/pkg/edits/changes.py:156-158 | a group naming an operation without a delta raises `KeyError`, an empty group raises `ValueError` (the concatenation of nothing), and a combined group only names operations that have deltas |
| Changes.Collect | pkg/pkg/edits/changes.py:155-159 | a failed run fails with the error of one of its steps |
| Changes.CombineGroups | pkg/pkg/edits/changes.py:154-159 | on success the dictionary is keyed by exactly the meta-operation numbers 0 .. n - 1; a failure is `KeyError` or `ValueError` |
| Changes.CollectSpec | pkg/pkg/edits/changes.py:154-159 | the dictionary is built exactly when every group combines, and then entry i holds group i's delta |
| Changes.MetaGroups | pkg/pkg/edits/changes.py:155 | one operation group per meta-operation, in order |
| Changes.GetNetworkMetaedits | pkg/pkg/edits/changes.py:145-161 | returns the meta-operation map and the combination of each meta-operation's deltas |
| Changes.GroupOperations | pkg/pkg/edits/changes.py:146-152 | the first loop builds exactly the meta-operation map: entry i is the set of operations on the edges of weak component i |
| Changes.CombineEach | pkg/pkg/edits/changes.py:154-159 | the combining loop stops at the first failure and otherwise stores every group's delta |
| Changes.MetaLookupSucceeds | pkg/pkg/edits/changes.py:157 | with coherent deltas and lineage, no meta-operation fails on a missing operation id |
| Changes.CombineGroupNodes | pkg/pkg/edits/changes.py:156-158 | a meta-operation's delta adds exactly the nodes its operations add and removes exactly those they remove |
| Changes.FindSupervoxelComponent | pkg/pkg/edits/changes.py:164-169 | the component holding the supervoxel's level-2 id, or none |
| Changes.EdgeTable.constructor | pkg/pkg/edits/changes.py:13-15 | an edge table holds its rows and has no `is_before` column until `get_changed_edges` writes one |
| Changes.LineageGraph.constructor | pkg/pkg/edits/changes.py:98 | the lineage graph starts empty |
| Changes.LineageOf | pkg/pkg/edits/changes.py:136-140 | linking the removed × added nodes of every operation in turn keeps the lineage graph well formed |
| Changes.OperationBridge | pkg/pkg/edits/changes.py:136-140 | two lineage edges of one operation are bridged by the lineage edge from the first's source to the second's target |
| Changes.MetaOperationEdge | pkg/pkg/edits/changes.py:148-152 | every operation of a meta-operation labels an edge of that meta-operation's component |
| Changes.MetaOperationHome | pkg/pkg/edits/changes.py:145-152 | an operation belongs to at most one meta-operation, since its removed × added edges join all its lineage edges into one weak component |
| Graphs.PlusNodes | sandbox/graph_frame_replay_edits.py:248 | `add_nodes` adds exactly the listed ids to the node set and leaves the edges alone |
| Graphs.PlusEdges | sandbox/graph_frame_replay_edits.py:249 | `add_edges` adds exactly the listed pairs to the edge set and leaves the nodes alone |
| Graphs.MinusNodes | sandbox/graph_frame_replay_edits.py:250 | `remove_nodes` drops the listed ids and every edge touching one of them |
| Graphs.MinusEdges | sandbox/graph_frame_replay_edits.py:251 | `remove_edges` drops exactly the listed pairs and leaves the nodes alone |
| Graphs.Induced | pkg/pkg/morphology/morphology.py:106 | the sub-frame on a node set keeps those nodes and exactly the edges with both ends among them |
| Graphs.Join | pkg/pkg/edits/changes.py:166 | joining along one edge keeps the node set, never separates nodes already together, and puts the edge's ends together |
| Graphs.Labels | pkg/pkg/edits/changes.py:166 | every node gets a label, and the two ends of every edge share one |
| Graphs.LabelsLinked | pkg/pkg/edits/changes.py:166 | two nodes with the same label are joined by an undirected walk, so labels are exactly the components |
| Graphs.ComponentLabels | pkg/pkg/edits/changes.py:166 | the components are enumerated once each |
| Graphs.Components | pkg/pkg/edits/changes.py:166 | one sub-frame per component label |
| Graphs.FirstContaining | pkg/pkg/edits/changes.py:166-169 | the first frame whose node index holds the id, with none before it, or none at all |
| Graphs.SearchComponents | sandbox/graph_frame_replay_edits.py:261-264 | the loop over the components returns the first one holding the id, or none |
| Graphs.ComponentNodes | pkg/pkg/edits/changes.py:166 | a component holds exactly the nodes carrying its label |
| Graphs.ComponentsPartition | experiments/edit_graph_frame.py:146 | components are pairwise disjoint and cover every node |
| Graphs.ComponentNonEmpty | experiments/edit_graph_frame.py:146 | no component is empty |
| Graphs.FindComponentSpec | pkg/pkg/edits/changes.py:164-169 | the lookup finds a component exactly when the id is a node, and it is the induced sub-frame on that node's component |
| Graphs.ComponentLinked | pkg/pkg/morphology/morphology.py:106 | every node of a component is joined to the chosen node by a walk |
| Graphs.ComponentClosed | pkg/pkg/morphology/morphology.py:106 | an edge between nodes has both ends in a component or neither |
| Graphs.ComponentEdgeInside | experiments/edit_graph_frame.py:146-161 | the same holds for every enumerated component |
| Graphs.Frame.constructor | experiments/edit_graph_frame.py:124 | a frame built from node and edge tables holds exactly them |
| Graphs.Frame.AddNodes | experiments/edit_graph_frame.py:136 | in place, the frame becomes `PlusNodes` of its old value |
| Graphs.Frame.AddEdges | experiments/edit_graph_frame.py:137 | in place, the frame becomes `PlusEdges` of its old value |
| Graphs.Frame.RemoveNodes | experiments/edit_graph_frame.py:141 | in place, the frame becomes `MinusNodes` of its old value |
| Graphs.Frame.RemoveEdges | experiments/edit_graph_frame.py:142 | in place, the frame becomes `MinusEdges` of its old value |
| Wrangle.Endpoints | pkg/pkg/utils/wrangle.py:40-42 | both ends of every edge, two per edge |
| Wrangle.EndpointsSpec | pkg/pkg/utils/wrangle.py:40-42 | a value is an endpoint exactly when it is the source or target of some edge |
| Wrangle.CollectNodes | pkg/pkg/utils/wrangle.py:39-43 | the nested loop leaves the node list equal to the endpoints without repeats |
| Wrangle.Level2NodesEdges | pkg/pkg/utils/wrangle.py:26-55 | a failure is either the `ValueError` of an empty edge list or the service's own exception passed on; a success has nodes and edges without repeats |
| Wrangle.GetLevel2NodesEdges | pkg/pkg/utils/wrangle.py:26-55 | the method's result is `Level2NodesEdges` of the service's answer |
| Wrangle.Level2NodesEdgesSpec | pkg/pkg/utils/wrangle.py:26-55 | succeeds exactly for a non-empty edge list or an `HTTPError` with one leaf; then nodes are exactly the endpoints, nodes and edges have no repeats, and the edge set is the listed pairs |
| Wrangle.FallbackEmpty | pkg/pkg/utils/wrangle.py:29-37 | the single-leaf fallback gives an empty frame; any other leaf count re-raises `HTTPError` |
| Wrangle.ReversedEdgeKept | pkg/pkg/utils/wrangle.py:53 | an edge and its reverse are both kept |
| Wrangle.RepeatedEdgeDropped | pkg/pkg/utils/wrangle.py:53 | a repeated row is kept once, at its first position |
| Wrangle.ToXyz | pkg/pkg/utils/wrangle.py:83-89 | positions 0, 1, 2 name the x, y and z axes, and the axis repeats with period three |
| Wrangle.ExplodeOne | pkg/pkg/utils/wrangle.py:81 | one row per coordinate, or a single missing value for an empty list |
| Wrangle.PtToXyz | pkg/pkg/utils/wrangle.py:76-94 | on success, one x, y, z row per point id |
| Wrangle.FilledKeys | pkg/pkg/utils/wrangle.py:91-92 | three-dimensional points fill cells exactly for their own ids |
| Wrangle.ExplodeThreeD | pkg/pkg/utils/wrangle.py:81 | three-dimensional points explode to three rows each |
| Wrangle.ExplodeThree | pkg/pkg/utils/wrangle.py:81 | a point with three coordinates explodes to its x, y and z entries, in that order |
| Wrangle.CellsAppendPoint | pkg/pkg/utils/wrangle.py:83-92 | three entries of a new id starting at a multiple of three fill its x, y and z |
| Wrangle.LastIdFresh | pkg/pkg/utils/wrangle.py:92 | the last point of distinct-id points has an id no earlier point has |
| Wrangle.CellsThreeD | pkg/pkg/utils/wrangle.py:81-92 | three-dimensional points with distinct ids pivot without a clash, filling exactly their own cells |
| Wrangle.PtToXyzThreeD | pkg/pkg/utils/wrangle.py:76-94 | then each point's x, y and z are its first, second and third coordinate |
| Wrangle.FilledValue | pkg/pkg/utils/wrangle.py:91-92 | each point's three cells hold its coordinates in order |
| Wrangle.ShiftedAxes | pkg/pkg/utils/wrangle.py:83-91 | axes follow global positions: after a two-coordinate point the next point's coordinates land on shifted axes |
| Morphology.FindComponentByL2Id | pkg/pkg/morphology/morphology.py:103-110 | none exactly when the id is not a node |
| Morphology.FindComponentByL2IdSpec | pkg/pkg/morphology/morphology.py:103-110 | the found frame holds the id, exactly the nodes of its undirected component and the edges among them, and equals what the component loop of `find_supervoxel_component` finds |
| Morphology.NucleusColumn.constructor | pkg/pkg/morphology/morphology.py:98 | a fresh column is False on every row |
| Morphology.NucleusColumn.ApplyNucleus | pkg/pkg/morphology/morphology.py:95-100 | the column is True exactly on the rows labelled with the nucleus id, a missing label is appended, and the id is returned |
| Morphology.Broadcast | pkg/pkg/morphology/morphology.py:77 | element-wise product for equal lengths or a length-one side, `ValueError` for any other shape |
| Morphology.GetSomaPoint | pkg/pkg/morphology/morphology.py:67-78 | the first row scaled by 4, 4, 40; an empty query gives `IndexError`, a mis-shaped position `ValueError` |
| Morphology.SomaPointFirstRow | pkg/pkg/morphology/morphology.py:75 | later rows never change the result |
| Synapses.Syns | pkg/pkg/morphology/synapses.py:37-40 | the synapses of the rows, in row order |
| Synapses.Matching | pkg/pkg/morphology/synapses.py:37-40 | the query keeps exactly the table's synapses whose root on that side is a latest root |
| Synapses.Positional | pkg/pkg/morphology/synapses.py:37-41 | as written, rows are labelled 0, 1, 2, … by position, because the result of `set_index("id")` is discarded |
| Synapses.ById | pkg/pkg/morphology/synapses.py:41 | with the index set, each row is labelled by its synapse id |
| Synapses.SideRowsSpec | pkg/pkg/morphology/synapses.py:31-48 | one side holds exactly the latest-root synapses on that side, without self-synapses when asked, each labelled by its id |
| Synapses.AlltimeSynapsesSpec | pkg/pkg/morphology/synapses.py:10-50 | the pre table and the post table, in that order, each as above |
| Synapses.DropSelf | pkg/pkg/morphology/synapses.py:45-46 | with `remove_self`, exactly the rows whose two sides are on different roots survive; without it, every row |
| Synapses.SideRows | pkg/pkg/morphology/synapses.py:37-46 | every row of a side is labelled by its synapse id, comes from the table, and has a latest root on that side |
| Synapses.DropSelfOne | pkg/pkg/morphology/synapses.py:45-46 | a synapse between two different roots survives `remove_self` |
| Synapses.MatchingPair | pkg/pkg/morphology/synapses.py:37-40 | the query keeps table order |
| Synapses.AlltimeLabelsCollide | pkg/pkg/morphology/synapses.py:41 | as written, a pre row and a post row of two different synapses both carry label 0 |
| Synapses.AlltimeLabelsDistinct | pkg/pkg/morphology/synapses.py:41 | indexed by id, rows of distinct synapses never share a label, within or across sides |
| Synapses.Lookup | pkg/pkg/morphology/synapses.py:106 | the component of a level-2 id, or `KeyError` exactly when the id took part in no edit |
| Synapses.Candidates | pkg/pkg/morphology/synapses.py:107-111 | exactly the ids of the component that are nodes |
| Synapses.FirstWithChild | pkg/pkg/morphology/synapses.py:113-121 | the first candidate whose children hold the supervoxel, with none before it, or none |
| Synapses.Resolve | pkg/pkg/morphology/synapses.py:90-121 | only a synapse taken as not current can fail, and then with `KeyError` on the lineage lookup; an id found is the current one or a node whose children hold the supervoxel |
| Synapses.FirstError | pkg/pkg/morphology/synapses.py:103-123 | the first failing row, or none exactly when every row succeeds |
| Synapses.FirstErrorAt | pkg/pkg/morphology/synapses.py:103-123 | a failure after a clean prefix is the one reported |
| Synapses.Filled | pkg/pkg/morphology/synapses.py:123-125 | succeeds exactly when every row has an id, else `AssertionError`, and then holds the ids in order |
| Synapses.Resolutions | pkg/pkg/morphology/synapses.py:99-121 | one resolution per synapse, each that synapse's own |
| Synapses.Level2Ids | pkg/pkg/morphology/synapses.py:84-125 | a successful mapping has one id per synapse; a failure is the lineage lookup's `KeyError` or the final `AssertionError` |
| Synapses.Initial | pkg/pkg/morphology/synapses.py:97-101 | a current synapse is filled with its current id before the loop; any other is missing |
| Synapses.FindCandidate | pkg/pkg/morphology/synapses.py:113-121 | the inner loop with `break` finds exactly the first candidate holding the supervoxel |
| Synapses.ResolveRow | pkg/pkg/morphology/synapses.py:104-121 | the loop body gives the synapse's resolution |
| Synapses.MapSynapseLevel2Ids | pkg/pkg/morphology/synapses.py:84-125 | the method computes `Level2Ids`: the first failure, or the filled ids |
| Synapses.Level2IdsError | pkg/pkg/morphology/synapses.py:103-123 | a failing row makes the whole mapping fail with its error |
| Synapses.Level2IdsFilled | pkg/pkg/morphology/synapses.py:99-125 | with no failing row, the mapping is the filled-ids check |
| Synapses.Level2IdsOk | pkg/pkg/morphology/synapses.py:84-125 | a successful mapping gives every synapse the id its own resolution found |
| Synapses.ResolveIndexTest | pkg/pkg/morphology/synapses.py:90-121 | with the index test, a synapse keeps its current id exactly when that id took part in no edit; otherwise it gets a node of the same lineage component whose children hold its supervoxel |
| Synapses.Level2IdsIndexTest | pkg/pkg/morphology/synapses.py:84-125 | the same for every synapse of a successful mapping |
| Synapses.ValuesTestMissesLineage | pkg/pkg/morphology/synapses.py:90-92 | as written, a synapse whose current id took part in an edit keeps that id even when it is not a node; the index test resolves it to the node holding its supervoxel |
| Synapses.Supervoxels | pkg/pkg/morphology/synapses.py:87-88 | one supervoxel per row, from the side's column |
| Synapses.MapSide | pkg/pkg/morphology/synapses.py:142-162 | one side of the mapping with the current-id test as a parameter (`ValuesTest` is the code as written at lines 90-92, `IndexTest` the corrected test): every kept synapse is mapped to a node |
| Synapses.MapSideSpec | pkg/pkg/morphology/synapses.py:147-157 | a synapse is kept exactly when the id it was mapped to is a node |
| Synapses.MapSynapsesToSpatialGraph | pkg/pkg/morphology/synapses.py:128-164 | the pre side is mapped first and its failure is the result; the pair is returned exactly when both sides map, and every kept synapse of either side is on a node; the test is passed to `map_synapse_level2_ids` as for `MapSide` |
| Synapses.LabelsAtSnoc | pkg/pkg/morphology/synapses.py:207-213 | one more row appends its label to its own node's list only |
| Synapses.EmptyLists | pkg/pkg/morphology/synapses.py:203-205 | a fresh list column holds an empty list for every node |
| Synapses.NonEmpty | pkg/pkg/morphology/synapses.py:215 | `has_synapses` is true exactly for non-empty lists |
| Synapses.AttachSide | pkg/pkg/morphology/synapses.py:207-213 | succeeds exactly when every current id is a node, else `KeyError`; then each node's lists gain the labels of its rows in row order |
| Synapses.NodeSynapses.constructor | pkg/pkg/morphology/synapses.py:181-187 | a frame of nodes with no synapse columns yet |
| Synapses.NodeSynapses.ApplySynapses | pkg/pkg/morphology/synapses.py:203-215 | in place: every node's `synapses` list is its pre labels then its post labels, `pre_synapses` and `post_synapses` are the per-side labels, and `has_synapses` is non-emptiness; an unknown current id raises `KeyError` |
| Synapses.LabelsAtEmpty | pkg/pkg/morphology/synapses.py:215 | a node has synapses exactly when some mapped synapse's current id is that node |
| NeuronFrames.NodeAt | sandbox/access_time_ordered_cleaned.py:267 | `nodes.loc[id]`: a row with that id, or none exactly when the id is not in the index |
| NeuronFrames.NodeAtUnique | sandbox/access_time_ordered_cleaned.py:267 | with a unique index, the lookup finds the one row with that id |
| NeuronFrames.NodeIds | pkg/pkg/neuronframe/neuronframe.py:61 | the node index holds exactly the rows' ids |
| NeuronFrames.EdgePairs | pkg/pkg/neuronframe/neuronframe.py:198-202 | one `(source, target)` pair per edge row, in order |
| NeuronFrames.Shape | pkg/pkg/neuronframe/neuronframe.py:198-202 | the frame's node set is its node index |
| NeuronFrames.CheckNucleus | pkg/pkg/neuronframe/neuronframe.py:59-63 | the nucleus id is accepted exactly when it is in the node index, else `ValueError`; the default `None` never is |
| NeuronFrames.CheckMappingCol | pkg/pkg/neuronframe/neuronframe.py:81-106 | an empty table accepts any column; a non-empty one needs the column and every value in it to be a node id, else `ValueError` |
| NeuronFrames.Build | pkg/pkg/neuronframe/neuronframe.py:11-39 | construction succeeds exactly when all three setters accept, else `ValueError`, and then stores its arguments |
| NeuronFrames.BuildNucleus | pkg/pkg/neuronframe/neuronframe.py:36 | a constructed frame's nucleus is one of its nodes |
| NeuronFrames.QueryNodes | pkg/pkg/neuronframe/neuronframe.py:174 | keeps exactly the node rows passing the filter and the edges between surviving nodes; nothing else changes |
| NeuronFrames.QueryEdges | pkg/pkg/neuronframe/neuronframe.py:175 | keeps exactly the edge rows passing the filter; nothing else changes |
| NeuronFrames.SetEditsRule | pkg/pkg/neuronframe/neuronframe.py:164-179 | a node survives exactly when it was added by a chosen edit or by `-1` and not removed by a chosen edit; an edge also needs both ends to survive; nothing else changes |
| NeuronFrames.SetEdits | pkg/pkg/neuronframe/neuronframe.py:164-179 | `set_edits` only removes rows: its node ids are among the frame's, and the synapse tables, edits, nucleus id and mapping columns are kept |
| NeuronFrames.SetEditsNone | pkg/pkg/neuronframe/neuronframe.py:168-172 | with no edits, exactly the original rows survive, including those a later edit removes |
| NeuronFrames.SetEditsOne | pkg/pkg/neuronframe/neuronframe.py:165-166 | a bare integer acts as a one-element list |
| NeuronFrames.SetEditsSetOnly | pkg/pkg/neuronframe/neuronframe.py:168-172 | only the set of chosen edits matters, not their order or repetition |
| NeuronFrames.FilterSame | pkg/pkg/neuronframe/neuronframe.py:168-172 | two filters that agree on every row select the same rows |
| NeuronFrames.PruneTable | pkg/pkg/neuronframe/neuronframe.py:187-193 | keeps exactly the synapses whose mapping value is a node id; a missing column raises `NameError` |
| NeuronFrames.RemoveUnusedSynapsesSpec | pkg/pkg/neuronframe/neuronframe.py:181-196 | fails only on a missing mapping column of a selected side; a selected side keeps exactly its synapses on current nodes, an unselected side and everything else are unchanged |
| NeuronFrames.RemoveUnusedSynapses | pkg/pkg/neuronframe/neuronframe.py:181-196 | the only failure is the undefined-name error of a query on a missing mapping column; only the synapse tables change |
| NeuronFrames.SelectNucleusComponentSpec | pkg/pkg/neuronframe/neuronframe.py:198-206 | a nucleus outside the index leaves the frame unchanged; otherwise exactly the nucleus's undirected component and the edges inside it remain, with the synapse and edit tables kept |
| NeuronFrames.SelectNucleusComponent | pkg/pkg/neuronframe/neuronframe.py:198-206 | the selection only removes rows: its node ids are among the frame's, and everything but the node and edge tables is kept |
| NeuronFrames.SelectFromNode | pkg/pkg/neuronframe/neuronframe.py:199-202 | selecting the component of a node fails with `KeyError` exactly when the node is not in the index; a selected component holds that node and only nodes of the frame |
| NeuronFrames.SelectFromNucleus | pkg/pkg/neuronframe/neuronframe.py:198-206 | with the nucleus present, `select_nucleus_component` is the component selection from the nucleus; without it, the guarded method returns the frame unchanged where the unguarded selection raises `KeyError` |
| NeuronFrames.Group | pkg/pkg/neuronframe/neuronframe.py:149-150 | a group holds exactly the edits of its meta-operation |
| NeuronFrames.MetaIds | pkg/pkg/neuronframe/neuronframe.py:149 | exactly the meta-operation ids that occur |
| NeuronFrames.OperationIds | pkg/pkg/neuronframe/neuronframe.py:155-157 | a group's operation ids in order |
| NeuronFrames.MergeFlags | pkg/pkg/neuronframe/neuronframe.py:158-160 | a group's merge flags in order |
| NeuronFrames.Times | pkg/pkg/neuronframe/neuronframe.py:147 | a group's times in order |
| NeuronFrames.Aggregate | pkg/pkg/neuronframe/neuronframe.py:149-161 | the row of a meta-operation id that occurs in the edits is labelled by that id and lists one merge flag per operation, at least one |
| NeuronFrames.MetaEdits | pkg/pkg/neuronframe/neuronframe.py:140-162 | one row per distinct meta-operation id |
| NeuronFrames.MetaEditsKeys | pkg/pkg/neuronframe/neuronframe.py:149-151 | the rows' ids are strictly increasing and are exactly the ids in the edit table |
| NeuronFrames.MetaEditsOperations | pkg/pkg/neuronframe/neuronframe.py:155-157 | a row's `operation_ids` are exactly the edits of its meta-operation |
| NeuronFrames.MetaEditsHasMerge | pkg/pkg/neuronframe/neuronframe.py:158-161 | `has_merge` is true exactly when one of its edits is a merge |
| NeuronFrames.MetaEditsLatest | pkg/pkg/neuronframe/neuronframe.py:147 | `datetime` is the latest time among its edits |
| NeuronFrames.NeuronFrame.FromState | pkg/pkg/neuronframe/neuronframe.py:11-39 | a frame object holding the given state |
| NeuronFrames.NeuronFrame.SetNucleusId | pkg/pkg/neuronframe/neuronframe.py:59-63 | in place: the id is stored exactly when accepted; a `ValueError` leaves the frame as it was |
| NeuronFrames.NeuronFrame.SetPreSynapseMappingCol | pkg/pkg/neuronframe/neuronframe.py:81-106 | in place: the column is stored exactly when accepted; a `ValueError` leaves the frame as it was |
| NeuronFrames.NeuronFrame.SetPostSynapseMappingCol | pkg/pkg/neuronframe/neuronframe.py:112-137 | the same for the post side |
| NeuronFrames.NeuronFrame.SetEditsInPlace | pkg/pkg/neuronframe/neuronframe.py:173-175 | in place, the node query then the edge query: the frame becomes `SetEdits` of its old value |
| NeuronFrames.NeuronFrame.RemoveUnusedSynapsesInPlace | pkg/pkg/neuronframe/neuronframe.py:181-196 | in place; on failure nothing changes |
| NeuronFrames.NeuronFrame.SelectNucleusComponentInPlace | pkg/pkg/neuronframe/neuronframe.py:198-206 | in place, the frame becomes `SelectNucleusComponent` of its old value |
| NeuronFrames.NewNeuronFrame | pkg/pkg/neuronframe/neuronframe.py:11-39 | a fresh frame exactly when `Build` accepts the arguments, otherwise its error |
| Replay.Concatenated | sandbox/graph_frame_replay_edits.py:232-235 | the concatenated frame holds exactly the union of the frames' nodes and edges |
| Replay.UnionNodesSpec | sandbox/graph_frame_replay_edits.py:232 | a node is in the union exactly when some frame holds it |
| Replay.UnionEdgesSpec | sandbox/graph_frame_replay_edits.py:233 | an edge is in the union exactly when some frame holds it |
| Replay.LeafFrames | sandbox/graph_frame_replay_edits.py:220-231 | at most one frame per leaf; a failure is never `HTTPError` (those leaves are skipped) and is the error of some leaf's fetch |
| Replay.StartFrame | sandbox/graph_frame_replay_edits.py:218-235 | no leaves at all raise `ValueError` (the concatenation of nothing), and `HTTPError` never escapes the loading loop |
| Replay.LoadLeaves | sandbox/graph_frame_replay_edits.py:218-235 | the loading loop computes the starting frame: leaves whose fetch raises `HTTPError` are skipped |
| Replay.LeafFramesStop | sandbox/graph_frame_replay_edits.py:225-229 | any other failure ends the loop with that failure |
| Replay.LeafFramesPrefixErr | sandbox/graph_frame_replay_edits.py:220-231 | a failure in a prefix of the leaves is the result for all of them |
| Replay.LeafFramesFetched | sandbox/graph_frame_replay_edits.py:220-231 | the frames kept are exactly the successful fetches |
| Replay.StartFrameContents | sandbox/graph_frame_replay_edits.py:218-235 | the starting frame holds exactly the nodes and edges of the fetched frames |
| Replay.DeltasOf | sandbox/graph_frame_replay_edits.py:242 | the deltas of the listed operations, in order |
| Replay.ReplayAll | sandbox/graph_frame_replay_edits.py:237-251 | every node of the replayed frame was in the starting frame or added by some delta, and none removed by the last delta is left |
| Replay.ReplaySnoc | sandbox/graph_frame_replay_edits.py:237-251 | replaying one more delta applies it to the replay so far |
| Replay.DeltasOfSnoc | sandbox/graph_frame_replay_edits.py:242 | one more operation appends its delta |
| Replay.ApplyInPlace | sandbox/graph_frame_replay_edits.py:248-251 | in place, in the order add nodes, add edges, remove nodes, remove edges, the frame becomes `ApplyDelta` of its old value |
| Replay.ReplayEdits | sandbox/graph_frame_replay_edits.py:237-251 | every operation's delta is applied once, in change-log order; an operation without a delta raises `KeyError` after the deltas before it were applied |
| Replay.ReplaySame | sandbox/graph_frame_replay_edits.py:275 | replays from equal frames end in equal frames |
| Replay.StepDeltas | sandbox/graph_frame_replay_edits.py:237-251 | one delta per consecutive pair of states |
| Replay.ReplayReachesLast | sandbox/graph_frame_replay_edits.py:271-275 | for any sequence of states, replaying the deltas between consecutive states from the first reproduces the last; the script instead compares the replayed frame with graphs fetched from the service, so the lemma holds only when those fetched graphs are such consecutive states |
| Replay.ApplySame | sandbox/graph_frame_replay_edits.py:248-251 | applying a delta to equal frames gives equal frames |
| Replay.NucleusFragment | sandbox/graph_frame_replay_edits.py:258-266 | found exactly when the nucleus id is a node, and then it is that node's component; otherwise `.copy()` on `None` raises `AttributeError` |
| Replay.FindNucleusFragment | sandbox/graph_frame_replay_edits.py:260-266 | the loop with `break` finds `NucleusFragment` |
| Replay.LineageStatus.constructor | sandbox/graph_frame_replay_edits.py:56-59 | the tree's nodes in pre-order, no statuses yet |
| Replay.LineageStatus.LabelStatuses | sandbox/graph_frame_replay_edits.py:59-79 | every node gets its status; the weird leaves returned are exactly the nodes with that status |
| Replay.StatusExclusive | sandbox/graph_frame_replay_edits.py:59-71 | each node has exactly one status: internal exactly when it has children, weird leaf exactly for a leaf with further edits, leaf otherwise |
| Replay.NearestCommonAncestor | sandbox/graph_frame_replay_edits.py:289-300 | found exactly when some node's descendants hold every searched id, else `KeyError`; the node chosen does, and no node that does is deeper |
| Replay.GetInitialNetwork | pkg/pkg/edits/changes.py:172-191 | the loading loop over the sorted, de-duplicated lineage leaves computes the starting frame |
| Replay.InitialNetworkNodes | pkg/pkg/edits/changes.py:176-188 | the initial network holds exactly the nodes of the leaves whose graph was fetched |
| EditGraphFrame.BeforePieces | experiments/edit_graph_frame.py:104-120 | one piece per before root, cached or fetched, in order; a failed fetch is the first failure of some root |
| EditGraphFrame.BeforeState | experiments/edit_graph_frame.py:104-124 | an operation with no before roots raises `ValueError` (the concatenation of nothing); a built before state had every piece available |
| EditGraphFrame.BeforeStateNodes | experiments/edit_graph_frame.py:104-124 | the before state holds exactly the nodes of its pieces |
| EditGraphFrame.StoreSpec | experiments/edit_graph_frame.py:158-161 | each component is stored under its after root, which must be one of `after_root_ids`; other cache entries are unchanged |
| EditGraphFrame.RootOf | experiments/edit_graph_frame.py:159 | an empty component raises `IndexError` on `index[0]`; otherwise the root is that of the component's first node |
| EditGraphFrame.Store | experiments/edit_graph_frame.py:158-161 | the loop keeps every cached root, adds only after roots, and fails only with `IndexError` or `AssertionError` |
| EditGraphFrame.MergeConnects | experiments/edit_graph_frame.py:150-151 | after a merge that passes the check, every two nodes lie in one component |
| EditGraphFrame.StepSpec | experiments/edit_graph_frame.py:95-161 | a successful step applied the delta to the before state, a merge left one component and a split one or two, and every new cache entry is a component under an after root |
| EditGraphFrame.Step | experiments/edit_graph_frame.py:95-161 | an operation without before roots fails with `ValueError`; a successful step never drops a cached piece |
| EditGraphFrame.PieceCache.constructor | experiments/edit_graph_frame.py:93 | the cache starts empty |
| EditGraphFrame.PieceCache.GatherBefore | experiments/edit_graph_frame.py:104-124 | the loop builds `BeforeState` from cached or fetched pieces |
| EditGraphFrame.PieceCache.ApplyOperation | experiments/edit_graph_frame.py:95-161 | in place, the cache becomes `Step` of its old value, or the step's error is returned |
| EditGraphFrame.PieceCache.StoreComponents | experiments/edit_graph_frame.py:158-161 | in place, the cache becomes `Store` of its old value: `IndexError` for an empty component, `AssertionError` for a root outside `after_root_ids` |
| EditGraphFrame.PieceCache.MatchesCurrent | experiments/edit_graph_frame.py:170-173 | the cached piece of the current root against the current graph; a root never stored raises `KeyError` |
| EditGraphFrame.BeforePiecesStop | experiments/edit_graph_frame.py:106-111 | a failed fetch after successful ones ends the loop with that failure |
| EditGraphFrame.BeforePiecesPrefixErr | experiments/edit_graph_frame.py:106-120 | a failure in a prefix is the result |
| EditGraphFrame.StoreStop | experiments/edit_graph_frame.py:158-161 | the first component failing the root check fails the loop |
| EditGraphFrame.StorePrefixErr | experiments/edit_graph_frame.py:158-161 | a failure in a prefix is the result |
| EditGraphFrame.ReplayOperations | experiments/edit_graph_frame.py:95-161 | every operation, in change-log order, once; the first failing step ends the loop |
| EditGraphFrame.StepsStop | experiments/edit_graph_frame.py:95-161 | a failing step after successful ones is the loop's failure |
| EditGraphFrame.StepsPrefixErr | experiments/edit_graph_frame.py:95-161 | a failure among the first operations is the result |
| RemixEdits.PermutationLength | experiments/graph_frame_remix_edits.py:64-65 | a permutation lists every meta-operation id once |
| RemixEdits.RemixReplay | experiments/graph_frame_remix_edits.py:67-72 | in place, each meta-delta is applied once, in permutation order |
| RemixEdits.DeltasOfAppend | experiments/graph_frame_remix_edits.py:67-68 | the deltas of two id lists concatenate |
| RemixEdits.SwapStep | experiments/graph_frame_remix_edits.py:69-72 | two mutually independent deltas may be swapped |
| RemixEdits.MoveToEnd | experiments/graph_frame_remix_edits.py:67-72 | a delta independent of every later one may be replayed last |
| RemixEdits.RemoveOne | experiments/graph_frame_remix_edits.py:65 | removing an id from a repeat-free order leaves the others, without repeats |
| RemixEdits.AllIn | experiments/graph_frame_remix_edits.py:68 | every id of the order has a meta-delta |
| RemixEdits.ExtractOne | experiments/graph_frame_remix_edits.py:67-72 | under pairwise independence, any delta of the order may be replayed last instead |
| RemixEdits.RemixOrderIrrelevant | experiments/graph_frame_remix_edits.py:64-72 | under pairwise independence, any two orders of the meta-operation ids replay to the same frame |
| RemixEdits.RemixMatches | experiments/graph_frame_remix_edits.py:88 | a missing nucleus component never matches; a found one matches exactly when nodes and edges agree |
| RemixEdits.RemixAndCompare | experiments/graph_frame_remix_edits.py:62-88 | the replayed frame's nucleus component is compared with the current graph |
| SynapseEditMapping.TagTargets | experiments/synapse_to_edit_mapping.py:171-177 | the nodes a meta-operation tags are exactly its added nodes in the final index, once each; the removed-node difference is overwritten |
| SynapseEditMapping.DedupMember | experiments/synapse_to_edit_mapping.py:175 | dropping repeats keeps membership |
| SynapseEditMapping.TargetSets | experiments/synapse_to_edit_mapping.py:165-177 | one target set per meta-operation, in order |
| SynapseEditMapping.Ids | experiments/synapse_to_edit_mapping.py:165 | the meta-operation ids in order |
| SynapseEditMapping.Tagged | experiments/synapse_to_edit_mapping.py:188 | the targets get the meta-operation id; other tags are unchanged |
| SynapseEditMapping.Union | experiments/synapse_to_edit_mapping.py:165-188 | every node that some meta-operation targets |
| SynapseEditMapping.TagFold | experiments/synapse_to_edit_mapping.py:165-188 | the tagging loop fails only with `AssertionError`, and a successful run keeps every tag already present |
| SynapseEditMapping.Tagging | experiments/synapse_to_edit_mapping.py:161-188 | the same for the meta-operations' target sets in dictionary order |
| SynapseEditMapping.TagFoldValues | experiments/synapse_to_edit_mapping.py:162-188 | a successful tagging tags exactly the targets, each with the meta-operation that added it |
| SynapseEditMapping.TagFoldOk | experiments/synapse_to_edit_mapping.py:185-188 | tagging succeeds exactly when no node is the target of two meta-operations |
| SynapseEditMapping.TaggingOk | experiments/synapse_to_edit_mapping.py:162-188 | the `AssertionError` is raised exactly when two meta-operations add the same final node |
| SynapseEditMapping.TaggingValues | experiments/synapse_to_edit_mapping.py:162-188 | the tagged nodes are exactly the final nodes some meta-operation added, each tagged with it |
| SynapseEditMapping.NodeTable.constructor | experiments/synapse_to_edit_mapping.py:162-163 | the column starts with no tags |
| SynapseEditMapping.NodeTable.TagMetaoperations | experiments/synapse_to_edit_mapping.py:165-188 | in place, the column becomes `Tagging` of its old value, or the error is returned |
| SynapseEditMapping.NodeTable.TagStep | experiments/synapse_to_edit_mapping.py:185-188 | a clash exactly when a target is already tagged; otherwise all targets are tagged |
| SynapseEditMapping.FindTagged | experiments/synapse_to_edit_mapping.py:185 | whether some target already has a tag |
| SynapseEditMapping.TagFoldStop | experiments/synapse_to_edit_mapping.py:185-186 | the first clash fails the whole loop with `AssertionError` |
| SynapseEditMapping.TagFoldPrefixErr | experiments/synapse_to_edit_mapping.py:165-188 | a failure among the first meta-operations is the result |
| SynapseEditMapping.ScanOperations | experiments/synapse_to_edit_mapping.py:222-242 | the inner loop with `break` computes the scan |
| SynapseEditMapping.ScanSpec | experiments/synapse_to_edit_mapping.py:222-242 | the scan stops exactly when some operation is a soma/nucleus merge (a merge under 10 µm from the nucleus touching at least 10 nodes); otherwise it saw whether any operation is filtered |
| SynapseEditMapping.CandidateSpec | experiments/synapse_to_edit_mapping.py:244-245 | a candidate has a filtered operation and merges and no soma/nucleus merge; the early stop does not change this |
| SynapseEditMapping.Candidates | experiments/synapse_to_edit_mapping.py:217-247 | exactly the candidate meta-operation ids |
| SynapseEditMapping.LastSoma | experiments/synapse_to_edit_mapping.py:215-240 | the last meta-operation whose scan stopped, or none when no scan did |
| SynapseEditMapping.SomaNotCandidate | experiments/synapse_to_edit_mapping.py:239-245 | the soma/nucleus meta-operation is never a candidate |
| SynapseEditMapping.SelectCandidates | experiments/synapse_to_edit_mapping.py:213-247 | the loop gives the candidates and the soma/nucleus meta-operation |
| SynapseEditMapping.PathTags | experiments/synapse_to_edit_mapping.py:300-309 | the tags of the keypoints on a path, once each |
| SynapseEditMapping.Predecessors | experiments/synapse_to_edit_mapping.py:300-315 | a meta-operation's predecessors are the keypoint tags on its path other than its own, once each |
| SynapseEditMapping.SynapseDependencies | experiments/synapse_to_edit_mapping.py:335-348 | a synapse's dependencies are exactly the meta-operations tagged on its path, once each |
| SynapseEditMapping.StaleIdDropsDependency | experiments/synapse_to_edit_mapping.py:345-347 | as written, a dependency equal to `metaoperation_id`, left over from the `groupby` loop at lines 280-315, is dropped; without that exclusion it is kept |
| SynapseEditMapping.DependencyPath | experiments/synapse_to_edit_mapping.py:445-449 | the path added is the predecessors then the meta-operation, with `-1` in front when no soma/nucleus merge was found |
| SynapseEditMapping.SampleCount | experiments/synapse_to_edit_mapping.py:511-516 | one sample at fractions 0 and 1, 25 at the others |
| SynapseEditMapping.SampleSize | experiments/synapse_to_edit_mapping.py:517 | the sample is never larger than the candidates, empty at fraction 0 and all of them at 1 |
| SynapseEditMapping.RollBack | experiments/synapse_to_edit_mapping.py:519-522 | an empty sample leaves the final graph as it is |
| SynapseEditMapping.RollBackAppend | experiments/synapse_to_edit_mapping.py:520-522 | reversing a sample reverses its first part and then the rest on top, in sample order |
| SynapseEditMapping.SampleOutcome | experiments/synapse_to_edit_mapping.py:517-527 | a sampled id without a meta-delta raises `KeyError`; otherwise only fraction 0 can fail, with `AssertionError` |
| SynapseEditMapping.RollbackZero | experiments/synapse_to_edit_mapping.py:519-526 | at fraction 0 nothing is reversed, and the check passes exactly when the final graph's nucleus component equals the final graph |
| SynapseEditMapping.ConnectedFinalPasses | experiments/synapse_to_edit_mapping.py:525-526 | the fraction-0 check passes on a connected final graph holding the nucleus node |
| SynapseEditMapping.Draws | experiments/synapse_to_edit_mapping.py:516 | the sample keys of one fraction, in order |
| SynapseEditMapping.PlanSize | experiments/synapse_to_edit_mapping.py:507-516 | 102 samples in all |
| SynapseEditMapping.RollbackSamples | experiments/synapse_to_edit_mapping.py:510-527 | the nested loops store each sample's nucleus component under the key (1 − fraction, i); a failed fraction-0 check ends them |
| SynapseEditMapping.SampleFraction | experiments/synapse_to_edit_mapping.py:516-527 | the inner loop extends the outcomes by one fraction's samples |
| SynapseEditMapping.SampleAt | experiments/synapse_to_edit_mapping.py:516-527 | one iteration of the inner loop: a failing sample fails the whole plan, a successful one adds its entry under (1 − fraction, i) |
| SynapseEditMapping.DrawStep | experiments/synapse_to_edit_mapping.py:516-527 | the same step stated for the outcomes of the plan, for any sample function |
| SynapseEditMapping.FractionStep | experiments/synapse_to_edit_mapping.py:510-516 | one more fraction appends its samples to the plan, and a failure among them is the failure of the whole plan |
| SynapseEditMapping.Sample | experiments/synapse_to_edit_mapping.py:517-527 | one sample: roll back, find the nucleus component, check fraction 0 |
| SynapseEditMapping.RollBackInPlace | experiments/synapse_to_edit_mapping.py:519-522 | a copy of the final graph with each sampled meta-edit reversed in order |
| SynapseEditMapping.SliceStep | experiments/synapse_to_edit_mapping.py:516 | one more sample key extends the plan done so far |
| SynapseEditMapping.PlanAppend | experiments/synapse_to_edit_mapping.py:511-516 | the plan of two fraction lists concatenates |
| SynapseEditMapping.Outcomes | experiments/synapse_to_edit_mapping.py:510-527 | a failed loop fails with the error of one of the planned samples; every stored key is (10 − k, i) for a planned pair (k, i), in tenths |
| SynapseEditMapping.OutcomesSnoc | experiments/synapse_to_edit_mapping.py:524-527 | one more sample stores its outcome, or fails with its error |
| SynapseEditMapping.OutcomesPrefixErr | experiments/synapse_to_edit_mapping.py:510-527 | a failure among the first samples is the result |
| SynapseEditMapping.Collected | experiments/synapse_to_edit_mapping.py:531-538 | a synapse is collected exactly when a node of the sample holds it in its list; nodes without a list are skipped |
| SynapseEditMapping.CollectSynapses | experiments/synapse_to_edit_mapping.py:531-538 | a sample with no nucleus component raises `AttributeError`; otherwise its collected list |
| SynapseEditMapping.Counts | experiments/synapse_to_edit_mapping.py:541-550 | the counting fails only with `KeyError`, and the table has one cell per target |
| SynapseEditMapping.CountsSpec | experiments/synapse_to_edit_mapping.py:541-550 | the counts exist exactly when every collected synapse is an output synapse, else `KeyError`; then every target's cell counts the synapses onto it |
| SynapseEditMapping.CountTargets | experiments/synapse_to_edit_mapping.py:547-550 | the counting loop computes `Counts` |
| SynapseEditMapping.CountsStop | experiments/synapse_to_edit_mapping.py:549 | an id that is not an output synapse fails the loop with `KeyError` |
| SynapseEditMapping.CountsPrefixErr | experiments/synapse_to_edit_mapping.py:547-550 | a failure among the first synapses is the result |
| SynapseEditMapping.Row | experiments/synapse_to_edit_mapping.py:542-550 | one row of the connectivity table, in target order |
| SynapseEditMapping.SumHit | experiments/synapse_to_edit_mapping.py:550 | one synapse adds one to exactly one cell |
| SynapseEditMapping.SumPlus | experiments/synapse_to_edit_mapping.py:550 | row sums add |
| SynapseEditMapping.CountsSum | experiments/synapse_to_edit_mapping.py:547-554 | each row adds up to the number of synapses collected |
| SynapseEditMapping.InputSynapseBreaksCount | experiments/synapse_to_edit_mapping.py:537-549 | as written, an input-synapse id in the `synapses` column makes the count raise `KeyError` |
| SynapseEditMapping.OutputSynapsesCount | experiments/synapse_to_edit_mapping.py:537-550 | with the `pre_synapses` column the count always succeeds and each row adds up to the synapses collected |
| SingleEditDropout.EditIds | experiments/single_edit_dropout.py:84 | the edit ids in table order |
| SingleEditDropout.FilteredIds | experiments/single_edit_dropout.py:67-72 | exactly the ids of the filtered edits |
| SingleEditDropout.AllBut | experiments/single_edit_dropout.py:75 | exactly the edit ids other than the one dropped |
| SingleEditDropout.DropoutStates | experiments/single_edit_dropout.py:74-84 | one state per filtered edit, applying every edit but that one, and the state `-1` applying all of them; an equal label replaces the earlier state |
| SingleEditDropout.LeaveOneOutFrame | experiments/single_edit_dropout.py:74-82 | leaving out one edit removes the rows it added, restores the rows it removed (when their adding edit is applied) and leaves every other row as in the final state |
| SingleEditDropout.DiffsToFinal | experiments/single_edit_dropout.py:37-55 | succeeds exactly when row `-1` exists, else `KeyError`; every other row gets its distance to row `-1` |
| SingleEditDropout.MetaoperationModified | experiments/single_edit_dropout.py:309-315 | `ValueError` exactly when a node was added and removed by two different meta-operations; otherwise the one that is set |
| SingleEditDropout.ModifiedNodes | experiments/single_edit_dropout.py:317-319 | exactly the nodes some meta-operation added or removed |
| SingleEditDropout.ModifiedColumn | experiments/single_edit_dropout.py:320-322 | one value per row |
| SingleEditDropout.ModifiedColumnSpec | experiments/single_edit_dropout.py:320-322 | the column exists exactly when no row raises, and then holds each row's value |
| SingleEditDropout.ModifiedNodesColumn | experiments/single_edit_dropout.py:309-322 | on modified nodes the column never holds `-1`: each gets the meta-operation that added or removed it |
| TimeOrdered.FrameEdits | sandbox/access_time_ordered_cleaned.py:181-182 | as written, frame `i` applies the first `i` edits |
| TimeOrdered.LabelledEditNotApplied | sandbox/access_time_ordered_cleaned.py:181-221 | as written, frame `i` is labelled with edit `i`'s user and time but does not apply it, and no frame applies the last edit |
| TimeOrdered.FrameEditsThrough | sandbox/access_time_ordered_cleaned.py:181-182 | frame `i` applying the first `i + 1` edits |
| TimeOrdered.FrameThroughSpec | sandbox/access_time_ordered_cleaned.py:181-221 | the labelled edit is applied in its frame, and the last frame has every edit applied |
| TimeOrdered.AnimationFrame | sandbox/access_time_ordered_cleaned.py:181-190 | as written, frame `i` (the first `i` edits applied, then the unguarded component selection from the nucleus) raises `KeyError` exactly when the edited neuron lacks the nucleus node, and otherwise holds only nodes of the full neuron |
| TimeOrdered.FrameLoop | sandbox/access_time_ordered_cleaned.py:181-190 | the loop computes the frames in order and stops at the first one that raises, with that error |
| TimeOrdered.AnimationFrames | sandbox/access_time_ordered_cleaned.py:181-190 | as written: one frame per edit, frame `i` being `AnimationFrame(i)`, until a frame raises; that error ends the loop |
| TimeOrdered.FramesShifted | sandbox/access_time_ordered_cleaned.py:181-182 | the frames as written are the corrected frames one step late: frame `i + 1` applies the edits through edit `i`, and frame 0 applies none |
| TimeOrdered.IdsWhere | sandbox/access_time_ordered_cleaned.py:249-262 | exactly the ids of the merges (or the splits), in time order |
| TimeOrdered.InitialApplied | sandbox/access_time_ordered_cleaned.py:263-268 | every split, plus the edit that added the nucleus node unless it is an original node; a missing nucleus row is `KeyError` |
| TimeOrdered.InitialKeepsNucleus | sandbox/access_time_ordered_cleaned.py:265-268 | with the initial edits applied, the nucleus row is kept exactly when no applied edit removed it |
| TimeOrdered.OutgoingOps | sandbox/access_time_ordered_cleaned.py:69-74 | the operations that added an edge touching the current neuron but not in it |
| TimeOrdered.CandidateOperations | sandbox/access_time_ordered_cleaned.py:69-74 | exactly those operations, once each |
| TimeOrdered.NextOperation | sandbox/access_time_ordered_cleaned.py:77-88 | the first possible merge, in time order, that is a candidate and not applied yet; none exactly when there is no such merge |
| TimeOrdered.ApplyOperations | sandbox/access_time_ordered_cleaned.py:29-60 | a state fails only with the undefined-name error of the synapse pruning |
| TimeOrdered.ApplyOperationsSpec | sandbox/access_time_ordered_cleaned.py:29-60 | with the nucleus present, a state is the nucleus's component of the edited neuron, holding exactly the synapses on it |
| TimeOrdered.MergeSequence.constructor | sandbox/access_time_ordered_cleaned.py:263-273 | the applied list starts with the initial edits and no merges |
| TimeOrdered.MergeSequence.Record | sandbox/access_time_ordered_cleaned.py:83-88 | no choice returns `false`; a choice is appended to both lists |
| TimeOrdered.MergeSequence.SelectNextOperation | sandbox/access_time_ordered_cleaned.py:63-88 | in place: `false` when no candidate merge remains, otherwise the earliest one is appended to both lists |
| TimeOrdered.GreedyOverAddState | sandbox/access_time_ordered_cleaned.py:283-290 | recording the state of the applied list keeps the loop invariant |
| TimeOrdered.GreedyOverAddChoice | sandbox/access_time_ordered_cleaned.py:293-297 | recording the chosen merge keeps the loop invariant |
| TimeOrdered.PicksFreshAt | sandbox/access_time_ordered_cleaned.py:77-81 | a pick is a possible merge not chosen before |
| TimeOrdered.ProgressAddState | sandbox/access_time_ordered_cleaned.py:283-290 | recording a state keeps the progress invariant |
| TimeOrdered.ProgressAddChoice | sandbox/access_time_ordered_cleaned.py:293-297 | recording a fresh choice keeps the progress invariant |
| TimeOrdered.GreedyLoop | sandbox/access_time_ordered_cleaned.py:276-297 | each pass records the state of the applied list and its last choice, and picks a fresh merge; the loop stops when none is picked, after at most one pass more than there are merges |
| TimeOrdered.GreedyStates | sandbox/access_time_ordered_cleaned.py:276-297 | state `k` is the neuron with the initial edits and the first `k` choices applied, and choice `k` is the next operation from it |
| TimeOrdered.PickChoice | sandbox/access_time_ordered_cleaned.py:77-88 | the script's pick is fresh |
| TimeOrdered.Resolved | sandbox/access_time_ordered_cleaned.py:276-297 | what the main loop promises: a greedy, repeat-free sequence of merges, each state recorded with the merge that led to it, ending only when no candidate merge is left or on the error of applying the chosen merges |
| TimeOrdered.LoopResolves | sandbox/access_time_ordered_cleaned.py:276-297 | the generic loop's outcome, with the script's apply and pick, is resolved |
| TimeOrdered.ResolveMerges | sandbox/access_time_ordered_cleaned.py:249-297 | a neuron without its nucleus node is `KeyError`; otherwise the loop resolves the merges from the initial list |
| ViewSegments.NodeAtFinds | experiments/view_segments.py:78-79 | looking a node up by id, as the node features are joined onto the edges, finds the one row with that id when ids are unique |
| ViewSegments.EndAdded | experiments/view_segments.py:78-79 | an edge end's `added` feature is missing exactly when the end is not in the node index, and otherwise is the adding edit of that node |
| ViewSegments.CrossOperation | experiments/view_segments.py:82-88 | an edge crosses exactly when its two ends were added by different edits; an end outside the node index always makes it cross |
| ViewSegments.NoCrossView | experiments/view_segments.py:105 | the view keeps every node and exactly the edges joining two nodes added by the same edit that no edit removed, and each kept edge has both ends in the index |
| ViewSegments.WalkKeeps | experiments/view_segments.py:127-129 | a feature that every edge preserves is constant along a walk |
| ViewSegments.ComponentKeeps | experiments/view_segments.py:119-129 | a feature that every edge preserves is constant on each connected component |
| ViewSegments.ViewEdgesKeepAdded | experiments/view_segments.py:105 | every edge of the view joins two nodes added by the same edit |
| ViewSegments.TypeOf | experiments/view_segments.py:133-140 | the four segment types, each exactly for its combination of added/removed being -1 or not |
| ViewSegments.TypePresence | experiments/view_segments.py:133-140 | what each type means: unmodified rows are always present, removed rows until their remover is applied, added rows once their adder is, modified rows in between |
| ViewSegments.RowsIn | experiments/view_segments.py:127-128 | a component's node rows are exactly the index rows whose id lies in the component |
| ViewSegments.SegmentOf | experiments/view_segments.py:122-140 | a segment row exists exactly when the component has rows that all share added and removed ids; an empty component is an `IndexError`, a mixed one an `AssertionError`; the row carries the component's sizes, shared ids and type |
| ViewSegments.Assign | experiments/view_segments.py:142 | the listed nodes get segment `i` and every other node keeps its label |
| ViewSegments.SegmentLoop | experiments/view_segments.py:115-143 | the loop succeeds exactly when every component's row does, fails with the first error otherwise, collects the rows in order, and labels each node -1 (in no component) or with a component holding it |
| ViewSegments.SegmentsOver | experiments/view_segments.py:115-143 | run over components within the index, the loop labels every node of the index, each -1 or with a component holding it |
| ViewSegments.PartitionLabels | experiments/view_segments.py:115-142 | when the components are disjoint and cover the index, every node's label is the one component holding it |
| ViewSegments.LabelSegments | experiments/view_segments.py:109-143 | on the components of the view, every node gets the segment of the one component holding it, never -1 |
| ViewSegments.ViewComponents | experiments/view_segments.py:109-120 | the components of the view cover every node of the index and are pairwise disjoint |
| ViewSegments.ComponentsWithin | experiments/view_segments.py:119-120 | each component of the view lies within the node index |
| ViewSegments.ComponentRowsShareAdded | experiments/view_segments.py:127-129 | with unique node ids, the `added` assertion never fails: every component has rows and all of them were added by the same edit |
| ViewSegments.SegmentRefusedOnRemoved | experiments/view_segments.py:128-130 | with unique node ids, a component fails exactly when two of its rows were removed by different edits, and then with `AssertionError` |
| ViewSegments.RefusedOnRemoved | experiments/view_segments.py:128-130 | given rows sharing their `added` id, the segment row fails exactly on differing `removed` ids, with `AssertionError` |
| ViewSegments.SegmentPresence | experiments/view_segments.py:133-140 | a segment's type says when its rows are present after applying a list of edits: always, until the remover, from the adder, or between the two |
| ViewSegments.SegmentPair | experiments/view_segments.py:201-205 | an edge gives a pair exactly when both ends have a segment; the pair holds the two ends' segments with the smaller first |
| ViewSegments.InsertPair | experiments/view_segments.py:205 | adding one pair to a sorted table without repeats keeps it sorted and without repeats and adds exactly that pair |
| ViewSegments.PairsOf | experiments/view_segments.py:203-210 | every pair of the segment graph has its smaller segment first and is not a loop |
| ViewSegments.SegmentEdges | experiments/view_segments.py:201-210 | the segment edges are sorted, without repeats, and exactly the non-loop segment pairs of the edges |
| ViewSegments.SortedUnique | experiments/view_segments.py:205 | two sorted tables without repeats holding the same pairs are equal, so the unique table is determined by its pairs |
| ViewSegments.SegmentEdgesOrderFree | experiments/view_segments.py:203-210 | the segment graph depends only on which edges there are, not on their order or repeats |
| ViewSegments.SegmentEdgesUndirected | experiments/view_segments.py:205 | flipping every edge gives the same segment graph |
| ViewSegments.ViewEdgeSameSegment | experiments/view_segments.py:105-142 | an edge of the view joins two nodes of one segment |
| ViewSegments.SegmentEdgesAreCut | experiments/view_segments.py:201-210 | every pair of the segment graph comes from an edge the view cut, one crossing between two edits or removed by one |
| FileNames.Split | experiments/load_sequences.py:33-35 | splitting gives at least one piece; the first piece is a prefix of the string, and no piece holds the separator |
| FileNames.JoinSplit | experiments/load_sequences.py:33-35 | joining the pieces with the separator gives the string back |
| FileNames.SplitJoin | experiments/load_sequences.py:33-35 | splitting a join of separator-free pieces gives the pieces back |
| FileNames.NoSeparator | experiments/load_sequences.py:33-35 | a string without the separator splits into itself alone |
| FileNames.SplitFront | experiments/load_sequences.py:33-35 | a separator after a separator-free prefix splits exactly that prefix off |
| FileNames.ParseInt | experiments/load_sequences.py:33 | the integer cast succeeds exactly on an optional sign followed by at least one decimal digit, and otherwise raises `ValueError` |
| FileNames.Show | experiments/load_sequences.py:33 | a printed non-negative id is a non-empty string of digits |
| FileNames.ParseShow | experiments/load_sequences.py:33 | reading a printed id gives the id back |
| FileNames.Field | experiments/load_sequences.py:33-35 | a field is missing exactly when the name has too few `=`, and otherwise holds neither `-` nor `=` |
| FileNames.ParseFile | experiments/load_sequences.py:33-35 | a name parses exactly when its root field is present and is an integer, otherwise `ValueError`; order and seed are the second and third fields, missing when absent |
| FileNames.ShowHasNoSeparator | experiments/load_sequences.py:33 | a printed id holds neither separator |
| FileNames.FileNameParts | experiments/load_sequences.py:33-35 | a stored name `root_id=<id>-order_by=<order>-random_seed=<seed>...` splits on `=` into its four expected pieces |
| FileNames.HeadPiece | experiments/load_sequences.py:33-35 | the first `-` piece of a separator-free text followed by `-...` is that text |
| FileNames.FileNameRoundTrip | experiments/load_sequences.py:33-35 | parsing a stored name gives back the root, order and seed it was written from |
| FileNames.ParseFiles | experiments/load_sequences.py:33-35 | the whole column parses exactly when every name does, row by row and in order; otherwise `ValueError` |
| FileNames.FileCount | experiments/load_sequences.py:38 | a root's file count is at most the number of files |
| FileNames.HasAll | experiments/load_sequences.py:38-39 | `has_all` holds exactly the roots with exactly twelve files |
| FileNames.FilterByRoot | experiments/load_sequences.py:41 | keeping rows by root keeps every file of a kept root |
| FileNames.FinishedSpec | experiments/load_sequences.py:38-41 | the finished table holds exactly the rows of roots with twelve files, and all twelve of each |
| LoadSequences.Bouts | experiments/load_sequences.py:54 | one bout number per state |
| LoadSequences.BoutsSpec | experiments/load_sequences.py:54 | the first state's bout is its own merge count; each later state steps up by one exactly at a merge (a missing value counts as no merge); bouts never decrease and stay within the number of states so far |
| LoadSequences.LastPosition | experiments/load_sequences.py:57 | the position found holds the key, and no later position does |
| LoadSequences.LastPerGroup | experiments/load_sequences.py:57 | one entry per distinct key |
| LoadSequences.LastPerGroupSpec | experiments/load_sequences.py:57 | each group's value is the index of the last row with its key |
| LoadSequences.BoutExemplars | experiments/load_sequences.py:56-58 | one exemplar per distinct bout |
| LoadSequences.ExemplarsEndBouts | experiments/load_sequences.py:54-58 | every exemplar is a state that ends its bout (the final state, or the state before a merge), and every state that ends a bout is the exemplar of its bout |
| LoadSequences.BoutStats | experiments/load_sequences.py:60-62 | exactly the statistics rows whose meta-operation is an exemplar |
| LoadSequences.TargetStatsSpec | experiments/load_sequences.py:51-63 | a statistics row is kept exactly when its state ends a bout |
| LoadSequences.CollectRuns | experiments/load_sequences.py:74-95 | the results are stored under exactly the keys of the runs whose order is "time" or "random" (both keys present), each with its computed result |
| LoadSequences.LoadRuns | experiments/load_sequences.py:33-95 | the load fails with `ValueError` exactly when a file name does not parse; otherwise it holds one computed result for each processed run of a finished root |
| LoadSequences.RunsAreFinished | experiments/load_sequences.py:38-81 | every processed run belongs to a root with all twelve files and is time- or random-ordered |
| SequenceMetrics.SchemeOf | experiments/compute_neuronwise_sequence_metrics.py:41-42 | the scheme is "clean-and-merge" exactly when the file has an order and "historical" exactly when it has none |
| SequenceMetrics.Dispatch | experiments/compute_neuronwise_sequence_metrics.py:218-226 | "clean-and-merge" picks merge-and-clean, "historical" the time-ordered sequence, and any other scheme raises `ValueError` |
| SequenceMetrics.SchemesDispatch | experiments/compute_neuronwise_sequence_metrics.py:41-226 | every scheme a file gets is recognised, so the `ValueError` branch is never taken |
| SequenceMetrics.TargetCounts | experiments/compute_neuronwise_sequence_metrics.py:138-140 | the groups are exactly the keys present in some row, rows with a missing key belonging to none, and every group is non-empty |
| SequenceMetrics.TargetCountsSpec | experiments/compute_neuronwise_sequence_metrics.py:138-140 | each group's size is the number of rows with its key |
| SequenceMetrics.TotalAt | experiments/compute_neuronwise_sequence_metrics.py:138-140 | the sum of the group sizes can start at any group |
| SequenceMetrics.CountsTotal | experiments/compute_neuronwise_sequence_metrics.py:138-140 | the group sizes add up to the number of rows with a key |
| SequenceMetrics.CountOne | experiments/compute_neuronwise_sequence_metrics.py:138-140 | counting one more row of a key adds one to the total |
| SequenceMetrics.ApplyMetadata | experiments/compute_neuronwise_sequence_metrics.py:149-161 | every row gets the sequence key, and its position as `order` |
| SequenceMetrics.Untagged | experiments/compute_neuronwise_sequence_metrics.py:156 | dropping the tags keeps the number of rows |
| SequenceMetrics.ApplyMetadataSpec | experiments/compute_neuronwise_sequence_metrics.py:149-161 | tagging keeps every row in order (untagging gives the table back), and the six-level index is unique even when the old index repeats |
| SequenceMetrics.CollectFeatures | experiments/compute_neuronwise_sequence_metrics.py:196-269 | the loop never fails; it stores features under exactly the sequence keys of the finished files, each built by merge-and-clean when the key has an order and time-ordered otherwise |
| SubgraphPower.RootMapOf | experiments/subgraph_power.py:34-45 | what a right `root_map` is: a current root maps to itself, an outdated root to its single nucleus root, and an outdated root with no nucleus or several is absent (the predicate `BuildRootMap` ensures) |
| SubgraphPower.BuildRootMap | experiments/subgraph_power.py:34-45 | the map holds every current root as itself, and an outdated root exactly when one nucleus row comes back, mapped to that row's root |
| SubgraphPower.UpdatedRoots | experiments/subgraph_power.py:47 | the lookup succeeds exactly when the map holds every root, giving each root's image in order; otherwise `KeyError` |
| SubgraphPower.RemappedLookup | experiments/subgraph_power.py:34-47 | after the remapping loop the lookup succeeds exactly when every outdated root found a single nucleus; each root becomes itself when current and its nucleus's root otherwise |
| SubgraphPower.WithSequence | experiments/subgraph_power.py:109-114 | the roots kept are exactly the working roots whose current root has a finished set of sequence files |
| SubgraphPower.Intersect1d | experiments/subgraph_power.py:146 | the intersection is strictly increasing and holds exactly the values found in both arguments |
| SubgraphPower.IntersectCommutes | experiments/subgraph_power.py:146 | the intersection does not depend on the order of its arguments |
| SubgraphPower.InducedSynapses | experiments/subgraph_power.py:135-146 | the induced synapses are sorted, unique, and exactly the ids found at least once as an output and at least once as an input |
| SubgraphPower.Breaks | experiments/subgraph_power.py:165-168 | one break per state, its time, then the far-future sentinel |
| SubgraphPower.FromBreaks | experiments/subgraph_power.py:169 | building intervals fails with `ValueError` exactly when some break is smaller than the one before it; otherwise one left-closed interval between each pair of consecutive breaks |
| SubgraphPower.StepsSorted | experiments/subgraph_power.py:165-169 | breaks that never step down are sorted |
| SubgraphPower.FindInterval | experiments/subgraph_power.py:165-169 | a time between the first and last break lies between two consecutive breaks |
| SubgraphPower.IntervalsPartition | experiments/subgraph_power.py:165-170 | the intervals cover exactly the span from the first break to the sentinel, and no time lies in two of them |
| SubgraphPower.StateRows | experiments/subgraph_power.py:172-175 | one state explodes into one row per id, or a single row without an id when its list is empty, each carrying the state, root and interval |
| SubgraphPower.Explode | experiments/subgraph_power.py:172-175 | exploding the states gives exactly a row per id of each state, plus a row without an id for each empty state |
| SubgraphPower.ProcessResolved | experiments/subgraph_power.py:155-176 | processing fails with `ValueError` exactly when the breaks are out of order |
| SubgraphPower.ProcessResolvedSpec | experiments/subgraph_power.py:155-176 | every induced id of a state appears in a row of that state with the state's interval; every row's id is an induced id of its state; a state without induced ids leaves one row without an id |
| SubgraphPower.AtTimeSingleState | experiments/subgraph_power.py:165-176 | at any time, the live rows of one neuron come from a single state |
| SubgraphPower.Join | experiments/subgraph_power.py:223-227 | the inner join gives exactly one edge per output row and input row with equal ids, from the output's root to the input's root |
| SubgraphPower.NoLoops | experiments/subgraph_power.py:228-229 | exactly the edges whose source and target differ |
| SubgraphPower.AtTime | experiments/subgraph_power.py:214-219 | exactly the rows whose interval contains the time |
| SubgraphPower.KeyedAll | experiments/subgraph_power.py:221-222 | every row indexed by its id as it stands, a missing id included |
| SubgraphPower.Present | experiments/subgraph_power.py:221-222 | exactly the rows with an id, indexed by it |
| SubgraphPower.SynapselistAtTimeAsWritten | experiments/subgraph_power.py:211-230 | as written: every edge leaves a neuron with a state live at t, and with `remove_loops` no edge is a loop |
| SubgraphPower.SynapselistAtTime | experiments/subgraph_power.py:211-230 | every edge is a synapse id held by a live output row of its source neuron, and with `remove_loops` no edge is a loop |
| SubgraphPower.MissingIdsJoin | experiments/subgraph_power.py:211-230 | as written, two neurons whose live states hold no induced synapse get an edge standing for no synapse |
| SubgraphPower.SynapselistAtTimeSpec | experiments/subgraph_power.py:211-230 | an edge at time t is exactly a synapse id held by a live output row and a live input row, from the output's root to the input's root, with the roots differing when loops are removed |
| SubgraphPower.ILoc | experiments/subgraph_power.py:267 | positional access succeeds exactly for positions from -n to n-1, a negative one counting from the end; otherwise `IndexError` |
| SubgraphPower.SelectState | experiments/subgraph_power.py:265-267 | a picked position is a state of the sequence; the only failure is `IndexError` |
| SubgraphPower.SelectStateSpec | experiments/subgraph_power.py:265-267 | the pick succeeds exactly when the sequence has a state, and otherwise raises `IndexError`; it is the floor of the effort's fraction of the edits, so zero effort picks the initial state and full effort the final one |
| SubgraphPower.SelectStateMonotone | experiments/subgraph_power.py:264-267 | more effort never picks an earlier state |
| SubgraphPower.RowAt | experiments/subgraph_power.py:264-281 | the only failure is `IndexError`; a row records its neuron, its effort and the neuron's edit count |
| SubgraphPower.RowAtSpec | experiments/subgraph_power.py:264-281 | a neuron's row exists exactly when its sequence has a state; it records root, effort, edit count and pick, and its lists are exactly the picked state's induced ids, sorted |
| SubgraphPower.RootSelections | experiments/subgraph_power.py:264-281 | a neuron without states raises `IndexError`; otherwise its three rows are its rows at no, half and full effort |
| SubgraphPower.SelectedStep | experiments/subgraph_power.py:261-281 | three rows for one more neuron extend the rows selected from the roots so far |
| SubgraphPower.CollectSelections | experiments/subgraph_power.py:259-281 | the loop stops with `IndexError` exactly when some neuron has no state; otherwise it holds three rows per distinct root, in first-occurrence order |
| SubgraphPower.SelectionsInduced | experiments/subgraph_power.py:259-281 | every id recorded in a selection row is an induced synapse |
| SubgraphPower.Long | experiments/subgraph_power.py:325-340 | exactly one row per listed id, with its row's root; an empty list leaves nothing once missing ids are dropped |
| SubgraphPower.SubgraphEdges | experiments/subgraph_power.py:319-345 | every subgraph edge joins two different neurons of the subgraph |
| SubgraphPower.SubgraphEdgesSpec | experiments/subgraph_power.py:319-345 | a subgraph edge is exactly an id listed as an output of one selected neuron and as an input of another, both at the chosen effort and in the subgraph, never a neuron to itself |
| SubgraphPower.SubgraphEdgesInduced | experiments/subgraph_power.py:259-345 | every subgraph edge built from the selection loop stands for an induced synapse |

## Left out

- Service I/O (CAVEclient chunkedgraph, materialize, l2cache and info calls; CloudFiles listing; meshes) is not modelled; its results are inputs or function parameters.
- `apply_edit`, `reverse_edit`, `apply_additions`, `collate_edit_info`, `get_lineage_tree` and the lazy loaders are not part of this model; where a script calls them, their results are parameters.
- The `NeuronFrameSequence` class (`create_time_ordered_sequence`, `create_merge_and_clean_sequence`, `select_by_bout`, `apply_to_synapses_by_sample`) is not part of this model; the scripts' sequences are given as their per-state tables.
- `get_positions` and its retries (pkg/pkg/utils/wrangle.py:16-21) are left out: they are unbounded network I/O.
- Floating point is left out: node positions, distances, path lengths, `pairwise_distances_argmin`, `cdist`, proportions (`compute_target_proportions`, `compute_spatial_target_proportions`), `pd.cut` bins, centroid means in `metaedits`.
- Morphology.NucleusColumn.ApplyNucleus: only the non-positional branch is modelled; the positional branch picks the nearest node by distance, which is floating point.
- Shortest paths (`nx.shortest_path`) are not computed: the path from the nucleus to a synapse is a parameter, and only its node sequence is used.
- Randomness is left out: `np.random.permutation`, `Series.sample` and `StratifiedShuffleSplit` become an arbitrary permutation, an arbitrary sample or an arbitrary subset of roots.
- The nucleus and m-type mapping in experiments/subgraph_power.py:50-83, the stratification by m-type, the `n_select_edits` sums and the statistics tables after line 350 are left out (service data and floating-point summaries).
- Parallelism (`joblib.Parallel`) is left out; each parallel map is the sequential map it computes.
- Plotting, neuroglancer links, `print`, progress bars, timing and pickling are left out.
- The dependency-graph checks and plotting in experiments/synapse_to_edit_mapping.py:451-501 are left out; the model stops at each synapse's dependency path.
- Changes.MetaGroups: `get_network_metaedits` combines the deltas of a Python `set` of operation ids, whose iteration order is not visible; the model takes the operations in the order their lineage edges are met, so the concatenation order of a meta-delta is that order.
- SubgraphPower.Join: states which rows the join holds, not their order or how often a row repeats.
- SubgraphPower.SelectStateSpec: the effort fraction is one of the three values the loop uses (0, 0.5, 1.0), not a general float.
- ViewSegments.SegmentEdges: an edge with an end outside the segment labelling gives no pair, whereas pandas would keep a row holding NaN.
- SequenceMetrics.ApplyMetadata: returns the tagged table as a value; the source also tags the caller's frame in place, which nothing reads afterwards.
- FileNames.ParseInt: Python's `int` also accepts surrounding whitespace and `_` between digits; these forms are not modelled.
- The row order of `pd.concat` over the loops' dictionaries is not modelled; the collected results are maps keyed as in the source.
- Changes.MetaOperationMap: components are numbered in the order in which a node of each first appears in the node index; networkx's enumeration order is not visible, so only the partition, not the numbering, is the source's.
- Wrangle.CollectNodes: the node list of `list(set())` (pkg/pkg/utils/wrangle.py:39-43) has no defined order; the model fixes first-appearance order, so only which nodes there are, without repeats, is the source's.
- `select_component_from_node` and `n_connected_components` belong to the graph-frame library, which is not part of this model; selecting from a node absent from the frame is taken to raise `KeyError`.

## Findings

| source | as written | input that shows it | evidently intended | confidence | as-written member | corrected member |
|---|---|---|---|---|---|---|
| pkg/pkg/morphology/synapses.py:90-92 | `Series.isin(Series)` tests the lineage map's values (component labels), not its index (level-2 ids), so a synapse whose current level-2 id took part in an edit is taken as current | supervoxel 5 with current level-2 id 100; lineage map {100: 0, 101: 0}; node list [101]; children(101) = [5]: the synapse keeps id 100, which is not a node | test membership in the map's index, so the synapse resolves to node 101 that holds its supervoxel | high, not executed | Synapses.ValuesTestMissesLineage | Synapses.Level2IdsIndexTest |
| pkg/pkg/morphology/synapses.py:41 | `syn_df.set_index("id")` discards its result, so both tables keep positional labels 0, 1, … and a pre-side and a post-side row of different synapses share a label | two synapses with different ids, the first with only its pre root among the latest roots and the second with only its post root: each table is one row labelled 0 | index both tables by synapse id, so distinct synapses never share a label | high, not executed | Synapses.AlltimeLabelsCollide | Synapses.AlltimeLabelsDistinct |
| experiments/synapse_to_edit_mapping.py:345-347 | the predecessor filter compares against `metaoperation_id`, a variable left over from the `groupby` loop at lines 280-315 (the key of its last group), so a dependency equal to that stale id is dropped | a path through one keypoint tagged with meta-operation m, while the last group of the `groupby` loop had key m: the dependencies come out empty instead of [m] | keep every meta-operation tagged on the path, with no comparison against a stale loop variable | medium, not executed | SynapseEditMapping.StaleIdDropsDependency | SynapseEditMapping.SynapseDependencies |
| experiments/synapse_to_edit_mapping.py:537-549 | the collected ids come from the `synapses` column, which holds input- as well as output-synapse ids, and each is looked up in `pre_synapses` | a nucleus-component node whose `synapses` list holds an input-synapse id p that is not in `pre_synapses`: the lookup raises `KeyError` | collect from `pre_synapses`, so every lookup succeeds and the row sums to the number of output synapses collected | high, not executed | SynapseEditMapping.InputSynapseBreaksCount | SynapseEditMapping.OutputSynapsesCount |
| sandbox/access_time_ordered_cleaned.py:181-182 | frame i applies `edits.index[:i]`, the edits before edit i, while it is labelled with edit i's user and time; no frame applies the last edit | any list of distinct edits: frame i lacks edit i, and the last frame lacks the last edit | frame i applies the first i + 1 edits, so its labelled edit is applied and the last frame is the finished neuron | medium, not executed | TimeOrdered.LabelledEditNotApplied | TimeOrdered.FrameThroughSpec |
| experiments/subgraph_power.py:173-225 | `explode` leaves a row with a missing synapse id for a state with no induced synapse, and the inner join on `synapse_id` pairs such missing ids with each other | an output row of root 1 and an input row of root 2, both without an id and both live at t: the synapse list at t holds an edge 1 → 2 that stands for no synapse | join only rows with an id, as the `dropna` at lines 330 and 338 does for the subgraph edges | medium, not executed | SubgraphPower.MissingIdsJoin | SubgraphPower.SynapselistAtTimeSpec |
