# RiverObs: the observation-to-node bookkeeping of SWOTRiver

`RiverObs` holds the point observations of one river reach and groups them
into nodes, one per sample of the reach's centerline. The centerline projects
each observation onto its nearest sample. That gives six parallel arrays:
nearest sample `index`, distance `d`, the sample's coordinates `x`, `y`, and
the along/across-track offsets `s`, `n`.

`RiverObs` then does five things:

1. It shifts each `s` by the cumulative arc length of its own nearest sample.
2. When a `max_width` is given, it drops every observation whose `|n|` exceeds
   `max_width/2`, cutting all six arrays with the same boolean mask.
3. It inverts `index` into node → observation positions. Nodes are visited in
   ascending order and kept only when they have at least `minobs`
   observations. A dense per-sample count array `nobs` is filled in.
4. It registers further named arrays of either the raw length `ndata` or the
   filtered length `nedited_data`, masking raw-length ones down.
5. It retrieves per-node slices of any array. With those it materializes one
   node aggregate per populated node and collects a statistic over them.

The model is in five modules:

- `Sequences` holds the numpy primitives stated on sequences:
  - `flatnonzero(a == v)` as `IndicesOf`;
  - boolean masking as `Filter`;
  - integer-array indexing as `Gather`;
  - occurrence counting as `Count`.
- `NodeMapping` holds the inverse mapping as pure functions: `Unique`
  (numpy's `unique`), `PopulatedNodes`, `NodeMap` and `NodeCount`.
- `Channel` holds the channel mask, the absolute along-track shift, and the
  raw-or-filtered view of a caller's array (`Edited`, `Registered`).
- `SWOTRiver` holds the class `RiverObs` with one field per attribute the
  source updates:
  - `index`, `d`, `x`, `y`, `s`, `n`;
  - `inChannel` and `neditedData`;
  - `populatedNodes` and `obsToNodeMap`;
  - `nobs` as an `array<int>`;
  - `named`, a name → array map standing in for the attributes `add_obs`
    creates;
  - `riverNodes`, the ordered node aggregates, absent (`None`) until
    `LoadNodes` first runs, as the source attribute is.

  Its methods carry `modifies` frames. The constructor establishes the
  `Valid` invariant, and `AddObs` and `LoadNodes` keep it. `GetObsToNodeMap`
  keeps it when re-run on the stored index with the stored threshold. A
  public re-run with another threshold leaves `Valid`. `AddObs` still
  works from there, since it only needs the raw count, the filtered count
  and the mask to agree.
- `Wrappers` holds `Option`, `Result` and the pass/fail outcome of `AddObs`.

The constructor takes the centerline's output as a `Projection` value (the
six arrays) and the centerline's cumulative arc length `centerlineS`. It
requires every `index` entry to be a valid sample. It stores
`Edit(proj, centerlineS, maxWidth)`, which is the shift followed by the same
`Cut` that `FlagOutChannel` performs in place. It also stores the result of
`ObsToNodeMap`, the loop that `GetObsToNodeMap` runs.

## Model

| member | source | states |
|---|---|---|
| SWOTRiver.Projection.Cut | src/SWOTRiver/RiverObs.py:83-88 | the six arrays cut with one mask stay aligned, each as long as the number of kept entries, and entry `i` of every cut array is the old entry at the `i`-th kept position |
| SWOTRiver.Edit | src/SWOTRiver/RiverObs.py:57-69 | the edited arrays stay aligned and in range of the centerline; without a width nothing is dropped; with a width as many remain as the mask keeps, at most `ndata` |
| SWOTRiver.EditedCoordinates | src/SWOTRiver/RiverObs.py:62-69 | after the edit every array but `s` is the kept observations' array (all of them, or the in-channel ones in order); each `s[i]` is the kept local offset plus the arc length of `index[i]`; with a width every remaining `|n| <= max_width/2` |
| SWOTRiver.ObsToNodeMap | src/SWOTRiver/RiverObs.py:99-112 | the loop yields the populated nodes, their position lists, and a fresh dense count array of the centerline's length holding each populated node's count and 0 elsewhere |
| SWOTRiver.RiverObs.constructor | src/SWOTRiver/RiverObs.py:23-75 | establishes `Valid`; the coordinates are the shifted and (with a width) channel-filtered projection, `inChannel` is the channel mask, no named array exists and no nodes are loaded; `maxWidth` defaults to none and `minobs` to 1 |
| SWOTRiver.RiverObs.FlagOutChannel | src/SWOTRiver/RiverObs.py:77-90 | the returned and stored mask is `|n| <= width/2` over the raw `n`, and all six arrays are cut with it in lockstep |
| SWOTRiver.RiverObs.GetObsToNodeMap | src/SWOTRiver/RiverObs.py:92-114 | stores and returns the populated nodes of `idx` at threshold `minobs` (default 1), their position lists, and the dense count array; re-run on the stored index with the stored threshold it keeps `Valid` |
| SWOTRiver.RiverObs.AddObs | src/SWOTRiver/RiverObs.py:116-130 | in any state where the counts and the mask agree: a length other than `ndata`/`nedited_data` fails with the source's message and stores nothing; otherwise stores the raw-or-filtered view under the name, overwriting; `Valid` is kept when it held |
| SWOTRiver.RiverObs.ObsToNode | src/SWOTRiver/RiverObs.py:132-155 | a node without a position list yields the empty sequence, and every entry retrieved is an entry of the given array |
| SWOTRiver.RiverObs.ObsToNodeContents | src/SWOTRiver/RiverObs.py:147-155 | for a populated node, the result is the filtered view at the ascending positions of that node, as many as its count and at least `minobs` |
| SWOTRiver.RiverObs.ObsToNodeUnpopulated | src/SWOTRiver/RiverObs.py:147-148 | an unpopulated node yields the empty sequence |
| SWOTRiver.RiverObs.ObsToNodeIndex | src/SWOTRiver/RiverObs.py:147-155 | retrieving `index` for a populated node `k` yields `nobs[k]` copies of `k` |
| SWOTRiver.RiverObs.ObsToNodeRegistered | src/SWOTRiver/RiverObs.py:152-155 | retrieving a registered array gives the same entries as retrieving the array it was registered from |
| SWOTRiver.RiverObs.NodeObs | src/SWOTRiver/RiverObs.py:175-177 | the variables of a node are keyed by exactly the requested names |
| SWOTRiver.RiverObs.NodeObsValues | src/SWOTRiver/RiverObs.py:175-177 | each variable of a node is the node's slice of the registered array of that name |
| SWOTRiver.RiverObs.BuildNode | src/SWOTRiver/RiverObs.py:168-177 | a node aggregate has the node's id and exactly the requested variables |
| SWOTRiver.RiverObs.BuildNodeShape | src/SWOTRiver/RiverObs.py:168-177 | a populated node's coordinates and variables each hold one entry per observation of the node |
| SWOTRiver.RiverObs.BuildNodeSnoc | src/SWOTRiver/RiverObs.py:175-177 | adding the next variable to a node is building the node with one more name |
| SWOTRiver.RiverObs.LoadNode | src/SWOTRiver/RiverObs.py:169-177 | the coordinates first, then each variable in turn, give the node's aggregate |
| SWOTRiver.RiverObs.LoadNodes | src/SWOTRiver/RiverObs.py:157-177 | the node collection now exists and holds one aggregate per populated node, in populated (ascending) order, each with that node's id and built from its slices; `vars` defaults to none |
| SWOTRiver.RiverObs.GetNodeStat | src/SWOTRiver/RiverObs.py:179-195 | before any nodes are loaded it fails with the missing-attribute error; otherwise success iff the stat succeeds on every node, giving one result per node in node order, else the error of the first failing node |
| Channel.InChannelMask | src/SWOTRiver/RiverObs.py:81 | one mask entry per observation (what it keeps: ChannelFilter) |
| Channel.AbsoluteS | src/SWOTRiver/RiverObs.py:62 | one shifted `s` per observation |
| Channel.ChannelFilter | src/SWOTRiver/RiverObs.py:81-88 | masking keeps the entries at the strictly ascending positions where `|n| <= max_width/2`, all of them and only those, and never lengthens an array |
| Channel.RetainedInChannel | src/SWOTRiver/RiverObs.py:81-88 | every retained `n` is within half the width |
| Channel.AbsoluteSFilter | src/SWOTRiver/RiverObs.py:62-87 | filtering the shifted `s` equals shifting the filtered `s` by the filtered `index` |
| Channel.Edited | src/SWOTRiver/RiverObs.py:127-128 | with filtering on, a raw-length array's view has the filtered length; every entry of the view is an entry of the array |
| Channel.EditedIdempotent | src/SWOTRiver/RiverObs.py:124-128 | an array of raw or filtered length has a filtered-length view; the view of the view is the view; a filtered-length array is its own view |
| Channel.Registered | src/SWOTRiver/RiverObs.py:124-130 | refused iff the length is neither `ndata` nor `nedited_data`; otherwise filtered length, masked when raw and filtering, unchanged when already filtered length |
| NodeMapping.Unique | src/SWOTRiver/RiverObs.py:101 | the distinct node ids are exactly the ids occurring in `index` |
| NodeMapping.UniqueAscending | src/SWOTRiver/RiverObs.py:101 | the distinct node ids are strictly ascending |
| NodeMapping.KeepPopulated | src/SWOTRiver/RiverObs.py:106-110 | keeps exactly the visited nodes with at least `minobs` observations |
| NodeMapping.PopulatedNodes | src/SWOTRiver/RiverObs.py:101-110 | node `k` is populated iff it occurs in `index` at least `minobs` times |
| NodeMapping.PopulatedAscending | src/SWOTRiver/RiverObs.py:101-110 | the populated nodes are strictly ascending |
| NodeMapping.RaiseThreshold | src/SWOTRiver/RiverObs.py:109-110 | filtering at `lo` then at `hi >= lo` is filtering at `hi` |
| NodeMapping.PopulatedMonotone | src/SWOTRiver/RiverObs.py:109-110 | raising `minobs` only removes populated nodes, keeping the order of the rest |
| NodeMapping.NodeMap | src/SWOTRiver/RiverObs.py:103-111 | the map has a key exactly for each node of `populated` |
| NodeMapping.NodeMapAt | src/SWOTRiver/RiverObs.py:111 | the map has a key exactly for each populated node, holding its positions |
| NodeMapping.NodeMapContents | src/SWOTRiver/RiverObs.py:107-111 | each populated node's list holds all and only its positions, strictly ascending, as many as its count and at least `minobs` |
| NodeMapping.NodeMapPartition | src/SWOTRiver/RiverObs.py:107-111 | an observation of a populated node is listed under that node and under no other |
| NodeMapping.NodeCount | src/SWOTRiver/RiverObs.py:104-112 | the dense count of `k` is positive iff `k` occurs in `index` at least `minobs` times, and then it is that number of occurrences |
| NodeMapping.NodeCountPopulated | src/SWOTRiver/RiverObs.py:104-112 | the dense count is positive exactly at populated nodes, where it is the node's count |
| NodeMapping.SumCountsIsCoverage | src/SWOTRiver/RiverObs.py:106-111 | the counts of distinct nodes add up to the number of observations at those nodes |
| Sequences.IndicesOf | src/SWOTRiver/RiverObs.py:107 | the positions of `v` are exactly the in-range `j` with `s[j] == v` |
| Sequences.IndicesOfAscending | src/SWOTRiver/RiverObs.py:107 | those positions are strictly ascending |
| Sequences.IndicesOfCount | src/SWOTRiver/RiverObs.py:107-108 | there are as many positions as occurrences |
| Sequences.CountIsMultiplicity | src/SWOTRiver/RiverObs.py:108 | the occurrence count equals the multiplicity in the multiset of the sequence |
| Sequences.Filter | src/SWOTRiver/RiverObs.py:83-88 | the masked array is as long as the number of true mask entries and holds only entries of the array |
| Sequences.FilterIsGather | src/SWOTRiver/RiverObs.py:83-88 | masking is indexing at the mask's true positions |
| Sequences.KeptAtMostAll | src/SWOTRiver/RiverObs.py:69 | a mask keeps at most as many entries as it has, so `nedited_data <= ndata` |
| Sequences.FilterAllKept | src/SWOTRiver/RiverObs.py:152-153 | a mask that keeps every entry leaves an array unchanged |
| Sequences.Gather | src/SWOTRiver/RiverObs.py:155 | indexing yields one entry per position, each an entry of the array |
| Sequences.GatherIndicesOf | src/SWOTRiver/RiverObs.py:155 | indexing an array at the positions of `v` yields `v` once per occurrence |

## Left out

- Centerline construction and nearest-point projection are not part of this model. Their output is a parameter of the constructor (a `Projection` and the cumulative arc length), and every `index` entry is required to be a valid sample.
- `RiverNode` internals and its statistics (`mean`, `std`, `cdf`): a node aggregate is a record of sequences, `add_obs` on it is a map update, and a statistic is a function parameter that may fail.
- SWOTRiver.RiverObs.GetNodeStat: the missing-attribute error before any `load_nodes` is modelled as a failure carrying the Python 2 message of the source's runtime (it uses `iteritems`); the exception type is not modelled.
- Python reflection: `add_obs` stores under a name in `named` rather than creating an attribute. `load_nodes` and `get_node_stat` look names up there rather than evaluating strings.
- `load_nodes` wraps a single string argument into a list; the model always takes a sequence of names.
- SWOTRiver.RiverObs.LoadNodes: accepts only names registered with `AddObs`, as the method's own documentation asks of its callers. The source resolves each name as an attribute of the object, so it also accepts the object's own arrays (for example `index`), and it raises part-way through on a name that is neither.
- The `print` calls and the `metadata` copy in the constructor are I/O and opaque pass-through.
- Coordinates are `real`; the IEEE rounding of `abs(n) <= max_width/2.` is not modelled.
- `nobs` is `int32` in the source; counts are unbounded integers here, so no wrap-around is modelled.
- SWOTRiver.RiverObs.ObsToNode: positions out of range of the array's view give the empty sequence where numpy raises an indexing error. Under `Valid`, with an array of raw or filtered length, this never happens (ObsToNodeContents).
- SWOTRiver.RiverObs.ObsToNode tests membership in `obsToNodeMap` where the source tests `populated_nodes`. Under `Valid` the two key sets are the same (NodeMapAt).
- SWOTRiver.RiverObs.constructor: it does not call `FlagOutChannel` and `GetObsToNodeMap` on the half-built object. It stores what those calls produce: `Edit` is the shift followed by the same `Cut` that `FlagOutChannel` ensures, and `ObsToNodeMap` is the loop that `GetObsToNodeMap` wraps. The intermediate states between the two calls are not modelled.
- SWOTRiver.RiverObs.constructor: the centerline's own parameters `k` and `ds` (spline degree and sample spacing) belong to the centerline construction, which is not part of this model.
- SWOTRiver.RiverObs.FlagOutChannel: it requires the arrays to still have their raw length. Applying the filter a second time, after construction, is not modelled.
- SWOTRiver.RiverObs.AddObs: requires the raw count, the filtered count and the mask to agree, as the constructor leaves them. A second channel filter can leave them disagreeing; the source then masks with a mask of another length, which is not modelled.
