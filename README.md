# Leakage filter and degree-restricted edge exclusion, modelled in Dafny

This project models two small utilities used to train link-prediction models on graphs.

- **The degree-restricted exclusion sampler** (`low_degree_edge_sampler.py`). It handles one mini-batch of seed (positive) edges and decides which of them to keep out of message passing. A seed edge is a candidate only when the smaller in-degree of its two endpoints is strictly below the degree threshold (10 by default). The exclusion rule is then applied to the candidates alone:
  - no rule: nothing is excluded;
  - `'self'`: the candidates are excluded;
  - `'reverse_id'`: the candidates are excluded, and so is the reverse edge of each one.
- **The leakage filter** (`split_check` in `leakage_check.py`). It builds the graph used for inference. It copies the graph and removes edges from the copy. Only listed pairs whose forward edge s→t exists are scanned. For each scanned pair, the code collects the IDs of its edges in both directions, s→t and t→s, and removes them. Validation pairs are skipped when validation edges may serve as input. So an edge that runs only t→s for a listed pair (s, t) is not removed on account of that pair (see "## Findings"). The corrected filter `SplitCheckBothWays` removes every edge joining a listed pair, whichever way it runs.

The graph is a value: `Graphs.Graph(numNodes, edges)`, where the ID of an edge is its index in `edges`. The graph-library calls made by the two utilities become operations on that sequence:

| library call | model |
|---|---|
| edge lookup (`find_edges`) | indexing; fails with `InvalidEdgeId` on an out-of-range ID |
| `in_degrees` | `InDegree` |
| `has_edges_between` | `HasEdge`; fails with `InvalidNodeId` on a node the graph does not have |
| `edge_ids(..., return_uv=True)[-1]` | `EdgeIds`: every ID of a parallel edge |
| `remove_edges` | `RemoveEdges`: the listed IDs go, the rest keep their order, and the node set is unchanged |

The deep copy followed by an in-place `remove_edges` becomes a local copy of the value that is then reassigned. So the caller's graph cannot change.

The scanning loops of `split_check` are the imperative method `LeakageCheck.CollectJoiningIds`. Its loop invariant tracks the set of collected IDs. `LeakageCheck.SplitCheck` is proved equal to the function `InferenceGraphAsWritten`. The corrected filter `SplitCheckBothWays` is proved equal to `InferenceGraph`. Each property below is proved for both filters, except the cut of an edge that runs only backward: that cut holds only for the corrected filter (see "## Findings").

The reverse-ID rule is carried out by a library helper whose code is not part of this model. Its docstring (low_degree_edge_sampler.py:22-28) documents only the content of the result: the given edges, plus `reverse_eids[c]` for each given edge `c`. The rest is this model's rendering of the helper, assumed rather than documented:
- the order: the candidates come first, then their reverses in candidate order;
- a missing map is an error (`MissingReverseMap`);
- a candidate with no entry in the map is an error (`InvalidReverseIndex`).

The exclusion is meant never to exclude a high-degree edge, whatever the rule. The code guarantees this for reverse-ID mode only when `reverse_eids` really maps each edge to an edge running the other way, because the code never checks the map. `ReverseExclusionLowDegree` proves the guarantee under that hypothesis.

## Model

| member | source | states |
|---|---|---|
| `Graphs.InDegree` | low_degree_edge_sampler.py:49-50 | the in-degree of a node is at most the number of edges, and it is positive exactly when some edge enters the node |
| `Graphs.EdgeIdsComplete` | leakage_check.py:44-47 | the ID lookup for a pair s→t returns every ID of an s→t edge, parallel edges included, and nothing else; it is non-empty exactly when an s→t edge exists |
| `Graphs.SurvivingIds` | leakage_check.py:56 | the IDs that survive removal are exactly the unlisted IDs of the graph, in ascending order |
| `Graphs.RemoveEdges` | leakage_check.py:56 | edge removal keeps the node count; the k-th surviving edge is the edge at the k-th unlisted ID, so survivors keep their relative order |
| `Graphs.RemoveEdgesMembership` | leakage_check.py:56 | an edge survives removal exactly when some unlisted ID carries it |
| `Graphs.SurvivingIdsByMembership` | leakage_check.py:55-56 | which IDs survive depends only on which IDs are listed, not on their order or how often they appear |
| `Graphs.RemoveEdgesByMembership` | leakage_check.py:55-56 | removing an ID listed twice (for example by a self-loop pair) has the same effect as listing it once |
| `Graphs.RemoveEdgesWellFormed` | leakage_check.py:56 | removal never leaves an edge pointing at a node outside the graph |
| `LowDegreeEdgeSampler.DegreeScore` | low_degree_edge_sampler.py:48-51 | the degree score of an edge is the smaller of its endpoints' in-degrees |
| `LowDegreeEdgeSampler.DegreeCandidates` | low_degree_edge_sampler.py:48-53 | an edge is a candidate exactly when it is a seed edge whose score is strictly below the threshold |
| `LowDegreeEdgeSampler.FindExcludeEids` | low_degree_edge_sampler.py:9-62 | an out-of-range seed fails edge lookup; with no rule nothing is excluded, whatever the degrees; self mode excludes exactly the low-degree seeds, in seed order; reverse-ID mode gives the candidates, then each candidate's reverse, and nothing else; it fails with a missing-map error without a map, and with an invalid-index error when a candidate has no entry |
| `LowDegreeEdgeSampler.CandidatesAppend` | low_degree_edge_sampler.py:52-53 | selecting candidates distributes over concatenation of seed batches, so the selection keeps seed order |
| `LowDegreeEdgeSampler.CandidatesMonotone` | low_degree_edge_sampler.py:52 | raising the threshold never loses a candidate; the lower-threshold candidates are the higher-threshold candidates filtered again |
| `LowDegreeEdgeSampler.ZeroThresholdExcludesNothing` | low_degree_edge_sampler.py:51-59 | with a threshold of 0 or below there are no candidates, so the result is no exclusion or an empty list |
| `LowDegreeEdgeSampler.HighDegreeSeedKept` | low_degree_edge_sampler.py:48-59 | a seed edge whose endpoints both have in-degree at least the threshold is not excluded in self mode |
| `LowDegreeEdgeSampler.LowDegreeSeedExcluded` | low_degree_edge_sampler.py:48-59 | a seed edge with an endpoint of in-degree below the threshold is excluded in self mode |
| `LowDegreeEdgeSampler.ReverseSameScore` | low_degree_edge_sampler.py:22-28 | an edge and its reverse have the same degree score |
| `LowDegreeEdgeSampler.ReverseExclusionLowDegree` | low_degree_edge_sampler.py:22-59 | with a true reverse map, reverse-ID exclusion succeeds and excludes only edges scoring below the threshold |
| `LowDegreeEdgeSampler.SparseGraphScores` | low_degree_edge_sampler.py:48-51 | on edges 0→1, 1→2, 2→3, 3→4, 1→3, edge 0 scores 0 and the other four score 1 |
| `LowDegreeEdgeSampler.AllSeedsLowDegree` | low_degree_edge_sampler.py:52-53 | when every seed scores below the threshold, every seed is a candidate, in seed order |
| `LowDegreeEdgeSampler.NoSeedLowDegree` | low_degree_edge_sampler.py:52-53 | when no seed scores below the threshold, there are no candidates |
| `LowDegreeEdgeSampler.SparseGraphThresholdTwo` | low_degree_edge_sampler.py:52-53 | on that graph, threshold 2 selects every edge |
| `LowDegreeEdgeSampler.SparseGraphBoundary` | low_degree_edge_sampler.py:52-53 | on that graph, threshold 1 selects only edge 0, because a score equal to the threshold is not below it |
| `LowDegreeEdgeSampler.EdgePredictionSamplerWithDegree.constructor` | low_degree_edge_sampler.py:73-76 | the sampler stores the exclusion rule, the reverse-ID map and the degree threshold (10 unless given) |
| `LowDegreeEdgeSampler.EdgePredictionSamplerWithDegree.Sample` | low_degree_edge_sampler.py:78-102 | a sampling call computes the exclusion on the full graph and the seed edges as given, with the stored rule, map and threshold |
| `LowDegreeEdgeSampler.DefaultThresholdSample` | low_degree_edge_sampler.py:73-76 | a sampler built with only the self rule excludes exactly the seeds scoring below 10 |
| `LeakageCheck.JoinsSomeExists` | leakage_check.py:44-54 | an edge joins some listed pair exactly when it joins one pair at some position of the list |
| `LeakageCheck.JoinsSomeAppend` | leakage_check.py:40-54 | an edge joins a pair of two concatenated lists exactly when it joins a pair of one of them |
| `LeakageCheck.WithForwardEdge` | leakage_check.py:38-39 | the masked split holds exactly the listed pairs whose forward edge s→t exists, and no more of them than were listed |
| `LeakageCheck.ForwardEdgeAppend` | leakage_check.py:38-43 | masking distributes over concatenation, so the masked split keeps the listed pairs in list order |
| `LeakageCheck.JoiningIds` | leakage_check.py:40-55 | the IDs to remove are exactly the IDs of edges that join a scanned pair in either direction |
| `LeakageCheck.CollectJoiningIds` | leakage_check.py:43-54 | after the scanning loop, the collected IDs are the earlier ones plus exactly the IDs of edges joining a scanned pair |
| `LeakageCheck.CollectStep` | leakage_check.py:44-47 | one iteration adds exactly the IDs of the edges joining its pair, in both directions |
| `LeakageCheck.FlattenConcat` | leakage_check.py:55 | flattening the list of ID lists distributes over concatenation |
| `LeakageCheck.SplitCheck` | leakage_check.py:7-57 | a node outside the graph in either split is an error, even when validation edges serve as input; otherwise the result is the copy without every edge joining a scanned masked pair |
| `LeakageCheck.SplitCheckBothWays` | leakage_check.py:7-57 | the corrected filter: same errors, and the result removes every edge joining any scanned pair, whichever way it runs |
| `LeakageCheck.InferenceGraphEdges` | leakage_check.py:41-56 | an edge survives the filter exactly when it is in the graph and joins no scanned pair; the node count is unchanged |
| `LeakageCheck.ListedPairJoined` | leakage_check.py:44-54 | both directions of a listed pair join that pair |
| `LeakageCheck.ListedPairsCut` | leakage_check.py:41-56 | no test pair keeps an edge in either direction, parallel edges included; neither does a validation pair unless validation edges serve as input |
| `LeakageCheck.UnlistedEdgesKept` | leakage_check.py:41-56 | when validation edges serve as input, every edge joining no test pair survives, validation edges included |
| `LeakageCheck.RemovalByJoined` | leakage_check.py:55-56 | two scanned pair lists that join the same edges of the graph give the same inference graph |
| `LeakageCheck.EdgelessInsert` | leakage_check.py:43-54 | inserting a pair that no edge joins into a pair list changes no edge's joined status |
| `LeakageCheck.EdgelessPairHarmless` | leakage_check.py:38-56 | a validation or test pair with no edge in either direction changes the inference graph of neither the corrected filter nor the filter as written (whether the call fails is decided by `SplitCheck`'s node-range condition alone) |
| `LeakageCheck.AsWrittenEdges` | leakage_check.py:38-56 | as written, an edge survives exactly when it is in the graph and joins no scanned pair whose forward edge exists; the node count is unchanged |
| `LeakageCheck.MaskedJoinsListed` | leakage_check.py:38-43 | an edge joining a pair of the masked split joins a listed pair |
| `LeakageCheck.AsWrittenRemovesNoMore` | leakage_check.py:38-56 | the filter as written keeps every edge the corrected filter keeps: it never removes an edge that joins no listed pair |
| `LeakageCheck.AsWrittenUnlistedKept` | leakage_check.py:40-56 | as written, when validation edges serve as input, every edge joining no test pair survives, validation edges included |
| `LeakageCheck.AsWrittenPairCut` | leakage_check.py:43-56 | as written, a scanned pair loses its forward edge, and also its backward edge when the forward edge existed |
| `LeakageCheck.AsWrittenForwardCut` | leakage_check.py:40-56 | as written, no test pair keeps its forward edge; neither does a validation pair unless validation edges serve as input; and such a pair whose forward edge existed keeps no backward edge |
| `LeakageCheck.AsWrittenKeepsBackwardOnlyEdge` | leakage_check.py:49-54 | as written, test pair (0, 1) in a graph whose only edge is 1→0 keeps that edge, while the corrected filter removes it |
| `LeakageCheck.AsWrittenCutViaReversedPair` | leakage_check.py:49-56 | as written, the backward-only edge 1→0 is removed once the reversed pair (1, 0) is listed too, through that pair's forward check |
| `LeakageCheck.ForwardMaskHarmlessWhenSymmetric` | leakage_check.py:43-54 | in a graph that stores both directions of every edge, masking pairs by their forward edge loses no joined edge |
| `LeakageCheck.AsWrittenAgreesWhenSymmetric` | leakage_check.py:43-56 | on such a graph the filter as written and the corrected filter give the same graph |

## Left out

- Multi-relation graphs are not modelled: seed edges keyed by edge type (low_degree_edge_sampler.py:84-85) are left out, and so are the `'reverse_types'` rule and a callable rule (low_degree_edge_sampler.py:29-38). Their behaviour lives in library code that is not part of this model. A single edge type is modelled.
- Copying the exclusion to an output device (low_degree_edge_sampler.py:60-61) is left out. It is device plumbing, and it names an undefined `F`, so it would fail if reached.
- The rest of `sample` is left out: the pair subgraph, compaction, the negative graph, the neighbour sampler and the lazy features (low_degree_edge_sampler.py:87-98, 104-109). These are library collaborators whose behaviour is not visible here.
- EdgePredictionSamplerWithDegree.Sample: returns only the exclusion that would go to the neighbour sampler, not the sampled blocks or pair graphs.
- The module-level dataset download and prints (leakage_check.py:60-70) are I/O and are left out.
- The float guards `.mean().item() > 0` (leakage_check.py:42, 49) are modelled as "the masked split is non-empty". That is what they test: an empty mask gives NaN, which is not greater than 0.
- The docstring says validation edges "will be added" when they serve as input (leakage_check.py:22). The code never adds an edge, and the model adds none either.
- Node and edge IDs are unbounded naturals. Negative IDs and 64-bit overflow are not represented.
- Library failures are modelled as error values, not as particular exception types.
- LowDegreeEdgeSampler.FindExcludeEids: the order of the reverse-ID result and its two error cases are assumptions about a library helper that is not part of this model; only the content of the result is documented.
- Graphs.RemoveEdges: requires every listed ID to be an edge of the graph. The library rejects any other ID, and the filter only ever passes IDs it read from the graph.

## Findings

| source | as written | input that shows it | evidently intended | confidence | as-written member | corrected member |
|---|---|---|---|---|---|---|
| leakage_check.py:43-54 | The loops run only over `valid_edges[has_valid_edges]` and `test_edges[has_test_edges]`, the pairs whose forward edge s→t exists. The backward check t→s is reached only when s→t also exists. So when a listed pair (s, t) has only a t→s edge, that edge is not removed on account of that pair. It goes only if some scanned pair has t→s as its forward edge (`AsWrittenCutViaReversedPair`). | A graph with nodes 0 and 1 and the single edge 1→0, no validation pairs, and test pairs [(0, 1)]. Edge 1→0 stays in the inference graph. | Every edge between a listed pair is removed, whichever way it runs. The code checks t→s explicitly (lines 46-47 and 53-54), so the intent is to remove both directions. Those checks can only take effect when both directions exist. | medium, not executed | `LeakageCheck.AsWrittenKeepsBackwardOnlyEdge` | `LeakageCheck.SplitCheckBothWays` |

On graphs that store both directions of every edge, as undirected datasets do, the two filters agree (`AsWrittenAgreesWhenSymmetric`).
