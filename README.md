# Edge-neighbourhood minibatch sampler and OpenKE conversion

This project models the core of a relational graph-convolution training script.

- **Graph index.** It builds, for every entity, the list of `(edge id, neighbour)` pairs of the training triplets that touch it. Its degree is the length of that list.
- **Neighbourhood sampler.** `sample_edge_neighborhood` draws distinct edge ids of the training set. The draw is frontier-biased: a pivot entity is drawn with weight `sample_counts * seen`. When those weights are all zero, it falls back to every entity that still has budget. Then an unpicked edge of the pivot's list is accepted, and the per-entity budgets, the `picked` flags and the `seen` flags are updated.
- **Sample transform** (`t_func`). It chooses the graph batch ids: the sampler's output, or `0 .. n-1`. It takes a without-replacement split of those ids as the message-passing graph. It returns a 3- or 4-tuple, depending on the `StoreEdgeData` encoder setting.
- **OpenKE conversion.** It reads OpenKE triplet files (a count line, then `head tail relation` lines) into head/relation/tail tables, optionally followed by their mirror image. It rewrites `name<TAB>id` dictionary files as `id<TAB>name` files.

Four modules, one per file:

- `GraphIndex` (`graph_index.dfy`): the imperative build of the adjacency array, proved against the recursive specification `Incident`.
- `NeighbourhoodSampler` (`neighbourhood_sampler.dfy`): the sampler over arrays, with loop invariants.
  - A random draw becomes a `:|` choice over the draw's support. The pivot is any entity of positive weight. The accepted entry is any unpicked entry of the pivot's list.
- `BatchTransform` (`batch_transform.dfy`): `t_func` as pure functions.
  - The sampler's output and the split draw are parameters.
  - The negative sampler `ns.transform` is an opaque function parameter.
- `OpenKE` (`openke.dfy`): the readers and the dictionary writer as methods with loops over already-read lines.
  - Mirroring, Python's `str.strip()` and Python's `str.split('\t')` are pure functions.

Two behaviours of the code that the model keeps as they are:

- Asking the sampler for more edges than the training set has is not rejected up front. The code draws until every budget is exhausted. Then `weights / np.sum(weights)` divides by zero, and `np.random.choice` raises ValueError on the NaN probabilities. `SampleEdgeNeighborhood` reports that failure as `raised` after the budgets run out.
- The `picked` flags are sized by the sampler's `triplets` argument, which is the transform's batch, not by the training set. An edge id at or past the batch length raises IndexError at `picked[edge_number]`. `SampleEdgeNeighborhood` requires the argument to be at least as long as the training set; `TFunc` admits that IndexError as a possible outcome of the sampler whenever the batch is shorter, and as the only outcome when the batch is also shorter than the graph batch size.

## Model

| member | source | states |
|---|---|---|
| GraphIndex.BuildIndex | code/train.py:127-133 | the adjacency array holds, for every entity, the `(i, tail)` / `(i, head)` entries of exactly the triplets it is an endpoint of, in edge order, and every degree is the length of its list |
| GraphIndex.IncidentEntries | code/train.py:128-130 | every entry of an entity's list names a training edge id and the opposite endpoint of that triplet |
| GraphIndex.EdgeOccurrences | code/train.py:128-130 | edge k occurs in the list of e once per endpoint of triplet k equal to e, so twice for a self-loop on e |
| GraphIndex.IncidentDegree | code/train.py:128-132 | the degree of e is its number of occurrences as a head plus its number of occurrences as a tail |
| GraphIndex.DegreeSum | code/train.py:128-132 | the degrees sum to twice the number of training triplets |
| NeighbourhoodSampler.PivotWeights | code/train.py:146-150 | the frontier weights (budget times seen flag), replaced by the reset weights (1 for an entity with budget left, 0 otherwise) when they sum to zero; one weight per entity |
| NeighbourhoodSampler.PivotWeightsSupport | code/train.py:146-153 | pivot weights are non-negative; an entity of positive weight has budget left; while some entity has budget, some weight is positive |
| NeighbourhoodSampler.PivotSupport | code/train.py:146-150 | while a seen entity has budget, the pivot candidates are exactly the seen entities with budget; otherwise they are exactly the entities with budget (the reset rule) |
| NeighbourhoodSampler.FirstDrawResets | code/train.py:143-150 | with nothing seen (the first iteration), the weights are the reset weights |
| NeighbourhoodSampler.UnpickedExists | code/train.py:157-164 | a positive count guarantees an unpicked entry in the pivot's list, so the redraw loop has something to accept |
| NeighbourhoodSampler.UnpickedNone | code/train.py:141-142 | with nothing picked, every entry is unpicked, so the initial counts (the degrees) match |
| NeighbourhoodSampler.UnpickedAfterPick | code/train.py:168 | marking edge k picked removes exactly its occurrences from an unpicked count |
| NeighbourhoodSampler.CountsNonNegative | code/train.py:169-170 | counts that equal unpicked-entry counts are never negative |
| NeighbourhoodSampler.PickKeepsCounts | code/train.py:166-170 | picking an unpicked edge and decrementing both endpoints (one entity twice for a self-loop) keeps every count equal to its number of unpicked entries |
| NeighbourhoodSampler.DecrementedSum | code/train.py:169-170 | the two decrements lower the total budget by exactly 2 |
| NeighbourhoodSampler.ChoosePivot | code/train.py:146-153 | the drawn pivot has positive weight and budget left |
| NeighbourhoodSampler.ChooseEntry | code/train.py:157-164 | the accepted entry is an entry of the pivot's list whose edge is not yet picked |
| NeighbourhoodSampler.DrawEdge | code/train.py:146-171 | one iteration: the pivot had positive weight; the edge was unpicked and joins pivot and other; exactly that edge becomes picked; exactly pivot and other become seen; counts become the decremented counts, total minus 2; the bookkeeping invariant is kept |
| NeighbourhoodSampler.DecrementEndpoints | code/train.py:169-170 | both endpoint counts are decremented, the same entity twice for a self-loop, and nothing else changes |
| NeighbourhoodSampler.StartSample | code/train.py:141-143 | counts start as the degrees and sum to twice the edge count; one unpicked flag per element of `triplets`; nothing is seen; the bookkeeping invariant holds |
| NeighbourhoodSampler.WeightsExhausted | code/train.py:146-152 | the pivot weights sum to 0 exactly when every count is 0 |
| NeighbourhoodSampler.DrawEdges | code/train.py:145-171 | the loop fails exactly when more edges are asked for than exist; otherwise it yields sample_size pairwise distinct edge ids of the training set, exactly those ids are flagged picked, the budgets still count the unpicked entries and total twice the number of edges left |
| NeighbourhoodSampler.SampleEdgeNeighborhood | code/train.py:136-173 | sample_size pairwise distinct training edge ids, all of them when sample_size is the edge count; ValueError exactly when sample_size exceeds the edge count |
| NeighbourhoodSampler.DistinctCover | code/train.py:166-168 | n distinct ids below n cover every id below n |
| BatchTransform.Select | code/train.py:209 | numpy indexing of the training rows: IndexError exactly when an id is past the end, otherwise the rows at the ids in order |
| BatchTransform.GraphBatchIds | code/train.py:187-207 | with GraphBatchSize, the sampler's ids; without it, `0 .. n-1` for a batch of n rows |
| BatchTransform.Draw | code/train.py:214-215 | the support of `np.random.choice(..., replace=False)`: exactly `size` pairwise distinct positions, each below the population size |
| BatchTransform.SplitIds | code/train.py:214-215 | the split has as many ids as positions were drawn; each is a batch id; they are distinct when the batch ids and the positions are |
| BatchTransform.StoresEdgeData | code/train.py:220-224 | the split ids are returned exactly when the encoder settings hold `StoreEdgeData` with the value "Yes" |
| BatchTransform.GraphStep | code/train.py:209-224 | ValueError exactly when the split is larger than the batch; otherwise split_size distinct batch ids; split rows are the training rows at those ids; the transform is applied to the whole graph batch; the 4-tuple exactly when StoreEdgeData is "Yes" |
| BatchTransform.SamplerOutcome | code/train.py:136-173 | the sampler's possible outcomes for a batch of any length: IndexError only for a batch shorter than the training set and a non-empty sample; ValueError only, and then always, when more edges are asked for than exist and the batch is at least as long as the training set; otherwise `size` distinct ids below both the training-set length and the batch length |
| BatchTransform.TFunc | code/train.py:182-224 | without the graph, only the negative sampler; an exception of the sampler is passed on; ValueError for an oversized graph batch when the batch is at least as long as the training set; IndexError when the batch is shorter than both the training set and the graph batch size; IndexError exactly when the default batch is longer than the training set or the sampler ran past the batch's picked flags; otherwise the graph step over distinct in-range batch ids |
| BatchTransform.ShortBatchRaises | code/train.py:142-161 | a batch shorter than both the training set and the graph batch size makes the sampler raise IndexError whatever the draws |
| BatchTransform.SampledFitsBatch | code/train.py:142-161 | a successful sample has no more ids than the batch has rows |
| BatchTransform.SampleForBatch | code/train.py:136-173 | for a batch at least as long as the training set, whatever the sampler model returns (ValueError exactly when more edges are asked for than exist, otherwise that many distinct training edge ids) satisfies `SamplerOutcome`, so the transform's assumption about the sampler is derived from the sampler itself there |
| BatchTransform.DefaultBatch | code/train.py:205-209 | without GraphBatchSize, the graph batch is the first n training rows in order |
| BatchTransform.FullSplit | code/train.py:213-215 | a split as large as the batch contains every batch id |
| OpenKE.FromOpenKE | code/convert_openke_to_rgcn.py:22 | a data line's OpenKE fields head, tail, relation become the row head, relation, tail |
| OpenKE.RowRoundTrip | code/convert_openke_to_rgcn.py:22 | reordering head/tail/relation into head/relation/tail loses nothing: it is inverted by the OpenKE field order |
| OpenKE.Filled | code/convert_openke_to_rgcn.py:19-22 | the table has exactly the announced number of rows |
| OpenKE.ReadOpenKEEdges | code/convert_openke_to_rgcn.py:12-25 | None exactly for an empty file; ValueError exactly for a negative count; IndexError exactly for a short data line or more data lines than the count; otherwise the count-sized table whose row k-1 is data line k reordered, and zero rows after the data |
| OpenKE.Mirror | code/convert_openke_to_rgcn.py:40-42 | the copy of the table with head and tail exchanged in every row, relation kept; as many rows as the table |
| OpenKE.MirrorInvolutive | code/convert_openke_to_rgcn.py:40-42 | swapping head and tail twice gives back the table |
| OpenKE.MirrorSymmetric | code/convert_openke_to_rgcn.py:40-44 | in the table followed by its mirror, every row's head/tail swap is also present |
| OpenKE.ReadOpenKEEdgesMirrored | code/convert_openke_to_rgcn.py:28-46 | AttributeError exactly for an empty file; the reader's other errors unchanged; otherwise the 2n rows of the table followed by its head/tail-swapped copy |
| OpenKE.TrimStart | code/convert_openke_to_rgcn.py:53 | a suffix of the line; everything dropped is whitespace; it does not start with whitespace |
| OpenKE.TrimEnd | code/convert_openke_to_rgcn.py:53 | a prefix of the line; everything dropped is whitespace; it does not end with whitespace |
| OpenKE.Strip | code/convert_openke_to_rgcn.py:17 | neither end of the stripped line is whitespace, and a line without whitespace at its ends is unchanged |
| OpenKE.StripRemovesEnds | code/convert_openke_to_rgcn.py:17 | the stripped line is a contiguous slice of the line, and everything before and after that slice is whitespace: exactly the leading and trailing whitespace is removed |
| OpenKE.SplitTab | code/convert_openke_to_rgcn.py:33 | at least one piece, and no piece contains a tab |
| OpenKE.SplitJoin | code/convert_openke_to_rgcn.py:53 | joining the pieces with tabs gives back the split string |
| OpenKE.JoinSplit | code/convert_openke_to_rgcn.py:53 | splitting tab-joined tab-free pieces gives back the pieces |
| OpenKE.SplitTabPrefix | code/convert_openke_to_rgcn.py:53 | a tab-free field followed by a tab is the first piece |
| OpenKE.DictLine | code/convert_openke_to_rgcn.py:53-55 | the output line for a stripped, tab-split dictionary line: its second field, a tab, its first field, a newline |
| OpenKE.DictLineSwap | code/convert_openke_to_rgcn.py:53-55 | a `name<TAB>id` line with any trailing whitespace is written as `id<TAB>name` plus a newline |
| OpenKE.WriteOpenKEEntities | code/convert_openke_to_rgcn.py:49-56 | skips the header; writes one swapped line per later line, in order; IndexError exactly when some later line has fewer than two fields, and then everything before the first such line is written |

## Left out

- File and console I/O, argparse and settings loading, TensorFlow, the encoder/decoder construction and the optimizer are outside the model. So are `main`, `to_csv` and the hard-coded data path of the converter.
- NeighbourhoodSampler.ChoosePivot: the sampling probabilities are not modelled, only their support (any entity of positive weight). The same holds for the edge draw and the split draw.
- NeighbourhoodSampler.ChooseEntry: the redraw `while` loop is collapsed into one draw from the unpicked entries. Its termination depends on the random draws.
- NeighbourhoodSampler.DrawEdge: it states the accepted edge's endpoints (pivot and other) rather than restating that `(edge, other)` is an entry of the pivot's list. ChooseEntry and GraphIndex.IncidentEntries state that step.
- NeighbourhoodSampler.SampleEdgeNeighborhood: the `int32` dtype of the output buffer is not modelled; ids are unbounded integers. The IndexError that `picked[edge_number]` raises when `triplets` is shorter than the training set is excluded by a precondition here, because whether it happens depends on the random draws; `BatchTransform.TFunc` admits it as a possible outcome.
- GraphIndex.BuildIndex: entity ids are required to lie in `[0, entityCount)`. The code raises IndexError for an id of `entityCount` or more, or below `-entityCount`; an id in `[-entityCount, 0)` appends to the list of entity `entityCount + id` (Python's negative indexing). None of these is modelled.
- BatchTransform.TFunc: the sampler's outcome and the split draw are parameters, constrained by what the sampler and `np.random.choice` guarantee (`SamplerOutcome`, `Draw`). For a batch at least as long as the training set, `SampleForBatch` derives `SamplerOutcome` from the sampler model; for a shorter batch the sampler model's precondition does not hold, so there `SamplerOutcome` is stated, not derived, from `picked` being sized by the batch. For a batch shorter than the training set but at least as long as the graph batch size, whether the sampler raises IndexError or succeeds with ids below the batch length depends on the draws; the model allows both and does not say which occurs.
- BatchTransform.TFunc: `ns.transform` is an opaque function parameter, because the negative sampler's source is not part of this model.
- BatchTransform.TFunc: `split_size = int(GraphSplitSize * n)` is computed in floating point; the model takes the resulting non-negative integer. Negative settings (GraphBatchSize or GraphSplitSize below zero) are not modelled.
- BatchTransform.TFunc: `int()` parsing of GraphBatchSize is not modelled; it is given already parsed. The transform is only installed when NegativeSampleRate is configured, which is configuration glue.
- The commented-out `sample_TIES` experiment is not modelled.
- OpenKE.ReadOpenKEEdges: the fields arrive already converted to integers, so the ValueError of `int()` on a non-numeric field is not modelled. The DataFrame's float dtype is not modelled either.
- OpenKE.ReadOpenKEEdgesMirrored: the in-place column overwrite of the copied DataFrame is modelled as the pure function `Mirror`.
