/** The sample transform handed to the training loop: for an encoder that
    needs the graph it picks the graph batch (the sampled neighbourhood, or
    the first rows of the training set), takes a without-replacement split of
    it as the message-passing graph, and returns the split together with the
    negative-sampled batch. The negative sampler itself is an opaque
    parameter `transform`. */
module BatchTransform {
  import opened GraphIndex
  import opened NeighbourhoodSampler

  datatype Option<T> = None | Some(value: T)

  /** The Python exceptions the transform can raise. */
  datatype Failure = IndexError | ValueError

  datatype Outcome<T> = Ok(value: T) | Raised(error: Failure)

  /** The three shapes of the value handed back: the transformed batch alone
      (encoder without graph), the 3-tuple, or the 4-tuple that also carries
      the split edge ids (StoreEdgeData = "Yes"). */
  datatype Step<A, B> =
    | Plain(transformed: (A, B))
    | Split(graphSplit: seq<Triplet>, first: A, second: B)
    | SplitWithIds(graphSplit: seq<Triplet>, splitIds: seq<int>, first: A, second: B)

  /** Numpy fancy indexing `rows[ids]` with non-negative ids: IndexError as
      soon as one id is past the end. */
  function Select(rows: seq<Triplet>, ids: seq<int>): (r: Outcome<seq<Triplet>>)
    requires forall i :: 0 <= i < |ids| ==> ids[i] >= 0
    ensures r.Ok? <==> forall i :: 0 <= i < |ids| ==> ids[i] < |rows|
    ensures r.Raised? ==> r.error == IndexError
    ensures r.Ok? ==> |r.value| == |ids| && forall i :: 0 <= i < |ids| ==> r.value[i] == rows[ids[i]]
  {
    if forall i :: 0 <= i < |ids| ==> ids[i] < |rows| then
      Ok(seq(|ids|, i requires 0 <= i < |ids| => rows[ids[i]]))
    else Raised(IndexError)
  }

  /** The graph batch ids: the sampler's output when a graph batch size is
      configured, else 0 .. n-1 for a batch of n rows. */
  function GraphBatchIds(n: nat, graphBatchSize: Option<nat>, sampled: seq<int>): (ids: seq<int>)
    ensures graphBatchSize.Some? ==> ids == sampled
    ensures graphBatchSize.None? ==> |ids| == n && forall i :: 0 <= i < n ==> ids[i] == i
  {
    if graphBatchSize.Some? then sampled else seq(n, i => i)
  }

  /** A possible outcome of drawing `size` positions of a population of `n`
      without replacement. */
  predicate Draw(positions: seq<int>, size: nat, n: nat) {
    |positions| == size && Distinct(positions) &&
    forall j :: 0 <= j < |positions| ==> 0 <= positions[j] < n
  }

  /** The split ids: the batch ids at the drawn positions. */
  function SplitIds(ids: seq<int>, positions: seq<int>): (split: seq<int>)
    requires forall j :: 0 <= j < |positions| ==> 0 <= positions[j] < |ids|
    ensures |split| == |positions|
    ensures forall j :: 0 <= j < |split| ==> split[j] in ids
    ensures Distinct(ids) && Distinct(positions) ==> Distinct(split)
  {
    seq(|positions|, j requires 0 <= j < |positions| => ids[positions[j]])
  }

  /** Whether the encoder settings ask for the split edge ids to be returned. */
  predicate StoresEdgeData(settings: map<string, string>) {
    "StoreEdgeData" in settings && settings["StoreEdgeData"] == "Yes"
  }

  /** The graph part of the transform once the graph batch ids `ids` are
      known to index the training set: the split draw, the negative-sampled
      graph batch and the 3- or 4-tuple. */
  function GraphStep<A, B>(train: seq<Triplet>, ids: seq<int>, splitSize: nat, positions: seq<int>,
                           settings: map<string, string>,
                           transform: seq<Triplet> -> (A, B)): (r: Outcome<Step<A, B>>)
    requires Distinct(ids) && forall i :: 0 <= i < |ids| ==> 0 <= ids[i] < |train|
    requires splitSize <= |ids| ==> Draw(positions, splitSize, |ids|)
    // more split ids asked for than there are batch ids
    ensures r.Raised? <==> splitSize > |ids|
    ensures r.Raised? ==> r.error == ValueError
    ensures r.Ok? ==> (r.value.SplitWithIds? <==> StoresEdgeData(settings)) && !r.value.Plain?
    ensures r.Ok? ==>
      var split := SplitIds(ids, positions);
      |r.value.graphSplit| == splitSize &&
      Distinct(split) && (forall j :: 0 <= j < splitSize ==> split[j] in ids) &&
      (forall j :: 0 <= j < splitSize ==> r.value.graphSplit[j] == train[split[j]]) &&
      (r.value.SplitWithIds? ==> r.value.splitIds == split) &&
      (r.value.first, r.value.second) == transform(Select(train, ids).value)
  {
    if splitSize > |ids| then Raised(ValueError)
    else
      var split := SplitIds(ids, positions);
      var graphSplit := Select(train, split);
      var t := transform(Select(train, ids).value);
      if StoresEdgeData(settings) then Ok(SplitWithIds(graphSplit.value, split, t.0, t.1))
      else Ok(Split(graphSplit.value, t.0, t.1))
  }

  /** Whether more edges are asked of the sampler than the training set has. */
  predicate Oversampled(train: seq<Triplet>, graphBatchSize: Option<nat>) {
    graphBatchSize.Some? && graphBatchSize.value > |train|
  }

  /** The possible outcomes of `sample_edge_neighborhood(arr, size)`. Its
      picked flags are sized by `arr`, so drawing an edge id at or past |arr|
      raises IndexError: that is possible only for a batch shorter than the
      training set, and it precedes any exhaustion of the budgets (which
      would need every edge id drawn). Exhausting every budget raises
      ValueError. Otherwise it yields `size` distinct edge ids, all of them
      below |arr| as well as below |train|. */
  predicate SamplerOutcome(train: seq<Triplet>, arr: seq<Triplet>, size: nat, sampled: Outcome<seq<int>>) {
    && (sampled == Raised(IndexError) ==> |arr| < |train| && size > 0)
    && (sampled == Raised(ValueError) ==> size > |train| && |train| <= |arr|)
    && (size > |train| && |train| <= |arr| ==> sampled == Raised(ValueError))
    && (sampled.Ok? ==>
          size <= |train| && |sampled.value| == size && Distinct(sampled.value) &&
          forall i :: 0 <= i < size ==> 0 <= sampled.value[i] < |train| && sampled.value[i] < |arr|)
  }

  /** A batch shorter than both the training set and the requested sample
      makes the sampler raise IndexError, whatever the draws: it cannot
      return that many distinct ids below |arr|, nor exhaust the budgets. */
  lemma {:induction false} ShortBatchRaises(train: seq<Triplet>, arr: seq<Triplet>, size: nat, sampled: Outcome<seq<int>>)
    requires SamplerOutcome(train, arr, size, sampled)
    requires |arr| < |train| && size > |arr|
    ensures sampled == Raised(IndexError)
  {
    match sampled
    case Ok(ids) =>
      Pigeonhole(ids, |arr|);
      assert false;
    case Raised(ValueError) =>
      assert false;
    case Raised(IndexError) =>
  }

  /** The sampler's ids fit the batch: a successful sample is no larger than
      |arr|, and a larger one raises IndexError when the batch is shorter than
      the training set. */
  lemma {:induction false} SampledFitsBatch(train: seq<Triplet>, arr: seq<Triplet>, graphBatchSize: Option<nat>, sampled: Outcome<seq<int>>)
    requires graphBatchSize.Some? ==> SamplerOutcome(train, arr, graphBatchSize.value, sampled)
    ensures graphBatchSize.Some? && sampled.Ok? ==> graphBatchSize.value <= |arr|
    ensures graphBatchSize.Some? && |arr| < |train| && graphBatchSize.value > |arr| ==>
      sampled == Raised(IndexError)
  {
    if graphBatchSize.Some? && sampled.Ok? {
      Pigeonhole(sampled.value, |arr|);
    }
    if graphBatchSize.Some? && |arr| < |train| && graphBatchSize.value > |arr| {
      ShortBatchRaises(train, arr, graphBatchSize.value, sampled);
    }
  }

  /** `sample_edge_neighborhood(arr, size)` for a batch at least as long as
      the training set, its result read as an outcome: whatever it returns
      is one the transform allows for the sampler. */
  method SampleForBatch(train: seq<Triplet>, adj: array<seq<Entry>>, degrees: array<int>,
                        arr: seq<Triplet>, size: nat) returns (o: Outcome<seq<int>>)
    requires WellFormed(train, adj.Length) && adj[..] == Adjacency(train, adj.Length)
    requires degrees.Length == adj.Length && forall e :: 0 <= e < adj.Length ==> degrees[e] == |adj[e]|
    requires |train| <= |arr|
    ensures SamplerOutcome(train, arr, size, o)
  {
    var edges, raised := SampleEdgeNeighborhood(train, adj, degrees, arr, size);
    if raised {
      o := Raised(ValueError);
    } else {
      o := Ok(edges);
    }
  }

  /** The sampler's ids, or none when it raised. */
  function SampledIds(sampled: Outcome<seq<int>>): seq<int> {
    if sampled.Ok? then sampled.value else []
  }

  /** One call of the sample transform on the batch `arr`. `sampled` is what
      the neighbourhood sampler produced for the configured graph batch size,
      `positions` the outcome of the split draw. */
  function TFunc<A, B>(train: seq<Triplet>, arr: seq<Triplet>, needsGraph: bool,
                       graphBatchSize: Option<nat>, sampled: Outcome<seq<int>>,
                       splitSize: nat, positions: seq<int>,
                       settings: map<string, string>,
                       transform: seq<Triplet> -> (A, B)): (r: Outcome<Step<A, B>>)
    requires graphBatchSize.Some? ==> SamplerOutcome(train, arr, graphBatchSize.value, sampled)
    requires splitSize <= |GraphBatchIds(|arr|, graphBatchSize, SampledIds(sampled))| ==>
      Draw(positions, splitSize, |GraphBatchIds(|arr|, graphBatchSize, SampledIds(sampled))|)
    // without the graph, the batch is only negative-sampled
    ensures !needsGraph ==> r == Ok(Plain(transform(arr)))
    // an exception of the sampler comes first
    ensures needsGraph && graphBatchSize.Some? && sampled.Raised? ==> r == Raised(sampled.error)
    ensures needsGraph && Oversampled(train, graphBatchSize) && |train| <= |arr| ==> r == Raised(ValueError)
    // a batch shorter than the training set and than the graph batch size
    ensures needsGraph && graphBatchSize.Some? && |arr| < |train| && graphBatchSize.value > |arr| ==>
      r == Raised(IndexError)
    // the sampler's picked flags, or the default batch's read past the training rows
    ensures needsGraph ==>
      (r == Raised(IndexError) <==>
         (graphBatchSize.None? && |arr| > |train|) ||
         (graphBatchSize.Some? && sampled == Raised(IndexError)))
    ensures needsGraph && (if graphBatchSize.Some? then sampled.Ok? else |arr| <= |train|) ==>
      var ids := GraphBatchIds(|arr|, graphBatchSize, SampledIds(sampled));
      Distinct(ids) && (forall i :: 0 <= i < |ids| ==> 0 <= ids[i] < |train|) &&
      r == GraphStep(train, ids, splitSize, positions, settings, transform)
  {
    if !needsGraph then Ok(Plain(transform(arr)))
    else
      SampledFitsBatch(train, arr, graphBatchSize, sampled);
      if graphBatchSize.Some? && sampled.Raised? then Raised(sampled.error)
      else
      var ids := GraphBatchIds(|arr|, graphBatchSize, SampledIds(sampled));
      assert graphBatchSize.None? && |arr| > |train| ==> ids[|train|] == |train|;
      var batch := Select(train, ids);
      if batch.Raised? then Raised(batch.error)
      else
        DefaultIdsDistinct(|arr|, graphBatchSize, SampledIds(sampled));
        GraphStep(train, ids, splitSize, positions, settings, transform)
  }

  /** The batch ids are pairwise distinct whichever way they were chosen. */
  lemma DefaultIdsDistinct(n: nat, graphBatchSize: Option<nat>, sampled: seq<int>)
    requires graphBatchSize.Some? ==> Distinct(sampled)
    ensures Distinct(GraphBatchIds(n, graphBatchSize, sampled))
  {
  }

  /** Without a configured graph batch size the graph batch is the first |arr|
      training rows, in order. */
  lemma {:induction false} DefaultBatch(train: seq<Triplet>, n: nat)
    requires n <= |train|
    ensures Select(train, GraphBatchIds(n, None, [])) == Ok(train[..n])
  {
    var ids := GraphBatchIds(n, None, []);
    assert Select(train, ids).value == train[..n];
  }

  /** With a split the size of the whole batch, every batch id is in the split. */
  lemma {:induction false} FullSplit(ids: seq<int>, positions: seq<int>)
    requires Draw(positions, |ids|, |ids|)
    ensures forall i :: 0 <= i < |ids| ==> ids[i] in SplitIds(ids, positions)
  {
    DistinctCover(positions, |ids|);
    var split := SplitIds(ids, positions);
    forall i | 0 <= i < |ids|
      ensures ids[i] in split
    {
      assert i in positions;
      var j :| 0 <= j < |positions| && positions[j] == i;
      assert split[j] == ids[i];
    }
  }
}
