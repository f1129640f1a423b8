/** The edge-neighbourhood sampler: a frontier-biased draw of distinct edge
    ids. Random choices are modelled by their support: the pivot is any entity
    of positive weight, the accepted edge any unpicked entry of the pivot's list. */
module NeighbourhoodSampler {
  import opened GraphIndex

  /** The pivot weights before the reset rule: sample_counts * seen. */
  function FrontierWeights(counts: seq<int>, seen: seq<bool>): seq<int>
    requires |seen| == |counts|
  {
    seq(|counts|, v requires 0 <= v < |counts| => if seen[v] then counts[v] else 0)
  }

  /** The weights of the reset branch: 1 for every entity whose count is not 0. */
  function ResetWeights(counts: seq<int>): seq<int> {
    seq(|counts|, v requires 0 <= v < |counts| => if counts[v] == 0 then 0 else 1)
  }

  predicate NonNegative(s: seq<int>) {
    forall v :: 0 <= v < |s| ==> s[v] >= 0
  }

  /** The weights a pivot is drawn with: the frontier weights, or the reset
      weights when those sum to zero. */
  function PivotWeights(counts: seq<int>, seen: seq<bool>): (w: seq<int>)
    requires |seen| == |counts|
    ensures |w| == |counts|
  {
    var frontier := FrontierWeights(counts, seen);
    if Sum(frontier) == 0 then ResetWeights(counts) else frontier
  }

  /** A pivot drawn with these weights has budget left, and one can be drawn
      whenever some entity has budget left. */
  lemma PivotWeightsSupport(counts: seq<int>, seen: seq<bool>)
    requires |seen| == |counts| && NonNegative(counts)
    ensures NonNegative(PivotWeights(counts, seen))
    ensures forall v :: 0 <= v < |counts| && PivotWeights(counts, seen)[v] > 0 ==> counts[v] > 0
    ensures (exists v :: 0 <= v < |counts| && counts[v] > 0) ==>
      exists v :: 0 <= v < |counts| && PivotWeights(counts, seen)[v] > 0
  {
    var frontier := FrontierWeights(counts, seen);
    SumNonNegative(frontier);
    if Sum(frontier) == 0 {
      var reset := ResetWeights(counts);
      assert forall v :: 0 <= v < |counts| && counts[v] > 0 ==> reset[v] > 0;
    }
  }

  /** While some seen entity still has budget, the pivot is drawn from exactly
      the seen entities with budget; otherwise from exactly the entities with budget. */
  lemma PivotSupport(counts: seq<int>, seen: seq<bool>)
    requires |seen| == |counts| && NonNegative(counts)
    ensures (exists v :: 0 <= v < |seen| && seen[v] && counts[v] > 0) ==>
      forall u :: 0 <= u < |counts| ==> (PivotWeights(counts, seen)[u] > 0 <==> seen[u] && counts[u] > 0)
    ensures (forall v :: 0 <= v < |seen| && seen[v] ==> counts[v] == 0) ==>
      forall u :: 0 <= u < |counts| ==> (PivotWeights(counts, seen)[u] > 0 <==> counts[u] > 0)
  {
    var frontier := FrontierWeights(counts, seen);
    SumNonNegative(frontier);
    if exists v :: 0 <= v < |seen| && seen[v] && counts[v] > 0 {
      var v :| 0 <= v < |seen| && seen[v] && counts[v] > 0;
      assert frontier[v] > 0;
    }
  }

  /** With nothing seen yet (the first iteration) the reset branch is taken. */
  lemma FirstDrawResets(counts: seq<int>, seen: seq<bool>)
    requires |seen| == |counts| && NonNegative(counts)
    requires forall v :: 0 <= v < |seen| ==> !seen[v]
    ensures PivotWeights(counts, seen) == ResetWeights(counts)
  {
    SumZeros(FrontierWeights(counts, seen));
  }

  /** Every edge id named in `entries` indexes `picked`. */
  predicate EdgesIn(entries: seq<Entry>, picked: seq<bool>) {
    forall j :: 0 <= j < |entries| ==> 0 <= entries[j].edge < |picked|
  }

  /** The number of entries whose edge has not been picked yet. */
  function Unpicked(entries: seq<Entry>, picked: seq<bool>): nat
    requires EdgesIn(entries, picked)
  {
    if |entries| == 0 then 0
    else
      var last := entries[|entries| - 1];
      Unpicked(entries[..|entries| - 1], picked) + (if picked[last.edge] then 0 else 1)
  }

  /** With nothing picked, every entry is unpicked. */
  lemma {:induction false} UnpickedNone(entries: seq<Entry>, picked: seq<bool>)
    requires EdgesIn(entries, picked)
    requires forall k :: 0 <= k < |picked| ==> !picked[k]
    ensures Unpicked(entries, picked) == |entries|
  {
    if |entries| > 0 {
      UnpickedNone(entries[..|entries| - 1], picked);
    }
  }

  /** A positive count means an unpicked entry exists to be drawn. */
  lemma {:induction false} UnpickedExists(entries: seq<Entry>, picked: seq<bool>)
    requires EdgesIn(entries, picked)
    requires Unpicked(entries, picked) > 0
    ensures exists j :: 0 <= j < |entries| && !picked[entries[j].edge]
  {
    var n := |entries| - 1;
    if picked[entries[n].edge] {
      UnpickedExists(entries[..n], picked);
      var j :| 0 <= j < n && !picked[entries[..n][j].edge];
      assert entries[j] == entries[..n][j];
    }
  }

  /** Picking edge k removes exactly its occurrences from the unpicked count. */
  lemma {:induction false} UnpickedAfterPick(entries: seq<Entry>, picked: seq<bool>, k: int)
    requires EdgesIn(entries, picked)
    requires 0 <= k < |picked| && !picked[k]
    ensures Unpicked(entries, picked[k := true]) == Unpicked(entries, picked) - Occurrences(entries, k)
  {
    if |entries| > 0 {
      UnpickedAfterPick(entries[..|entries| - 1], picked, k);
    }
  }

  /** Every entity's count is the number of unpicked entries of its list. */
  predicate CountsMatch(train: seq<Triplet>, counts: seq<int>, picked: seq<bool>) {
    forall u {:trigger Incident(train, u)} :: 0 <= u < |counts| ==>
      EdgesIn(Incident(train, u), picked) && counts[u] == Unpicked(Incident(train, u), picked)
  }

  /** The counts after one pick: `pivot` and `other` lose one each. */
  function Decremented(counts: seq<int>, pivot: int, other: int): seq<int> {
    seq(|counts|, u requires 0 <= u < |counts| =>
      counts[u] - (if u == pivot then 1 else 0) - (if u == other then 1 else 0))
  }

  /** Counts that match unpicked entries are never negative. */
  lemma CountsNonNegative(train: seq<Triplet>, counts: seq<int>, picked: seq<bool>)
    requires CountsMatch(train, counts, picked)
    ensures NonNegative(counts)
  {
    forall u | 0 <= u < |counts| ensures counts[u] >= 0 {
      assert EdgesIn(Incident(train, u), picked);
    }
  }

  /** Picking an unpicked edge whose endpoints are `pivot` and `other` lowers
      exactly the counts of those two entities by one each (the same entity by
      two for a self-loop) and keeps every count equal to its unpicked entries. */
  lemma PickKeepsCounts(train: seq<Triplet>, counts: seq<int>, picked: seq<bool>,
                        edge: int, pivot: int, other: int)
    requires CountsMatch(train, counts, picked)
    requires 0 <= edge < |train| && edge < |picked| && !picked[edge]
    requires (train[edge].head == pivot && train[edge].tail == other) ||
             (train[edge].tail == pivot && train[edge].head == other)
    ensures CountsMatch(train, Decremented(counts, pivot, other), picked[edge := true])
  {
    forall u | 0 <= u < |counts|
      ensures EdgesIn(Incident(train, u), picked[edge := true])
      ensures counts[u] - (if u == pivot then 1 else 0) - (if u == other then 1 else 0)
           == Unpicked(Incident(train, u), picked[edge := true])
    {
      UnpickedAfterPick(Incident(train, u), picked, edge);
      EdgeOccurrences(train, u, edge);
    }
  }

  /** Decrementing two counts lowers the total by two. */
  lemma DecrementedSum(counts: seq<int>, pivot: int, other: int)
    requires 0 <= pivot < |counts| && 0 <= other < |counts|
    ensures Sum(Decremented(counts, pivot, other)) == Sum(counts) - 2
  {
    DecrementedUpdates(counts, pivot, other);
    SumTwoUpdates(counts, pivot, other);
  }

  lemma SumTwoUpdates(counts: seq<int>, pivot: int, other: int)
    requires 0 <= pivot < |counts| && 0 <= other < |counts|
    ensures var once := counts[pivot := counts[pivot] - 1];
      Sum(once[other := once[other] - 1]) == Sum(counts) - 2
  {
    var once := counts[pivot := counts[pivot] - 1];
    SumUpdate(counts, pivot, counts[pivot] - 1);
    SumUpdate(once, other, once[other] - 1);
  }

  lemma DecrementedUpdates(counts: seq<int>, pivot: int, other: int)
    requires 0 <= pivot < |counts| && 0 <= other < |counts|
    ensures var once := counts[pivot := counts[pivot] - 1];
      Decremented(counts, pivot, other) == once[other := once[other] - 1]
  {
    var once := counts[pivot := counts[pivot] - 1];
    var twice := once[other := once[other] - 1];
    forall u | 0 <= u < |counts| ensures Decremented(counts, pivot, other)[u] == twice[u] {
    }
  }

  /** The sampler's bookkeeping over the adjacency lists of `train`. */
  ghost predicate Consistent(train: seq<Triplet>, adj: array<seq<Entry>>, counts: array<int>,
                             picked: array<bool>, seen: array<bool>)
    reads adj, counts, picked, seen
  {
    && WellFormed(train, adj.Length)
    && (forall u :: 0 <= u < adj.Length ==> adj[u] == Incident(train, u))
    && counts.Length == adj.Length && seen.Length == adj.Length
    && |train| <= picked.Length && picked != seen
    && NonNegative(counts[..])
    && CountsMatch(train, counts[..], picked[..])
  }

  /** The pivot draw: any entity whose weight is positive. */
  method ChoosePivot(counts: array<int>, seen: array<bool>) returns (pivot: int)
    requires seen.Length == counts.Length && NonNegative(counts[..])
    requires Sum(counts[..]) > 0
    ensures 0 <= pivot < counts.Length && PivotWeights(counts[..], seen[..])[pivot] > 0
    ensures counts[pivot] > 0
  {
    SumPositive(counts[..]);
    PivotWeightsSupport(counts[..], seen[..]);
    var weights := PivotWeights(counts[..], seen[..]);
    pivot :| 0 <= pivot < counts.Length && weights[pivot] > 0;
  }

  /** The accepted edge draw: redrawing until the edge is unpicked yields an
      unpicked entry of the pivot's list. */
  method ChooseEntry(list: seq<Entry>, picked: array<bool>) returns (chosen: int)
    requires EdgesIn(list, picked[..]) && Unpicked(list, picked[..]) > 0
    ensures 0 <= chosen < |list| && 0 <= list[chosen].edge < picked.Length
    ensures !picked[list[chosen].edge]
  {
    UnpickedExists(list, picked[..]);
    chosen :| 0 <= chosen < |list| && !picked[list[chosen].edge];
  }

  /** One iteration of the sampling loop: draw a pivot, draw an unpicked edge
      of its list, record it and update the bookkeeping. */
  method DrawEdge(train: seq<Triplet>, adj: array<seq<Entry>>, counts: array<int>,
                  picked: array<bool>, seen: array<bool>)
    returns (edge: int, pivot: int, other: int)
    requires Consistent(train, adj, counts, picked, seen)
    requires Sum(counts[..]) > 0
    modifies counts, picked, seen
    ensures Consistent(train, adj, counts, picked, seen)
    ensures 0 <= pivot < adj.Length && 0 <= other < adj.Length
    ensures PivotWeights(old(counts[..]), old(seen[..]))[pivot] > 0
    ensures 0 <= edge < |train| && !old(picked[edge])
    ensures (train[edge].head == pivot && train[edge].tail == other) ||
            (train[edge].tail == pivot && train[edge].head == other)
    ensures forall k :: 0 <= k < picked.Length ==> picked[k] == (old(picked[k]) || k == edge)
    ensures seen[..] == old(seen[..])[pivot := true][other := true]
    ensures counts[..] == Decremented(old(counts[..]), pivot, other)
    ensures Sum(counts[..]) == old(Sum(counts[..])) - 2
  {
    ghost var counts0, picked0 := counts[..], picked[..];
    pivot := ChoosePivot(counts, seen);
    var list := adj[pivot];
    assert list == Incident(train, pivot);
    var chosen := ChooseEntry(list, picked);
    IncidentEntries(train, pivot, chosen);
    edge, other := list[chosen].edge, list[chosen].neighbour;
    assert list[chosen] == Entry(edge, other);
    ghost var counts1, picked1 := Decremented(counts0, pivot, other), picked0[edge := true];
    PickKeepsCounts(train, counts0, picked0, edge, pivot, other);
    DecrementedSum(counts0, pivot, other);
    CountsNonNegative(train, counts1, picked1);

    seen[pivot] := true;
    picked[edge] := true;
    DecrementEndpoints(counts, pivot, other);
    seen[other] := true;
    assert counts[..] == counts1;
    assert picked[..] == picked1;
  }

  /** Lowers the counts of `pivot` and `other` by one each (one entity by two
      when they coincide). */
  method DecrementEndpoints(counts: array<int>, pivot: int, other: int)
    requires 0 <= pivot < counts.Length && 0 <= other < counts.Length
    modifies counts
    ensures counts[..] == Decremented(old(counts[..]), pivot, other)
  {
    ghost var counts0 := counts[..];
    counts[pivot] := counts[pivot] - 1;
    counts[other] := counts[other] - 1;
    DecrementedUpdates(counts0, pivot, other);
    ghost var once := counts0[pivot := counts0[pivot] - 1];
    assert counts[..] == once[other := once[other] - 1];
  }

  /** Distinct elements. */
  predicate Distinct(s: seq<int>) {
    forall i, j :: 0 <= i < j < |s| ==> s[i] != s[j]
  }

  /** The initial bookkeeping: counts copied from the degrees, nothing picked
      (one flag per element of `triplets`), nothing seen. */
  method StartSample(train: seq<Triplet>, adj: array<seq<Entry>>, degrees: array<int>, triplets: seq<Triplet>)
    returns (counts: array<int>, picked: array<bool>, seen: array<bool>)
    requires WellFormed(train, adj.Length) && adj[..] == Adjacency(train, adj.Length)
    requires degrees.Length == adj.Length && forall e :: 0 <= e < adj.Length ==> degrees[e] == |adj[e]|
    requires |train| <= |triplets|
    ensures fresh(counts) && fresh(picked) && fresh(seen)
    ensures Consistent(train, adj, counts, picked, seen)
    ensures counts[..] == degrees[..] && Sum(counts[..]) == 2 * |train|
    ensures picked.Length == |triplets| && forall k :: 0 <= k < picked.Length ==> !picked[k]
    ensures forall v :: 0 <= v < seen.Length ==> !seen[v]
  {
    counts := new int[degrees.Length](e requires 0 <= e < degrees.Length reads degrees => degrees[e]);
    picked := new bool[|triplets|](_ => false);
    seen := new bool[degrees.Length](_ => false);
    ghost var flags := picked[..];
    forall u | 0 <= u < adj.Length
      ensures adj[u] == Incident(train, u)
      ensures EdgesIn(Incident(train, u), flags)
      ensures counts[u] == Unpicked(Incident(train, u), flags)
    {
      assert adj[u] == adj[..][u];
      forall j | 0 <= j < |Incident(train, u)| ensures 0 <= Incident(train, u)[j].edge < |flags| {
        IncidentEntries(train, u, j);
      }
      UnpickedNone(Incident(train, u), flags);
    }
    assert counts[..] == seq(adj.Length, e => |Incident(train, e)|);
    DegreeSum(train, adj.Length);
  }

  /** Draws `sampleSize` edge ids of `train` without repetition. `adj` and
      `degrees` are the graph index of `train`; `triplets` only sizes the
      picked flags. Asking for more edges than `train` has exhausts every
      count: the weights then sum to 0, the probabilities are NaN and the
      draw raises ValueError (`raised`). */
  method SampleEdgeNeighborhood(train: seq<Triplet>, adj: array<seq<Entry>>, degrees: array<int>,
                                triplets: seq<Triplet>, sampleSize: nat)
    returns (edges: seq<int>, raised: bool)
    requires WellFormed(train, adj.Length) && adj[..] == Adjacency(train, adj.Length)
    requires degrees.Length == adj.Length && forall e :: 0 <= e < adj.Length ==> degrees[e] == |adj[e]|
    requires |train| <= |triplets|
    ensures raised <==> sampleSize > |train|
    ensures !raised ==> |edges| == sampleSize
    ensures forall i :: 0 <= i < |edges| ==> 0 <= edges[i] < |train|
    ensures Distinct(edges)
    ensures !raised && sampleSize == |train| ==> forall k :: 0 <= k < |train| ==> k in edges
  {
    var counts, picked, seen := StartSample(train, adj, degrees, triplets);
    edges, raised := DrawEdges(train, adj, counts, picked, seen, sampleSize);
    if !raised && sampleSize == |train| {
      DistinctCover(edges, |train|);
    }
  }

  /** The sampling loop: `sampleSize` iterations of DrawEdge, each recording
      the edge id it picked, unless the weights sum to 0 first. The `seen`
      flags only steer the pivot draw and are dropped with the other
      bookkeeping when the sampler returns, so nothing is stated about
      their final contents. */
  method DrawEdges(train: seq<Triplet>, adj: array<seq<Entry>>, counts: array<int>,
                   picked: array<bool>, seen: array<bool>, sampleSize: nat)
    returns (edges: seq<int>, raised: bool)
    requires Consistent(train, adj, counts, picked, seen)
    requires Sum(counts[..]) == 2 * |train|
    requires forall k :: 0 <= k < picked.Length ==> !picked[k]
    modifies counts, picked, seen
    ensures raised <==> sampleSize > |train|
    ensures !raised ==> |edges| == sampleSize
    ensures !raised ==> Consistent(train, adj, counts, picked, seen)
    ensures !raised ==> Sum(counts[..]) == 2 * (|train| - sampleSize)
    ensures !raised ==> forall k :: 0 <= k < picked.Length ==> (picked[k] <==> k in edges)
    ensures Distinct(edges)
    ensures forall i :: 0 <= i < |edges| ==> 0 <= edges[i] < |train|
  {
    var buffer := new int[sampleSize];
    ghost var drawn: seq<int> := [];
    var idx := 0;
    while idx < sampleSize
      invariant 0 <= idx <= sampleSize && idx <= |train|
      invariant buffer != counts
      invariant Consistent(train, adj, counts, picked, seen)
      invariant Sum(counts[..]) == 2 * (|train| - idx)
      invariant |drawn| == idx && buffer[..idx] == drawn
      invariant forall i :: 0 <= i < idx ==> 0 <= drawn[i] < |train|
      invariant forall k :: 0 <= k < picked.Length ==> (picked[k] <==> k in drawn)
      invariant Distinct(drawn)
    {
      var exhausted := WeightsExhausted(counts, seen);
      if exhausted {
        return [], true;
      }
      var edge, pivot, other := DrawEdge(train, adj, counts, picked, seen);
      buffer[idx] := edge;
      drawn := drawn + [edge];
      idx := idx + 1;
    }
    assert buffer[..] == buffer[..idx];
    edges := buffer[..];
    raised := false;
  }

  /** Whether the pivot weights sum to 0, which leaves no pivot to draw:
      exactly when every count is 0. */
  method WeightsExhausted(counts: array<int>, seen: array<bool>) returns (exhausted: bool)
    requires seen.Length == counts.Length && NonNegative(counts[..])
    ensures exhausted <==> Sum(counts[..]) == 0
  {
    var weights := PivotWeights(counts[..], seen[..]);
    exhausted := Sum(weights) == 0;
    PivotWeightsSupport(counts[..], seen[..]);
    SumNonNegative(weights);
    SumNonNegative(counts[..]);
  }

  /** n distinct ids below n include every id below n. */
  lemma DistinctCover(s: seq<int>, n: nat)
    requires |s| == n && Distinct(s)
    requires forall i :: 0 <= i < |s| ==> 0 <= s[i] < n
    ensures forall k :: 0 <= k < n ==> k in s
  {
    forall k | 0 <= k < n ensures k in s {
      if k !in s {
        CollapseDistinct(s, k, n);
        Pigeonhole(Collapse(s, k), n - 1);
      }
    }
  }

  /** Closes the gap left by a value `x` that does not occur: values above it move down by one. */
  function Collapse(s: seq<int>, x: int): seq<int> {
    seq(|s|, i requires 0 <= i < |s| => if s[i] > x then s[i] - 1 else s[i])
  }

  lemma CollapseDistinct(s: seq<int>, x: int, m: int)
    requires Distinct(s) && x !in s && 0 <= x < m
    requires forall i :: 0 <= i < |s| ==> 0 <= s[i] < m
    ensures |Collapse(s, x)| == |s| && Distinct(Collapse(s, x))
    ensures forall i :: 0 <= i < |s| ==> 0 <= Collapse(s, x)[i] < m - 1
  {
  }

  /** Distinct ids all below m number at most m. */
  lemma {:induction false} Pigeonhole(s: seq<int>, m: nat)
    requires Distinct(s)
    requires forall i :: 0 <= i < |s| ==> 0 <= s[i] < m
    ensures |s| <= m
    decreases |s|
  {
    if |s| > 0 {
      var n := |s| - 1;
      var prefix := s[..n];
      assert s[n] !in prefix;
      CollapseDistinct(prefix, s[n], m);
      Pigeonhole(Collapse(prefix, s[n]), m - 1);
      assert |prefix| <= m - 1;
    }
  }
}
