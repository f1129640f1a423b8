/** The graph index of the training triplets: for every entity, the list of
    (edge id, neighbour) pairs of the triplets it takes part in, and its
    degree (the length of that list). */
module GraphIndex {

  /** A training triplet; its edge id is its position in the training sequence. */
  datatype Triplet = Triplet(head: int, relation: int, tail: int)

  /** One adjacency entry: the edge id and the entity at the other end of it. */
  datatype Entry = Entry(edge: int, neighbour: int)

  /** Every head and tail is an entity id in [0, entityCount). */
  predicate WellFormed(train: seq<Triplet>, entityCount: nat) {
    forall i :: 0 <= i < |train| ==> 0 <= train[i].head < entityCount && 0 <= train[i].tail < entityCount
  }

  /** How many endpoints of `t` are `e`: 2 for a self-loop on `e`. */
  function Endpoints(t: Triplet, e: int): nat {
    (if t.head == e then 1 else 0) + (if t.tail == e then 1 else 0)
  }

  /** The entries the triplet with edge id `i` adds to the list of `e`:
      (i, tail) when `e` is its head, then (i, head) when `e` is its tail. */
  function EntriesOf(t: Triplet, i: int, e: int): seq<Entry> {
    (if t.head == e then [Entry(i, t.tail)] else []) + (if t.tail == e then [Entry(i, t.head)] else [])
  }

  /** The adjacency list of `e` once the triplets have been scanned in order. */
  function Incident(train: seq<Triplet>, e: int): seq<Entry> {
    if |train| == 0 then []
    else
      var last := |train| - 1;
      Incident(train[..last], e) + EntriesOf(train[last], last, e)
  }

  /** The adjacency lists of the entities 0 .. entityCount-1. */
  function Adjacency(train: seq<Triplet>, entityCount: nat): seq<seq<Entry>> {
    seq(entityCount, e => Incident(train, e))
  }

  /** Number of entries of `entries` whose edge id is `k`. */
  function Occurrences(entries: seq<Entry>, k: int): nat {
    if |entries| == 0 then 0
    else Occurrences(entries[..|entries| - 1], k) + (if entries[|entries| - 1].edge == k then 1 else 0)
  }

  function Heads(train: seq<Triplet>): seq<int> {
    seq(|train|, i requires 0 <= i < |train| => train[i].head)
  }

  function Tails(train: seq<Triplet>): seq<int> {
    seq(|train|, i requires 0 <= i < |train| => train[i].tail)
  }

  function Sum(s: seq<int>): int {
    if |s| == 0 then 0 else Sum(s[..|s| - 1]) + s[|s| - 1]
  }

  /** Builds the adjacency lists by appending (i, tail) to the head's list and
      (i, head) to the tail's list for every triplet i, then the degrees. */
  method BuildIndex(train: seq<Triplet>, entityCount: nat) returns (adj: array<seq<Entry>>, degrees: array<int>)
    requires WellFormed(train, entityCount)
    ensures adj.Length == entityCount && adj[..] == Adjacency(train, entityCount)
    ensures degrees.Length == entityCount
    ensures forall e :: 0 <= e < entityCount ==> degrees[e] == |adj[e]|
  {
    adj := new seq<Entry>[entityCount](_ => []);
    var i := 0;
    while i < |train|
      invariant 0 <= i <= |train|
      invariant forall e :: 0 <= e < entityCount ==> adj[e] == Incident(train[..i], e)
    {
      var t := train[i];
      assert train[..i + 1][..i] == train[..i];
      adj[t.head] := adj[t.head] + [Entry(i, t.tail)];
      adj[t.tail] := adj[t.tail] + [Entry(i, t.head)];
      i := i + 1;
    }
    assert train[..|train|] == train;
    degrees := new int[entityCount](e requires 0 <= e < adj.Length reads adj => |adj[e]|);
  }

  /** Every entry of the list of `e` names an edge id of the training set and
      the opposite endpoint of that triplet. */
  lemma {:induction false} IncidentEntries(train: seq<Triplet>, e: int, j: int)
    requires 0 <= j < |Incident(train, e)|
    ensures var x := Incident(train, e)[j];
      0 <= x.edge < |train| &&
      ((train[x.edge].head == e && train[x.edge].tail == x.neighbour) ||
       (train[x.edge].tail == e && train[x.edge].head == x.neighbour))
  {
    var last := |train| - 1;
    var prefix := train[..last];
    if j < |Incident(prefix, e)| {
      IncidentEntries(prefix, e, j);
    }
  }

  /** Edge `k` occurs in the list of `e` once per endpoint of triplet k that is `e`. */
  lemma {:induction false} EdgeOccurrences(train: seq<Triplet>, e: int, k: int)
    requires 0 <= k < |train|
    ensures Occurrences(Incident(train, e), k) == Endpoints(train[k], e)
  {
    var last := |train| - 1;
    var prefix := train[..last];
    OccurrencesAppend(Incident(prefix, e), EntriesOf(train[last], last, e), k);
    OccurrencesOfEntries(train[last], last, e, k);
    if k < last {
      EdgeOccurrences(prefix, e, k);
    } else {
      OccurrencesAbsent(prefix, e, k);
    }
  }

  /** No entry of the list built from a prefix names an edge id at or past its end. */
  lemma {:induction false} OccurrencesAbsent(train: seq<Triplet>, e: int, k: int)
    requires |train| <= k
    ensures Occurrences(Incident(train, e), k) == 0
  {
    if |train| > 0 {
      var last := |train| - 1;
      OccurrencesAbsent(train[..last], e, k);
      OccurrencesAppend(Incident(train[..last], e), EntriesOf(train[last], last, e), k);
      OccurrencesOfEntries(train[last], last, e, k);
    }
  }

  lemma OccurrencesOfEntries(t: Triplet, i: int, e: int, k: int)
    ensures Occurrences(EntriesOf(t, i, e), k) == if i == k then Endpoints(t, e) else 0
  {
    var es := EntriesOf(t, i, e);
    if |es| == 2 {
      assert es[..1] == [Entry(i, t.tail)];
      assert es[..1][..0] == [];
    } else if |es| == 1 {
      assert es[..0] == [];
    }
  }

  lemma {:induction false} OccurrencesAppend(a: seq<Entry>, b: seq<Entry>, k: int)
    ensures Occurrences(a + b, k) == Occurrences(a, k) + Occurrences(b, k)
  {
    if |b| > 0 {
      assert (a + b)[..|a + b| - 1] == a + b[..|b| - 1];
      OccurrencesAppend(a, b[..|b| - 1], k);
    } else {
      assert a + b == a;
    }
  }

  /** The degree of `e` is the number of times it occurs as a head plus the
      number of times it occurs as a tail. */
  lemma {:induction false} IncidentDegree(train: seq<Triplet>, e: int)
    ensures |Incident(train, e)| == multiset(Heads(train))[e] + multiset(Tails(train))[e]
  {
    if |train| > 0 {
      var last := |train| - 1;
      IncidentDegree(train[..last], e);
      assert Heads(train) == Heads(train[..last]) + [train[last].head];
      assert Tails(train) == Tails(train[..last]) + [train[last].tail];
    } else {
      assert Heads(train) == [] && Tails(train) == [];
    }
  }

  /** Every triplet adds two entries in all: the degrees sum to twice the edge count. */
  lemma {:induction false} DegreeSum(train: seq<Triplet>, entityCount: nat)
    requires WellFormed(train, entityCount)
    ensures Sum(seq(entityCount, e => |Incident(train, e)|)) == 2 * |train|
  {
    if |train| > 0 {
      var last := |train| - 1;
      var t := train[last];
      DegreeSum(train[..last], entityCount);
      var before := seq(entityCount, e => |Incident(train[..last], e)|);
      var heads := seq(entityCount, e => if t.head == e then 1 else 0);
      var tails := seq(entityCount, e => if t.tail == e then 1 else 0);
      assert seq(entityCount, e => |Incident(train, e)|) == seq(entityCount, e requires 0 <= e < entityCount => before[e] + heads[e] + tails[e]);
      SumPointwise(before, heads, tails);
      SumIndicator(entityCount, t.head);
      SumIndicator(entityCount, t.tail);
    } else {
      SumZeros(seq(entityCount, e => |Incident(train, e)|));
    }
  }

  lemma {:induction false} SumZeros(s: seq<int>)
    requires forall i :: 0 <= i < |s| ==> s[i] == 0
    ensures Sum(s) == 0
  {
    if |s| > 0 {
      SumZeros(s[..|s| - 1]);
    }
  }

  lemma {:induction false} SumPointwise(a: seq<int>, b: seq<int>, c: seq<int>)
    requires |a| == |b| == |c|
    ensures Sum(seq(|a|, i requires 0 <= i < |a| => a[i] + b[i] + c[i])) == Sum(a) + Sum(b) + Sum(c)
  {
    if |a| > 0 {
      var n := |a| - 1;
      SumPointwise(a[..n], b[..n], c[..n]);
      assert seq(|a|, i requires 0 <= i < |a| => a[i] + b[i] + c[i])[..n]
          == seq(n, i requires 0 <= i < n => a[..n][i] + b[..n][i] + c[..n][i]);
    }
  }

  lemma {:induction false} SumIndicator(n: nat, x: int)
    requires 0 <= x < n
    ensures Sum(seq(n, e => if x == e then 1 else 0)) == 1
  {
    var s := seq(n, e => if x == e then 1 else 0);
    if x < n - 1 {
      SumIndicator(n - 1, x);
      assert s[..n - 1] == seq(n - 1, e => if x == e then 1 else 0);
    } else {
      SumZeros(s[..n - 1]);
    }
  }

  /** Changing one element changes the sum by the difference. */
  lemma {:induction false} SumUpdate(s: seq<int>, i: int, x: int)
    requires 0 <= i < |s|
    ensures Sum(s[i := x]) == Sum(s) - s[i] + x
  {
    var n := |s| - 1;
    if i < n {
      assert s[i := x][..n] == s[..n][i := x];
      SumUpdate(s[..n], i, x);
    } else {
      assert s[i := x][..n] == s[..n];
    }
  }

  /** A positive sum has a positive element. */
  lemma {:induction false} SumPositive(s: seq<int>)
    requires Sum(s) > 0
    ensures exists i :: 0 <= i < |s| && s[i] > 0
  {
    var n := |s| - 1;
    if s[n] <= 0 {
      SumPositive(s[..n]);
      var i :| 0 <= i < n && s[..n][i] > 0;
      assert s[i] > 0;
    }
  }

  /** A sum of non-negative numbers is zero exactly when every one of them is. */
  lemma {:induction false} SumNonNegative(s: seq<int>)
    requires forall i :: 0 <= i < |s| ==> s[i] >= 0
    ensures Sum(s) >= 0
    ensures Sum(s) == 0 <==> forall i :: 0 <= i < |s| ==> s[i] == 0
  {
    if |s| > 0 {
      SumNonNegative(s[..|s| - 1]);
      if Sum(s) == 0 {
        var prefix := s[..|s| - 1];
        assert forall i :: 0 <= i < |prefix| ==> prefix[i] == 0;
      } else if forall i :: 0 <= i < |s| ==> s[i] == 0 {
        SumZeros(s);
      }
    }
  }
}
