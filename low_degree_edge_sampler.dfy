/**
 Degree-restricted exclusion of seed edges for link-prediction mini-batches.
 A seed (positive) edge is excluded from message passing only when the smaller
 in-degree of its two endpoints is strictly below the degree threshold; the
 usual exclusion rule is then applied to those candidates alone.
 */
module LowDegreeEdgeSampler {
  import opened Graphs

  /** The exclusion rules supported for a single edge type. */
  datatype ExcludeMode =
    | NoExclude         // exclude nothing
    | ExcludeSelf       // exclude the candidate edges themselves
    | ExcludeReverseId  // exclude the candidates and, for each, the edge the reverse-ID map names

  /** What is handed to the neighbour sampler: no exclusion at all, or a list of edge IDs. */
  datatype Exclusion = NothingExcluded | Excluded(eids: seq<nat>)

  /** The degree score of edge `e`: the smaller in-degree of its source and of its destination. */
  function DegreeScore(g: Graph, e: nat): (score: nat)
    requires e < |g.edges|
    ensures score <= InDegree(g.edges, g.edges[e].src) && score <= InDegree(g.edges, g.edges[e].dst)
    ensures score == InDegree(g.edges, g.edges[e].src) || score == InDegree(g.edges, g.edges[e].dst)
  {
    var head := InDegree(g.edges, g.edges[e].src);
    var tail := InDegree(g.edges, g.edges[e].dst);
    if head <= tail then head else tail
  }

  /** The seed edges whose degree score is strictly below `threshold`, in seed order (the masked selection). */
  function DegreeCandidates(g: Graph, seeds: seq<nat>, threshold: int): (c: seq<nat>)
    requires ValidEdgeIds(g, seeds)
    ensures |c| <= |seeds|
    ensures forall e :: e in c <==> e in seeds && DegreeScore(g, e) < threshold
    decreases |seeds|
  {
    if seeds == [] then []
    else
      assert seeds[0] in seeds;
      assert ValidEdgeIds(g, seeds[1..]) by {
        forall e | e in seeds[1..] ensures e < |g.edges| { assert e in seeds; }
      }
      (if DegreeScore(g, seeds[0]) < threshold then [seeds[0]] else []) + DegreeCandidates(g, seeds[1..], threshold)
  }

  /** The reverse-ID map looked up at every candidate (a row gather). */
  function ReverseIds(reverseEids: seq<nat>, cands: seq<nat>): seq<nat>
    requires IdsBelow(cands, |reverseEids|)
  {
    seq(|cands|, k requires 0 <= k < |cands| => assert cands[k] in cands; reverseEids[cands[k]])
  }

  /**
   The IDs to exclude for `seeds`: edge lookup fails on an ID outside the graph;
   otherwise the candidates are the low-degree seeds and the mode decides.
   Reverse-ID mode fails without a map, or when a candidate has no entry in it.
   */
  function FindExcludeEids(g: Graph, seeds: seq<nat>, exclude: ExcludeMode,
                           reverseEids: Option<seq<nat>> := None, degreeThreshold: int := 10): (r: Result<Exclusion>)
    // the edge lookup is the only failure outside reverse-ID mode
    ensures r == Err(InvalidEdgeId) <==> !ValidEdgeIds(g, seeds)
    ensures exclude != ExcludeReverseId ==> (r.Ok? <==> ValidEdgeIds(g, seeds))
    // no rule: no exclusion at all, whatever the degrees
    ensures exclude == NoExclude && r.Ok? ==> r.value == NothingExcluded
    ensures exclude != NoExclude && r.Ok? ==> r.value.Excluded?
    // self mode: an ID is excluded exactly when it is a seed scoring below the threshold, in seed order
    ensures exclude == ExcludeSelf && r.Ok? ==>
      forall e :: e in r.value.eids <==> e in seeds && DegreeScore(g, e) < degreeThreshold
    ensures exclude == ExcludeSelf && r.Ok? ==> r.value.eids == DegreeCandidates(g, seeds, degreeThreshold)
    // reverse-ID mode: the candidates, then the reverse of each candidate, and nothing else
    ensures exclude == ExcludeReverseId && ValidEdgeIds(g, seeds) ==>
      (r.Ok? <==> reverseEids.Some? && IdsBelow(DegreeCandidates(g, seeds, degreeThreshold), |reverseEids.value|))
    ensures exclude == ExcludeReverseId && ValidEdgeIds(g, seeds) && reverseEids.None? ==> r == Err(MissingReverseMap)
    ensures (&& exclude == ExcludeReverseId && ValidEdgeIds(g, seeds) && reverseEids.Some?
             && !IdsBelow(DegreeCandidates(g, seeds, degreeThreshold), |reverseEids.value|)) ==>
      r == Err(InvalidReverseIndex)
    ensures exclude == ExcludeReverseId && r.Ok? ==>
      var c := DegreeCandidates(g, seeds, degreeThreshold);
      && |r.value.eids| == 2 * |c|
      && r.value.eids[..|c|] == c
      && forall k :: 0 <= k < |c| ==> c[k] < |reverseEids.value| && r.value.eids[|c| + k] == reverseEids.value[c[k]]
  {
    if !ValidEdgeIds(g, seeds) then Err(InvalidEdgeId)
    else
      var candidates := DegreeCandidates(g, seeds, degreeThreshold);
      match exclude
      case NoExclude => Ok(NothingExcluded)
      case ExcludeSelf => Ok(Excluded(candidates))
      case ExcludeReverseId =>
        if reverseEids.None? then Err(MissingReverseMap)
        else if IdsBelow(candidates, |reverseEids.value|) then
          assert forall k :: 0 <= k < |candidates| ==> candidates[k] in candidates;
          Ok(Excluded(candidates + ReverseIds(reverseEids.value, candidates)))
        else Err(InvalidReverseIndex)
  }

  /** Seed lists built from valid IDs are valid: concatenations and tails. */
  lemma ValidEdgeIdsParts(g: Graph, a: seq<nat>, b: seq<nat>)
    requires ValidEdgeIds(g, a) && ValidEdgeIds(g, b)
    ensures ValidEdgeIds(g, a + b)
    ensures a != [] ==> ValidEdgeIds(g, a[1..])
  {
    forall e | e in a + b ensures e < |g.edges| { assert e in a || e in b; }
    if a != [] {
      forall e | e in a[1..] ensures e < |g.edges| { assert e in a; }
    }
  }

  /** Selecting candidates distributes over concatenation of seed batches: the selection keeps seed order. */
  lemma {:induction false} CandidatesAppend(g: Graph, a: seq<nat>, b: seq<nat>, threshold: int)
    requires ValidEdgeIds(g, a) && ValidEdgeIds(g, b)
    ensures ValidEdgeIds(g, a + b)
    ensures DegreeCandidates(g, a + b, threshold) == DegreeCandidates(g, a, threshold) + DegreeCandidates(g, b, threshold)
    decreases |a|
  {
    ValidEdgeIdsParts(g, a, b);
    if a == [] {
      assert a + b == b;
    } else {
      assert (a + b)[0] == a[0] && (a + b)[1..] == a[1..] + b;
      CandidatesAppend(g, a[1..], b, threshold);
    }
  }

  /**
   Raising the threshold never loses a candidate: the candidates at a lower
   threshold are exactly those at a higher one selected again at the lower.
   */
  lemma {:induction false} CandidatesMonotone(g: Graph, seeds: seq<nat>, low: int, high: int)
    requires ValidEdgeIds(g, seeds)
    requires low <= high
    ensures ValidEdgeIds(g, DegreeCandidates(g, seeds, high))
    ensures DegreeCandidates(g, DegreeCandidates(g, seeds, high), low) == DegreeCandidates(g, seeds, low)
    ensures forall e :: e in DegreeCandidates(g, seeds, low) ==> e in DegreeCandidates(g, seeds, high)
    decreases |seeds|
  {
    if seeds != [] {
      var rest := seeds[1..];
      assert ValidEdgeIds(g, rest) by {
        forall e | e in rest ensures e < |g.edges| { assert e in seeds; }
      }
      CandidatesMonotone(g, rest, low, high);
      assert seeds[0] in seeds;
      var head: seq<nat> := if DegreeScore(g, seeds[0]) < high then [seeds[0]] else [];
      assert DegreeCandidates(g, seeds, high) == head + DegreeCandidates(g, rest, high);
      CandidatesAppend(g, head, DegreeCandidates(g, rest, high), low);
    }
  }

  /** When every seed scores below the threshold, the candidates are all the seeds, in seed order. */
  lemma {:induction false} AllSeedsLowDegree(g: Graph, seeds: seq<nat>, threshold: int)
    requires ValidEdgeIds(g, seeds)
    requires forall e :: e in seeds ==> DegreeScore(g, e) < threshold
    ensures DegreeCandidates(g, seeds, threshold) == seeds
    decreases |seeds|
  {
    if seeds != [] {
      ValidEdgeIdsParts(g, seeds, []);
      assert seeds[0] in seeds;
      AllSeedsLowDegree(g, seeds[1..], threshold);
    }
  }

  /** When no seed scores below the threshold, there are no candidates. */
  lemma {:induction false} NoSeedLowDegree(g: Graph, seeds: seq<nat>, threshold: int)
    requires ValidEdgeIds(g, seeds)
    requires forall e :: e in seeds ==> DegreeScore(g, e) >= threshold
    ensures DegreeCandidates(g, seeds, threshold) == []
    decreases |seeds|
  {
    if seeds != [] {
      ValidEdgeIdsParts(g, seeds, []);
      assert seeds[0] in seeds;
      NoSeedLowDegree(g, seeds[1..], threshold);
    }
  }

  /** With a threshold of zero or below no edge is a candidate, since degrees are never negative. */
  lemma {:induction false} ZeroThresholdExcludesNothing(g: Graph, seeds: seq<nat>, exclude: ExcludeMode,
                                                        reverseEids: Option<seq<nat>>, degreeThreshold: int)
    requires ValidEdgeIds(g, seeds)
    requires degreeThreshold <= 0
    ensures DegreeCandidates(g, seeds, degreeThreshold) == []
    ensures FindExcludeEids(g, seeds, exclude, reverseEids, degreeThreshold).Ok? ==>
      FindExcludeEids(g, seeds, exclude, reverseEids, degreeThreshold).value in {NothingExcluded, Excluded([])}
    decreases |seeds|
  {
    if seeds != [] {
      var rest := seeds[1..];
      assert ValidEdgeIds(g, rest) by {
        forall e | e in rest ensures e < |g.edges| { assert e in seeds; }
      }
      ZeroThresholdExcludesNothing(g, rest, exclude, reverseEids, degreeThreshold);
    }
  }

  /** A seed edge whose endpoints both have in-degree at least the threshold is never excluded in self mode. */
  lemma HighDegreeSeedKept(g: Graph, seeds: seq<nat>, reverseEids: Option<seq<nat>>, degreeThreshold: int, e: nat)
    requires ValidEdgeIds(g, seeds) && e in seeds
    requires InDegree(g.edges, g.edges[e].src) >= degreeThreshold && InDegree(g.edges, g.edges[e].dst) >= degreeThreshold
    ensures FindExcludeEids(g, seeds, ExcludeSelf, reverseEids, degreeThreshold).Ok?
    ensures e !in FindExcludeEids(g, seeds, ExcludeSelf, reverseEids, degreeThreshold).value.eids
  {
  }

  /** A seed edge scoring below the threshold is excluded in self mode. */
  lemma LowDegreeSeedExcluded(g: Graph, seeds: seq<nat>, reverseEids: Option<seq<nat>>, degreeThreshold: int, e: nat)
    requires ValidEdgeIds(g, seeds) && e in seeds
    requires InDegree(g.edges, g.edges[e].src) < degreeThreshold || InDegree(g.edges, g.edges[e].dst) < degreeThreshold
    ensures FindExcludeEids(g, seeds, ExcludeSelf, reverseEids, degreeThreshold).Ok?
    ensures e in FindExcludeEids(g, seeds, ExcludeSelf, reverseEids, degreeThreshold).value.eids
  {
  }

  /** `reverseEids` maps every edge of `g` to an edge running the opposite way. */
  predicate IsReverseMap(g: Graph, reverseEids: seq<nat>)
  {
    && |reverseEids| == |g.edges|
    && forall e :: 0 <= e < |g.edges| ==>
         reverseEids[e] < |g.edges| && g.edges[reverseEids[e]] == Edge(g.edges[e].dst, g.edges[e].src)
  }

  /** An edge and its reverse join the same two nodes, so they have the same degree score. */
  lemma ReverseSameScore(g: Graph, reverseEids: seq<nat>, e: nat)
    requires IsReverseMap(g, reverseEids) && e < |g.edges|
    ensures reverseEids[e] < |g.edges| && DegreeScore(g, reverseEids[e]) == DegreeScore(g, e)
  {
  }

  /**
   When the reverse-ID map is a true reverse map, reverse-ID exclusion succeeds
   and, like self exclusion, excludes only edges scoring below the threshold.
   */
  lemma ReverseExclusionLowDegree(g: Graph, seeds: seq<nat>, reverseEids: seq<nat>, degreeThreshold: int)
    requires ValidEdgeIds(g, seeds) && IsReverseMap(g, reverseEids)
    ensures FindExcludeEids(g, seeds, ExcludeReverseId, Some(reverseEids), degreeThreshold).Ok?
    ensures forall x :: x in FindExcludeEids(g, seeds, ExcludeReverseId, Some(reverseEids), degreeThreshold).value.eids ==>
      x < |g.edges| && DegreeScore(g, x) < degreeThreshold
  {
    var c := DegreeCandidates(g, seeds, degreeThreshold);
    assert IdsBelow(c, |reverseEids|) by {
      forall k | 0 <= k < |c| ensures c[k] < |reverseEids| { assert c[k] in c; }
    }
    var rev := ReverseIds(reverseEids, c);
    var eids := FindExcludeEids(g, seeds, ExcludeReverseId, Some(reverseEids), degreeThreshold).value.eids;
    assert eids == c + rev;
    forall x | x in eids ensures x < |g.edges| && DegreeScore(g, x) < degreeThreshold {
      if x !in c {
        var k :| 0 <= k < |rev| && rev[k] == x;
        assert c[k] in c;
        ReverseSameScore(g, reverseEids, c[k]);
      }
    }
  }

  /** The graph with edges 0→1, 1→2, 2→3, 3→4, 1→3 over five nodes. */
  function SparseGraph(): Graph
  {
    Graph(5, [Edge(0, 1), Edge(1, 2), Edge(2, 3), Edge(3, 4), Edge(1, 3)])
  }

  /** Its in-degrees are 0, 1, 1, 2, 1, so each edge scores 0 or 1. */
  lemma SparseGraphScores()
    ensures DegreeScore(SparseGraph(), 0) == 0
    ensures DegreeScore(SparseGraph(), 1) == 1 && DegreeScore(SparseGraph(), 2) == 1
    ensures DegreeScore(SparseGraph(), 3) == 1 && DegreeScore(SparseGraph(), 4) == 1
  {
    var p1 := [Edge(0, 1)];
    var p2 := p1 + [Edge(1, 2)];
    var p3 := p2 + [Edge(2, 3)];
    var p4 := p3 + [Edge(3, 4)];
    var p5 := p4 + [Edge(1, 3)];
    assert SparseGraph().edges == p5;
    assert p5[..4] == p4 && p4[..3] == p3 && p3[..2] == p2 && p2[..1] == p1;
    forall v: nat | v < 5
      ensures InDegree(p5, v) == InDegree(p4, v) + (if v == 3 then 1 else 0)
      ensures InDegree(p4, v) == InDegree(p3, v) + (if v == 4 then 1 else 0)
      ensures InDegree(p3, v) == InDegree(p2, v) + (if v == 3 then 1 else 0)
      ensures InDegree(p2, v) == InDegree(p1, v) + (if v == 2 then 1 else 0)
      ensures InDegree(p1, v) == (if v == 1 then 1 else 0)
    {
      assert p1[..0] == [];
    }
  }

  /**
   On that graph threshold 1 takes only edge 0: the other seeds score exactly
   1, and a score equal to the threshold is not below it. The seeds are a
   parameter so that the solver does not unfold the degree computation on a
   literal list.
   */
  lemma SparseGraphBoundary(seeds: seq<nat>)
    requires seeds == [0, 1, 2, 3, 4]
    ensures DegreeCandidates(SparseGraph(), seeds, 1) == [0]
  {
    var low: seq<nat> := [0];
    var high: seq<nat> := [1, 2, 3, 4];
    assert seeds == low + high;
    SparseGraphScores();
    AllSeedsLowDegree(SparseGraph(), low, 1);
    assert forall e :: e in high ==> e == 1 || e == 2 || e == 3 || e == 4;
    NoSeedLowDegree(SparseGraph(), high, 1);
    CandidatesAppend(SparseGraph(), low, high, 1);
  }

  /** On that graph threshold 2 takes every seed, since every edge scores at most 1 (seeds a parameter, as above). */
  lemma SparseGraphThresholdTwo(seeds: seq<nat>)
    requires seeds == [0, 1, 2, 3, 4]
    ensures DegreeCandidates(SparseGraph(), seeds, 2) == seeds
  {
    SparseGraphScores();
    assert forall e :: e in seeds ==> e == 0 || e == 1 || e == 2 || e == 3 || e == 4;
    AllSeedsLowDegree(SparseGraph(), seeds, 2);
  }

  /**
   The sampler: the exclusion rule, the reverse-ID map and the degree threshold
   are fixed at construction (threshold 10 unless given).
   */
  class EdgePredictionSamplerWithDegree {
    var exclude: ExcludeMode
    var reverseEids: Option<seq<nat>>
    var degreeThreshold: int

    constructor (exclude: ExcludeMode := NoExclude, reverseEids: Option<seq<nat>> := None, degreeThreshold: int := 10)
      ensures this.exclude == exclude && this.reverseEids == reverseEids && this.degreeThreshold == degreeThreshold
    {
      this.exclude := exclude;
      this.reverseEids := reverseEids;
      this.degreeThreshold := degreeThreshold;
    }

    /**
     The exclusion a sampling call hands to the neighbour sampler: computed on
     the full graph and the seed edges as given (not on the compacted pair
     graph), with the stored rule, reverse-ID map and threshold.
     */
    method Sample(g: Graph, seedEdges: seq<nat>) returns (excludeEids: Result<Exclusion>)
      ensures excludeEids == FindExcludeEids(g, seedEdges, exclude, reverseEids, degreeThreshold)
    {
      excludeEids := FindExcludeEids(g, seedEdges, exclude, reverseEids, degreeThreshold);
    }
  }

  /** A sampler built with only a rule uses threshold 10: a seed scoring 10 is kept, one scoring 9 is excluded. */
  method DefaultThresholdSample(g: Graph, seedEdges: seq<nat>) returns (excludeEids: Result<Exclusion>)
    ensures excludeEids.Ok? <==> ValidEdgeIds(g, seedEdges)
    ensures excludeEids.Ok? ==> excludeEids.value.Excluded?
    ensures excludeEids.Ok? ==> forall e :: e in excludeEids.value.eids <==> e in seedEdges && DegreeScore(g, e) < 10
  {
    var sampler := new EdgePredictionSamplerWithDegree(ExcludeSelf);
    excludeEids := sampler.Sample(g, seedEdges);
  }
}
