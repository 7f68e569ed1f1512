/**
 The graph abstraction both utilities work on: a directed multigraph whose
 nodes are 0 .. numNodes - 1 and whose edges are a sequence of
 (source, destination) pairs, the edge ID being the index in that sequence.
 The few graph-library primitives the utilities call are modelled here as
 operations on that sequence.
 */
module Graphs {

  /** A directed edge from `src` to `dst`. */
  datatype Edge = Edge(src: nat, dst: nat)

  /** A directed multigraph; edge `i` is `edges[i]`. Parallel edges and self-loops are allowed. */
  datatype Graph = Graph(numNodes: nat, edges: seq<Edge>)

  datatype Option<T> = None | Some(value: T)

  /** The failures the graph library raises on the paths the utilities reach. */
  datatype Error =
    | InvalidNodeId        // a node ID outside 0 .. numNodes - 1 was queried
    | InvalidEdgeId        // an edge ID outside 0 .. |edges| - 1 was looked up
    | MissingReverseMap    // reverse-ID exclusion was asked for without a reverse-ID map
    | InvalidReverseIndex  // an edge ID has no entry in the reverse-ID map

  datatype Result<T> = Ok(value: T) | Err(error: Error)

  /** Every endpoint names a node of the graph. */
  predicate WellFormed(g: Graph)
  {
    forall i :: 0 <= i < |g.edges| ==> g.edges[i].src < g.numNodes && g.edges[i].dst < g.numNodes
  }

  /** Every ID in `ids` is below `n`: it indexes a sequence of length `n`. */
  predicate IdsBelow(ids: seq<nat>, n: nat)
  {
    forall e :: e in ids ==> e < n
  }

  /** Every ID in `ids` names an edge of `g`. */
  predicate ValidEdgeIds(g: Graph, ids: seq<nat>)
  {
    IdsBelow(ids, |g.edges|)
  }

  /** The in-degree of `v` among `edges`: the number of edges whose destination is `v`. */
  function InDegree(edges: seq<Edge>, v: nat): (d: nat)
    ensures d <= |edges|
    ensures d > 0 <==> exists i :: 0 <= i < |edges| && edges[i].dst == v
    decreases |edges|
  {
    if edges == [] then 0
    else
      var last := edges[|edges| - 1];
      var front := edges[..|edges| - 1];
      assert forall i :: 0 <= i < |front| ==> front[i] == edges[i];
      InDegree(front, v) + (if last.dst == v then 1 else 0)
  }

  /** Whether `g` has at least one edge from `s` to `t`. */
  predicate HasEdge(g: Graph, s: nat, t: nat)
  {
    Edge(s, t) in g.edges
  }

  /** The IDs below `n` of the edges equal to `e`, in ascending order. */
  function IdsOf(edges: seq<Edge>, e: Edge, n: nat): (ids: seq<nat>)
    requires n <= |edges|
    ensures forall i :: i in ids <==> 0 <= i < n && edges[i] == e
    ensures forall k :: 0 <= k < |ids| ==> ids[k] < n
    ensures forall j, k :: 0 <= j < k < |ids| ==> ids[j] < ids[k]
    decreases n
  {
    if n == 0 then []
    else IdsOf(edges, e, n - 1) + (if edges[n - 1] == e then [n - 1] else [])
  }

  /**
   The IDs of all edges from `s` to `t`, parallel edges included, in ascending
   order: what the edge-ID lookup that also returns endpoints yields last.
   */
  function EdgeIds(g: Graph, s: nat, t: nat): (ids: seq<nat>)
  {
    IdsOf(g.edges, Edge(s, t), |g.edges|)
  }

  /** An edge from `s` to `t` exists exactly when its ID list is non-empty, and the list holds every such ID. */
  lemma EdgeIdsComplete(g: Graph, s: nat, t: nat)
    ensures forall i :: i in EdgeIds(g, s, t) <==> 0 <= i < |g.edges| && g.edges[i] == Edge(s, t)
    ensures HasEdge(g, s, t) <==> |EdgeIds(g, s, t)| > 0
  {
    var ids := EdgeIds(g, s, t);
    if HasEdge(g, s, t) {
      var i :| 0 <= i < |g.edges| && g.edges[i] == Edge(s, t);
      assert i in ids;
    }
    if |ids| > 0 {
      assert ids[0] in ids;
      assert g.edges[ids[0]] == Edge(s, t);
    }
  }

  /** The IDs below `n` that are not listed in `ids`, in ascending order. */
  function SurvivingIds(n: nat, ids: seq<nat>): (r: seq<nat>)
    ensures forall i :: i in r <==> 0 <= i < n && i !in ids
    ensures forall k :: 0 <= k < |r| ==> r[k] < n
    ensures forall j, k :: 0 <= j < k < |r| ==> r[j] < r[k]
    decreases n
  {
    if n == 0 then []
    else SurvivingIds(n - 1, ids) + (if n - 1 in ids then [] else [n - 1])
  }

  /**
   Removes the edges whose IDs are listed. The node set is kept, and the
   surviving edges keep their relative order (they are renumbered densely,
   the k-th survivor being the k-th unlisted ID). A listed ID outside the
   graph is an error in the library, so the caller must not pass one.
   */
  function RemoveEdges(g: Graph, ids: seq<nat>): (r: Graph)
    requires ValidEdgeIds(g, ids)
    ensures r.numNodes == g.numNodes
    ensures |r.edges| == |SurvivingIds(|g.edges|, ids)|
    ensures forall k :: 0 <= k < |r.edges| ==> r.edges[k] == g.edges[SurvivingIds(|g.edges|, ids)[k]]
  {
    var keep := SurvivingIds(|g.edges|, ids);
    assert forall k :: 0 <= k < |keep| ==> keep[k] in keep;
    Graph(g.numNodes, seq(|keep|, k requires 0 <= k < |keep| => g.edges[keep[k]]))
  }

  /** An edge value survives removal exactly when some unlisted ID carries it. */
  lemma RemoveEdgesMembership(g: Graph, ids: seq<nat>, e: Edge)
    requires ValidEdgeIds(g, ids)
    ensures e in RemoveEdges(g, ids).edges <==> exists i :: 0 <= i < |g.edges| && i !in ids && g.edges[i] == e
  {
    var keep := SurvivingIds(|g.edges|, ids);
    var r := RemoveEdges(g, ids);
    if e in r.edges {
      var k :| 0 <= k < |r.edges| && r.edges[k] == e;
      assert keep[k] in keep;
    }
    if exists i :: 0 <= i < |g.edges| && i !in ids && g.edges[i] == e {
      var i :| 0 <= i < |g.edges| && i !in ids && g.edges[i] == e;
      assert i in keep;
      var k :| 0 <= k < |keep| && keep[k] == i;
      assert r.edges[k] == e;
    }
  }

  /** Which IDs survive depends only on which IDs are listed: order and repetition in the list do not matter. */
  lemma {:induction false} SurvivingIdsByMembership(n: nat, a: seq<nat>, b: seq<nat>)
    requires forall i :: i < n ==> (i in a <==> i in b)
    ensures SurvivingIds(n, a) == SurvivingIds(n, b)
    decreases n
  {
    if n > 0 {
      SurvivingIdsByMembership(n - 1, a, b);
    }
  }

  /** Removing the same set of IDs, however listed (duplicates included), gives the same graph. */
  lemma RemoveEdgesByMembership(g: Graph, a: seq<nat>, b: seq<nat>)
    requires ValidEdgeIds(g, a) && ValidEdgeIds(g, b)
    requires forall i :: i in a <==> i in b
    ensures RemoveEdges(g, a) == RemoveEdges(g, b)
  {
    SurvivingIdsByMembership(|g.edges|, a, b);
  }

  /** Removing edges never makes a graph ill-formed: endpoints and the node set are kept. */
  lemma RemoveEdgesWellFormed(g: Graph, ids: seq<nat>)
    requires WellFormed(g) && ValidEdgeIds(g, ids)
    ensures WellFormed(RemoveEdges(g, ids))
  {
    var keep := SurvivingIds(|g.edges|, ids);
    forall k | 0 <= k < |keep| ensures keep[k] < |g.edges| {
      assert keep[k] in keep;
    }
  }
}
