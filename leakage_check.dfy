/**
 The leakage filter: builds the inference graph by removing edges from a copy
 of the graph. The code scans only the validation and test pairs whose
 forward edge s→t exists, and removes both directions of each scanned pair
 (validation pairs are kept when they may serve as input). The corrected
 filter removes every edge joining a listed pair, whichever way it runs.
 The graph is a value, so the copy the filter edits is its own and the
 caller's graph cannot change.
 */
module LeakageCheck {
  import opened Graphs

  /** A listed (source, target) node pair of the validation or test split. */
  datatype Pair = Pair(s: nat, t: nat)

  /** Edge `e` joins the two nodes of `p`, in one direction or the other. */
  predicate Joins(e: Edge, p: Pair)
  {
    e == Edge(p.s, p.t) || e == Edge(p.t, p.s)
  }

  /** Edge `e` joins some listed pair. */
  predicate JoinsSome(e: Edge, pairs: seq<Pair>)
    decreases |pairs|
  {
    |pairs| > 0 && (JoinsSome(e, pairs[..|pairs| - 1]) || Joins(e, pairs[|pairs| - 1]))
  }

  /** `JoinsSome` holds exactly when some listed pair is joined. */
  lemma {:induction false} JoinsSomeExists(e: Edge, pairs: seq<Pair>)
    ensures JoinsSome(e, pairs) <==> exists k :: 0 <= k < |pairs| && Joins(e, pairs[k])
    decreases |pairs|
  {
    if |pairs| > 0 {
      var front := pairs[..|pairs| - 1];
      JoinsSomeExists(e, front);
      if exists k :: 0 <= k < |front| && Joins(e, front[k]) {
        var k :| 0 <= k < |front| && Joins(e, front[k]);
        assert pairs[k] == front[k];
      }
      if exists k :: 0 <= k < |pairs| && Joins(e, pairs[k]) {
        var k :| 0 <= k < |pairs| && Joins(e, pairs[k]);
        if k < |front| { assert front[k] == pairs[k]; }
      }
    }
  }

  /** Every node named by a pair exists in a graph of `n` nodes. */
  predicate NodesInRange(pairs: seq<Pair>, n: nat)
  {
    forall k :: 0 <= k < |pairs| ==> pairs[k].s < n && pairs[k].t < n
  }

  /** The listed pairs whose forward edge s→t is in `g`, in list order (the split masked by its edge-existence test). */
  function WithForwardEdge(g: Graph, pairs: seq<Pair>): (r: seq<Pair>)
    ensures |r| <= |pairs|
    ensures forall p :: p in r <==> p in pairs && HasEdge(g, p.s, p.t)
    decreases |pairs|
  {
    if pairs == [] then []
    else (if HasEdge(g, pairs[0].s, pairs[0].t) then [pairs[0]] else []) + WithForwardEdge(g, pairs[1..])
  }

  /** Masking distributes over concatenation, so the masked split keeps the pairs in list order. */
  lemma {:induction false} ForwardEdgeAppend(g: Graph, a: seq<Pair>, b: seq<Pair>)
    ensures WithForwardEdge(g, a + b) == WithForwardEdge(g, a) + WithForwardEdge(g, b)
    decreases |a|
  {
    if a == [] {
      assert a + b == b;
    } else {
      assert (a + b)[0] == a[0] && (a + b)[1..] == a[1..] + b;
      ForwardEdgeAppend(g, a[1..], b);
    }
  }

  /** The concatenation of a list of ID lists (the flattening before removal). */
  function Flatten(xss: seq<seq<nat>>): seq<nat>
    decreases |xss|
  {
    if xss == [] then [] else Flatten(xss[..|xss| - 1]) + xss[|xss| - 1]
  }

  /** The IDs below `n` of the edges of `g` that join some listed pair, in ascending order. */
  function JoiningIds(g: Graph, pairs: seq<Pair>, n: nat): (ids: seq<nat>)
    requires n <= |g.edges|
    ensures forall i :: i in ids <==> 0 <= i < n && JoinsSome(g.edges[i], pairs)
    decreases n
  {
    if n == 0 then []
    else JoiningIds(g, pairs, n - 1) + (if JoinsSome(g.edges[n - 1], pairs) then [n - 1] else [])
  }

  /** The pairs that are scanned: the test pairs always, the validation pairs unless they may serve as input. */
  function ScannedPairs(valid: seq<Pair>, test: seq<Pair>, validAsInput: bool): seq<Pair>
  {
    (if validAsInput then [] else valid) + test
  }

  /** The intended inference graph: `g` without every edge joining a scanned pair, in either direction. */
  function InferenceGraph(g: Graph, valid: seq<Pair>, test: seq<Pair>, validAsInput: bool): Graph
  {
    var ids := JoiningIds(g, ScannedPairs(valid, test, validAsInput), |g.edges|);
    RemoveEdges(g, ids)
  }

  /**
   The inference graph the filter actually builds: only the pairs whose
   forward edge exists are scanned, and for those both directions are cut.
   */
  function InferenceGraphAsWritten(g: Graph, valid: seq<Pair>, test: seq<Pair>, validAsInput: bool): Graph
  {
    RemoveEdges(g, JoiningIds(g, MaskedScannedPairs(g, valid, test, validAsInput), |g.edges|))
  }

  /** The pairs the filter as written scans: those of `ScannedPairs` whose forward edge exists. */
  function MaskedScannedPairs(g: Graph, valid: seq<Pair>, test: seq<Pair>, validAsInput: bool): seq<Pair>
  {
    (if validAsInput then [] else WithForwardEdge(g, valid)) + WithForwardEdge(g, test)
  }

  /**
   The scanning loop: for each pair, the IDs of its forward edges and of its
   backward edges are appended, each list only when that direction has an edge.
   */
  method CollectJoiningIds(g: Graph, pairs: seq<Pair>, acc: seq<seq<nat>>) returns (out: seq<seq<nat>>)
    ensures forall i :: i in Flatten(out) <==> i in Flatten(acc) || (0 <= i < |g.edges| && JoinsSome(g.edges[i], pairs))
  {
    out := acc;
    for j := 0 to |pairs|
      invariant forall i :: i in Flatten(out) <==> i in Flatten(acc) || (0 <= i < |g.edges| && JoinsSome(g.edges[i], pairs[..j]))
    {
      var p := pairs[j];
      ghost var before := out;
      if HasEdge(g, p.s, p.t) {
        out := out + [EdgeIds(g, p.s, p.t)];
      }
      if HasEdge(g, p.t, p.s) {
        out := out + [EdgeIds(g, p.t, p.s)];
      }
      CollectStep(g, before, out, p);
      assert pairs[..j + 1][..j] == pairs[..j];
    }
    assert pairs[..|pairs|] == pairs;
  }

  /** One step of the scanning loop adds exactly the IDs of the edges joining that pair. */
  lemma CollectStep(g: Graph, before: seq<seq<nat>>, after: seq<seq<nat>>, p: Pair)
    requires after == before + (if HasEdge(g, p.s, p.t) then [EdgeIds(g, p.s, p.t)] else [])
                             + (if HasEdge(g, p.t, p.s) then [EdgeIds(g, p.t, p.s)] else [])
    ensures forall i :: i in Flatten(after) <==> i in Flatten(before) || (0 <= i < |g.edges| && Joins(g.edges[i], p))
  {
    EdgeIdsComplete(g, p.s, p.t);
    EdgeIdsComplete(g, p.t, p.s);
    var fwd: seq<seq<nat>> := if HasEdge(g, p.s, p.t) then [EdgeIds(g, p.s, p.t)] else [];
    var bwd: seq<seq<nat>> := if HasEdge(g, p.t, p.s) then [EdgeIds(g, p.t, p.s)] else [];
    FlattenConcat(before + fwd, bwd);
    FlattenConcat(before, fwd);
    assert Flatten(after) == Flatten(before) + Flatten(fwd) + Flatten(bwd);
    assert [EdgeIds(g, p.s, p.t)][..0] == [];
    assert [EdgeIds(g, p.t, p.s)][..0] == [];
  }

  /** Flattening distributes over concatenation. */
  lemma {:induction false} FlattenConcat(a: seq<seq<nat>>, b: seq<seq<nat>>)
    ensures Flatten(a + b) == Flatten(a) + Flatten(b)
    decreases |b|
  {
    if b == [] {
      assert a + b == a;
    } else {
      var front := b[..|b| - 1];
      assert (a + b)[..|a + b| - 1] == a + front;
      FlattenConcat(a, front);
    }
  }

  /**
   The filter as the code builds it. A node outside the graph in either
   split fails the edge-existence test; otherwise the result is
   `InferenceGraphAsWritten`.
   */
  method SplitCheck(g: Graph, valid: seq<Pair>, test: seq<Pair>, validAsInput: bool := false) returns (r: Result<Graph>)
    ensures r.Err? <==> !(NodesInRange(valid, g.numNodes) && NodesInRange(test, g.numNodes))
    ensures r.Err? ==> r.error == InvalidNodeId
    ensures r.Ok? ==> r.value == InferenceGraphAsWritten(g, valid, test, validAsInput)
  {
    if !NodesInRange(valid, g.numNodes) || !NodesInRange(test, g.numNodes) {
      return Err(InvalidNodeId);
    }
    var inferenceG := g;
    var scanValid := WithForwardEdge(g, valid);
    var scanTest := WithForwardEdge(g, test);
    var edgesToRemove: seq<seq<nat>> := [];
    // the guards "some pair has its forward edge" only skip an empty loop
    if !validAsInput && |scanValid| > 0 {
      edgesToRemove := CollectJoiningIds(g, scanValid, edgesToRemove);
    }
    if |scanTest| > 0 {
      edgesToRemove := CollectJoiningIds(g, scanTest, edgesToRemove);
    }
    var flat := Flatten(edgesToRemove);
    ghost var scanned := (if validAsInput then [] else scanValid) + scanTest;
    forall i | 0 <= i < |g.edges| {
      JoinsSomeAppend(g.edges[i], if validAsInput then [] else scanValid, scanTest);
    }
    ghost var expected := JoiningIds(g, scanned, |g.edges|);
    RemoveEdgesByMembership(g, flat, expected);
    inferenceG := RemoveEdges(inferenceG, flat);
    return Ok(inferenceG);
  }

  /** An edge joins some pair of a concatenation exactly when it joins some pair of one part. */
  lemma {:induction false} JoinsSomeAppend(e: Edge, a: seq<Pair>, b: seq<Pair>)
    ensures JoinsSome(e, a + b) <==> JoinsSome(e, a) || JoinsSome(e, b)
    decreases |b|
  {
    if b == [] {
      assert a + b == a;
    } else {
      var front := b[..|b| - 1];
      assert (a + b)[..|a + b| - 1] == a + front;
      JoinsSomeAppend(e, a, front);
    }
  }

  /**
   The filter as evidently intended: every listed pair is scanned, whether its
   edge runs forward, backward or both ways. The result is `InferenceGraph`.
   */
  method SplitCheckBothWays(g: Graph, valid: seq<Pair>, test: seq<Pair>, validAsInput: bool := false) returns (r: Result<Graph>)
    ensures r.Err? <==> !(NodesInRange(valid, g.numNodes) && NodesInRange(test, g.numNodes))
    ensures r.Err? ==> r.error == InvalidNodeId
    ensures r.Ok? ==> r.value == InferenceGraph(g, valid, test, validAsInput)
  {
    if !NodesInRange(valid, g.numNodes) || !NodesInRange(test, g.numNodes) {
      return Err(InvalidNodeId);
    }
    var inferenceG := g;
    var edgesToRemove: seq<seq<nat>> := [];
    if !validAsInput {
      edgesToRemove := CollectJoiningIds(g, valid, edgesToRemove);
    }
    edgesToRemove := CollectJoiningIds(g, test, edgesToRemove);
    var flat := Flatten(edgesToRemove);
    forall i | 0 <= i < |g.edges| {
      JoinsSomeAppend(g.edges[i], if validAsInput then [] else valid, test);
    }
    RemoveEdgesByMembership(g, flat, JoiningIds(g, ScannedPairs(valid, test, validAsInput), |g.edges|));
    inferenceG := RemoveEdges(inferenceG, flat);
    return Ok(inferenceG);
  }

  /** An edge value survives the intended filter exactly when it is in `g` and joins no scanned pair. */
  lemma InferenceGraphEdges(g: Graph, valid: seq<Pair>, test: seq<Pair>, validAsInput: bool, e: Edge)
    ensures InferenceGraph(g, valid, test, validAsInput).numNodes == g.numNodes
    ensures e in InferenceGraph(g, valid, test, validAsInput).edges <==>
      e in g.edges && !JoinsSome(e, ScannedPairs(valid, test, validAsInput))
  {
    var ids := JoiningIds(g, ScannedPairs(valid, test, validAsInput), |g.edges|);
    RemoveEdgesMembership(g, ids, e);
  }

  /** A pair listed in `pairs` is joined by both of its directions. */
  lemma ListedPairJoined(pairs: seq<Pair>, k: nat)
    requires k < |pairs|
    ensures JoinsSome(Edge(pairs[k].s, pairs[k].t), pairs) && JoinsSome(Edge(pairs[k].t, pairs[k].s), pairs)
  {
    JoinsSomeExists(Edge(pairs[k].s, pairs[k].t), pairs);
    JoinsSomeExists(Edge(pairs[k].t, pairs[k].s), pairs);
  }

  /**
   No test pair keeps an edge in either direction, parallel edges included,
   and neither does a validation pair unless validation edges serve as input.
   */
  lemma ListedPairsCut(g: Graph, valid: seq<Pair>, test: seq<Pair>, validAsInput: bool)
    ensures forall k :: 0 <= k < |test| ==>
      var h := InferenceGraph(g, valid, test, validAsInput);
      !HasEdge(h, test[k].s, test[k].t) && !HasEdge(h, test[k].t, test[k].s)
    ensures !validAsInput ==> forall k :: 0 <= k < |valid| ==>
      var h := InferenceGraph(g, valid, test, validAsInput);
      !HasEdge(h, valid[k].s, valid[k].t) && !HasEdge(h, valid[k].t, valid[k].s)
  {
    forall k | 0 <= k < |test|
      ensures var h := InferenceGraph(g, valid, test, validAsInput);
        !HasEdge(h, test[k].s, test[k].t) && !HasEdge(h, test[k].t, test[k].s)
    {
      var fwd, bwd := Edge(test[k].s, test[k].t), Edge(test[k].t, test[k].s);
      ListedPairJoined(test, k);
      JoinsSomeAppend(fwd, if validAsInput then [] else valid, test);
      JoinsSomeAppend(bwd, if validAsInput then [] else valid, test);
      InferenceGraphEdges(g, valid, test, validAsInput, fwd);
      InferenceGraphEdges(g, valid, test, validAsInput, bwd);
    }
    if !validAsInput {
      forall k | 0 <= k < |valid|
        ensures var h := InferenceGraph(g, valid, test, validAsInput);
          !HasEdge(h, valid[k].s, valid[k].t) && !HasEdge(h, valid[k].t, valid[k].s)
      {
        var fwd, bwd := Edge(valid[k].s, valid[k].t), Edge(valid[k].t, valid[k].s);
        ListedPairJoined(valid, k);
        JoinsSomeAppend(fwd, valid, test);
        JoinsSomeAppend(bwd, valid, test);
        InferenceGraphEdges(g, valid, test, validAsInput, fwd);
        InferenceGraphEdges(g, valid, test, validAsInput, bwd);
      }
    }
  }

  /**
   Only edges joining a scanned pair are removed: with validation edges kept as
   input, an edge of `g` that joins no test pair survives, validation edge or not.
   */
  lemma UnlistedEdgesKept(g: Graph, valid: seq<Pair>, test: seq<Pair>, e: Edge)
    requires e in g.edges && !JoinsSome(e, test)
    ensures e in InferenceGraph(g, valid, test, true).edges
  {
    JoinsSomeAppend(e, [], test);
    InferenceGraphEdges(g, valid, test, true, e);
  }

  /** Scanning two pair lists that no edge of `g` tells apart removes the same edges. */
  lemma RemovalByJoined(g: Graph, x: seq<Pair>, y: seq<Pair>)
    requires forall i :: 0 <= i < |g.edges| ==> (JoinsSome(g.edges[i], x) <==> JoinsSome(g.edges[i], y))
    ensures RemoveEdges(g, JoiningIds(g, x, |g.edges|)) == RemoveEdges(g, JoiningIds(g, y, |g.edges|))
  {
    RemoveEdgesByMembership(g, JoiningIds(g, x, |g.edges|), JoiningIds(g, y, |g.edges|));
  }

  /** Inserting a pair that no edge of `g` joins into a pair list changes no edge's joined status. */
  lemma EdgelessInsert(g: Graph, a: seq<Pair>, b: seq<Pair>, p: Pair, i: nat)
    requires !HasEdge(g, p.s, p.t) && !HasEdge(g, p.t, p.s) && i < |g.edges|
    ensures JoinsSome(g.edges[i], a + [p] + b) <==> JoinsSome(g.edges[i], a + b)
  {
    JoinsSomeAppend(g.edges[i], a + [p], b);
    JoinsSomeAppend(g.edges[i], a, [p]);
    JoinsSomeAppend(g.edges[i], a, b);
    assert [p][..0] == [];
    assert !Joins(g.edges[i], p) by {
      assert g.edges[i] in g.edges;
    }
  }

  /**
   A listed pair that no edge of `g` joins, in either direction, changes
   nothing, in either split and for both the intended filter and the filter
   as written.
   */
  lemma EdgelessPairHarmless(g: Graph, valid: seq<Pair>, test: seq<Pair>, validAsInput: bool, p: Pair)
    requires !HasEdge(g, p.s, p.t) && !HasEdge(g, p.t, p.s)
    ensures InferenceGraph(g, valid, test + [p], validAsInput) == InferenceGraph(g, valid, test, validAsInput)
    ensures InferenceGraph(g, valid + [p], test, validAsInput) == InferenceGraph(g, valid, test, validAsInput)
    ensures InferenceGraphAsWritten(g, valid, test + [p], validAsInput) == InferenceGraphAsWritten(g, valid, test, validAsInput)
    ensures InferenceGraphAsWritten(g, valid + [p], test, validAsInput) == InferenceGraphAsWritten(g, valid, test, validAsInput)
  {
    var base := if validAsInput then [] else valid;
    assert ScannedPairs(valid, test + [p], validAsInput) == base + test + [p] + [];
    assert ScannedPairs(valid, test, validAsInput) == base + test + [];
    forall i | 0 <= i < |g.edges|
      ensures JoinsSome(g.edges[i], ScannedPairs(valid, test + [p], validAsInput))
          <==> JoinsSome(g.edges[i], ScannedPairs(valid, test, validAsInput))
    {
      EdgelessInsert(g, base + test, [], p, i);
    }
    RemovalByJoined(g, ScannedPairs(valid, test + [p], validAsInput), ScannedPairs(valid, test, validAsInput));
    if !validAsInput {
      assert ScannedPairs(valid + [p], test, validAsInput) == valid + [p] + test;
      forall i | 0 <= i < |g.edges|
        ensures JoinsSome(g.edges[i], ScannedPairs(valid + [p], test, validAsInput))
            <==> JoinsSome(g.edges[i], ScannedPairs(valid, test, validAsInput))
      {
        EdgelessInsert(g, valid, test, p, i);
      }
      RemovalByJoined(g, ScannedPairs(valid + [p], test, validAsInput), ScannedPairs(valid, test, validAsInput));
    }
    // as written, the pair is masked out of its split before any scan
    assert WithForwardEdge(g, [p]) == [];
    ForwardEdgeAppend(g, test, [p]);
    ForwardEdgeAppend(g, valid, [p]);
    assert WithForwardEdge(g, test + [p]) == WithForwardEdge(g, test);
    assert WithForwardEdge(g, valid + [p]) == WithForwardEdge(g, valid);
  }

  /** An edge value survives the filter as written exactly when it is in `g` and joins no masked scanned pair. */
  lemma AsWrittenEdges(g: Graph, valid: seq<Pair>, test: seq<Pair>, validAsInput: bool, e: Edge)
    ensures InferenceGraphAsWritten(g, valid, test, validAsInput).numNodes == g.numNodes
    ensures e in InferenceGraphAsWritten(g, valid, test, validAsInput).edges <==>
      e in g.edges && !JoinsSome(e, MaskedScannedPairs(g, valid, test, validAsInput))
  {
    RemoveEdgesMembership(g, JoiningIds(g, MaskedScannedPairs(g, valid, test, validAsInput), |g.edges|), e);
  }

  /** An edge joining a masked pair joins a listed pair. */
  lemma MaskedJoinsListed(g: Graph, pairs: seq<Pair>, e: Edge)
    ensures JoinsSome(e, WithForwardEdge(g, pairs)) ==> JoinsSome(e, pairs)
  {
    var masked := WithForwardEdge(g, pairs);
    JoinsSomeExists(e, masked);
    JoinsSomeExists(e, pairs);
    if JoinsSome(e, masked) {
      var j :| 0 <= j < |masked| && Joins(e, masked[j]);
      assert masked[j] in masked;
      var k :| 0 <= k < |pairs| && pairs[k] == masked[j];
    }
  }

  /** The filter as written removes no edge the intended filter keeps: its graph has every edge of the intended one. */
  lemma AsWrittenRemovesNoMore(g: Graph, valid: seq<Pair>, test: seq<Pair>, validAsInput: bool, e: Edge)
    ensures e in InferenceGraph(g, valid, test, validAsInput).edges ==>
      e in InferenceGraphAsWritten(g, valid, test, validAsInput).edges
  {
    var base := if validAsInput then [] else valid;
    var maskedBase := if validAsInput then [] else WithForwardEdge(g, valid);
    InferenceGraphEdges(g, valid, test, validAsInput, e);
    AsWrittenEdges(g, valid, test, validAsInput, e);
    JoinsSomeAppend(e, maskedBase, WithForwardEdge(g, test));
    JoinsSomeAppend(e, base, test);
    MaskedJoinsListed(g, valid, e);
    MaskedJoinsListed(g, test, e);
  }

  /**
   With validation edges kept as input, the filter as written also keeps every
   edge of `g` that joins no test pair, validation edge or not.
   */
  lemma AsWrittenUnlistedKept(g: Graph, valid: seq<Pair>, test: seq<Pair>, e: Edge)
    requires e in g.edges && !JoinsSome(e, test)
    ensures e in InferenceGraphAsWritten(g, valid, test, true).edges
  {
    UnlistedEdgesKept(g, valid, test, e);
    AsWrittenRemovesNoMore(g, valid, test, true, e);
  }

  /** As written, a scanned listed pair loses its forward edge, and its backward edge too when the forward edge existed. */
  lemma AsWrittenPairCut(g: Graph, valid: seq<Pair>, test: seq<Pair>, validAsInput: bool, p: Pair)
    requires p in test || (!validAsInput && p in valid)
    ensures !HasEdge(InferenceGraphAsWritten(g, valid, test, validAsInput), p.s, p.t)
    ensures HasEdge(g, p.s, p.t) ==> !HasEdge(InferenceGraphAsWritten(g, valid, test, validAsInput), p.t, p.s)
  {
    var maskedBase := if validAsInput then [] else WithForwardEdge(g, valid);
    var scanned := MaskedScannedPairs(g, valid, test, validAsInput);
    var fwd, bwd := Edge(p.s, p.t), Edge(p.t, p.s);
    AsWrittenEdges(g, valid, test, validAsInput, fwd);
    AsWrittenEdges(g, valid, test, validAsInput, bwd);
    if HasEdge(g, p.s, p.t) {
      assert p in scanned by {
        if p in test {
          assert p in WithForwardEdge(g, test);
        } else {
          assert p in WithForwardEdge(g, valid);
        }
      }
      var j :| 0 <= j < |scanned| && scanned[j] == p;
      ListedPairJoined(scanned, j);
    }
  }

  /**
   What the filter as written does guarantee: no scanned pair (every test
   pair, and every validation pair unless validation edges serve as input)
   keeps its forward edge, and a pair whose forward edge existed keeps no
   backward edge either.
   */
  lemma AsWrittenForwardCut(g: Graph, valid: seq<Pair>, test: seq<Pair>, validAsInput: bool)
    ensures forall k :: 0 <= k < |test| ==>
      var h := InferenceGraphAsWritten(g, valid, test, validAsInput);
      && !HasEdge(h, test[k].s, test[k].t)
      && (HasEdge(g, test[k].s, test[k].t) ==> !HasEdge(h, test[k].t, test[k].s))
    ensures !validAsInput ==> forall k :: 0 <= k < |valid| ==>
      var h := InferenceGraphAsWritten(g, valid, test, validAsInput);
      && !HasEdge(h, valid[k].s, valid[k].t)
      && (HasEdge(g, valid[k].s, valid[k].t) ==> !HasEdge(h, valid[k].t, valid[k].s))
  {
    forall k | 0 <= k < |test|
      ensures var h := InferenceGraphAsWritten(g, valid, test, validAsInput);
        && !HasEdge(h, test[k].s, test[k].t)
        && (HasEdge(g, test[k].s, test[k].t) ==> !HasEdge(h, test[k].t, test[k].s))
    {
      AsWrittenPairCut(g, valid, test, validAsInput, test[k]);
    }
    if !validAsInput {
      forall k | 0 <= k < |valid|
        ensures var h := InferenceGraphAsWritten(g, valid, test, validAsInput);
          && !HasEdge(h, valid[k].s, valid[k].t)
          && (HasEdge(g, valid[k].s, valid[k].t) ==> !HasEdge(h, valid[k].t, valid[k].s))
      {
        AsWrittenPairCut(g, valid, test, validAsInput, valid[k]);
      }
    }
  }

  /**
   The discrepancy: a test pair (0, 1) whose only edge runs 1→0 is skipped by
   the forward-edge mask, so the filter as written keeps that edge, while the
   intended filter removes it.
   */
  lemma AsWrittenKeepsBackwardOnlyEdge()
    ensures HasEdge(InferenceGraphAsWritten(Graph(2, [Edge(1, 0)]), [], [Pair(0, 1)], false), 1, 0)
    ensures !HasEdge(InferenceGraph(Graph(2, [Edge(1, 0)]), [], [Pair(0, 1)], false), 1, 0)
  {
    var g := Graph(2, [Edge(1, 0)]);
    assert !HasEdge(g, 0, 1);
    assert WithForwardEdge(g, [Pair(0, 1)]) == [];
    RemoveEdgesMembership(g, JoiningIds(g, [], 1), Edge(1, 0));
    ListedPairsCut(g, [], [Pair(0, 1)], false);
  }

  /**
   The backward-only edge 1→0 does go, as written, when the reversed pair
   (1, 0) is listed too: that pair's forward edge is 1→0.
   */
  lemma AsWrittenCutViaReversedPair()
    ensures !HasEdge(InferenceGraphAsWritten(Graph(2, [Edge(1, 0)]), [], [Pair(0, 1), Pair(1, 0)], false), 1, 0)
  {
    var test := [Pair(0, 1), Pair(1, 0)];
    assert Pair(1, 0) in test;
    AsWrittenPairCut(Graph(2, [Edge(1, 0)]), [], test, false, Pair(1, 0));
  }

  /** Every edge's reverse is also an edge, as when an undirected graph stores both directions. */
  predicate Symmetric(g: Graph)
  {
    forall i :: 0 <= i < |g.edges| ==> Edge(g.edges[i].dst, g.edges[i].src) in g.edges
  }

  /** Masking the pairs by their forward edge loses no joined edge of a symmetric graph. */
  lemma ForwardMaskHarmlessWhenSymmetric(g: Graph, pairs: seq<Pair>, i: nat)
    requires Symmetric(g) && i < |g.edges|
    ensures JoinsSome(g.edges[i], WithForwardEdge(g, pairs)) <==> JoinsSome(g.edges[i], pairs)
  {
    var e := g.edges[i];
    var masked := WithForwardEdge(g, pairs);
    JoinsSomeExists(e, pairs);
    JoinsSomeExists(e, masked);
    if JoinsSome(e, pairs) {
      var k :| 0 <= k < |pairs| && Joins(e, pairs[k]);
      var p := pairs[k];
      assert p in pairs;
      assert g.edges[i] in g.edges;
      assert HasEdge(g, p.s, p.t);
      assert p in masked;
      var j :| 0 <= j < |masked| && masked[j] == p;
    }
    MaskedJoinsListed(g, pairs, e);
  }

  /** On a symmetric graph the filter as written and the intended filter agree. */
  lemma AsWrittenAgreesWhenSymmetric(g: Graph, valid: seq<Pair>, test: seq<Pair>, validAsInput: bool)
    requires Symmetric(g)
    ensures InferenceGraphAsWritten(g, valid, test, validAsInput) == InferenceGraph(g, valid, test, validAsInput)
  {
    var base := if validAsInput then [] else valid;
    var maskedBase := if validAsInput then [] else WithForwardEdge(g, valid);
    var masked := maskedBase + WithForwardEdge(g, test);
    forall i | 0 <= i < |g.edges|
      ensures JoinsSome(g.edges[i], masked) <==> JoinsSome(g.edges[i], ScannedPairs(valid, test, validAsInput))
    {
      JoinsSomeAppend(g.edges[i], maskedBase, WithForwardEdge(g, test));
      JoinsSomeAppend(g.edges[i], base, test);
      ForwardMaskHarmlessWhenSymmetric(g, valid, i);
      ForwardMaskHarmlessWhenSymmetric(g, test, i);
    }
    RemovalByJoined(g, masked, ScannedPairs(valid, test, validAsInput));
  }
}
