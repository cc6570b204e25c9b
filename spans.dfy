/**
 * `split(nodes, curve, result)` (web/app/brep/operations/boolean.js): the
 * filtered and sorted crossing nodes are walked pairwise; a pair (in, out)
 * becomes a new edge when it enters and leaves material and has length, and
 * every crossed boundary edge is then split at its node's vertex.
 */
module Spans {
  import opened Wrappers
  import opened Geometry
  import opened Topology
  import opened Nodes
  import opened SplitEdge
  import opened ListMaps

  /** The pair at `k` is passed over by the sign test: it leaves at `k` or enters at `k+1`. */
  predicate Blocked(nodes: seq<Node>, k: nat)
    requires k + 1 < |nodes|
  {
    nodes[k].normal == -1 || nodes[k + 1].normal == 1
  }

  /** The pair at `k` passes the sign test but has no length; the walk then jumps over the next pair. */
  predicate ZeroLength(ueq: (real, real) -> bool, nodes: seq<Node>, k: nat)
  {
    k + 1 < |nodes| && !Blocked(nodes, k) && ueq(nodes[k].u, nodes[k + 1].u)
  }

  /** The pair at `k` becomes an edge when the walk looks at it. */
  predicate Emits(ueq: (real, real) -> bool, nodes: seq<Node>, k: nat)
  {
    k + 1 < |nodes| && !Blocked(nodes, k) && !ueq(nodes[k].u, nodes[k + 1].u)
  }

  /** The first indices of the pairs the walk emits, starting at index `i`. */
  function StartsFrom(ueq: (real, real) -> bool, nodes: seq<Node>, i: nat): seq<nat>
    decreases |nodes| - i
  {
    if i + 1 >= |nodes| then []
    else if Blocked(nodes, i) then StartsFrom(ueq, nodes, i + 1)
    else if ueq(nodes[i].u, nodes[i + 1].u) then StartsFrom(ueq, nodes, i + 2)
    else [i] + StartsFrom(ueq, nodes, i + 1)
  }

  /** The walk from `i` emits pairs at `i` or later, in increasing order, each passing both tests. */
  lemma {:induction false} StartsFromSound(ueq: (real, real) -> bool, nodes: seq<Node>, i: nat)
    decreases |nodes| - i
    ensures forall p | 0 <= p < |StartsFrom(ueq, nodes, i)| ::
      i <= StartsFrom(ueq, nodes, i)[p] && Emits(ueq, nodes, StartsFrom(ueq, nodes, i)[p])
    ensures forall p, q | 0 <= p < q < |StartsFrom(ueq, nodes, i)| ::
      StartsFrom(ueq, nodes, i)[p] < StartsFrom(ueq, nodes, i)[q]
  {
    if i + 1 < |nodes| {
      var next := if Blocked(nodes, i) || !ueq(nodes[i].u, nodes[i + 1].u) then i + 1 else i + 2;
      StartsFromSound(ueq, nodes, next);
      var rest := StartsFrom(ueq, nodes, next);
      assert forall p | 0 <= p < |rest| :: i < rest[p] && Emits(ueq, nodes, rest[p]);
      if !Blocked(nodes, i) && !ueq(nodes[i].u, nodes[i + 1].u) {
        var r := [i] + rest;
        assert forall p | 1 <= p < |r| :: r[p] == rest[p - 1];
      }
    }
  }

  /** The pairs the walk of `split` emits. */
  function SpanStarts(ueq: (real, real) -> bool, nodes: seq<Node>): seq<nat>
  {
    StartsFrom(ueq, nodes, 0)
  }

  /** The walk looks at the pair at `k` (it is not jumped over by `i++`). */
  ghost predicate Visited(ueq: (real, real) -> bool, nodes: seq<Node>, k: nat)
    decreases k
  {
    || k == 0
    || (k >= 1 && Visited(ueq, nodes, k - 1) && !ZeroLength(ueq, nodes, k - 1))
    || (k >= 2 && Visited(ueq, nodes, k - 2) && ZeroLength(ueq, nodes, k - 2))
  }

  /** A zero-length pair makes the walk skip the pair that follows it. */
  lemma {:induction false} ZeroLengthSkipsNext(ueq: (real, real) -> bool, nodes: seq<Node>, k: nat)
    requires Visited(ueq, nodes, k) && ZeroLength(ueq, nodes, k)
    ensures !Visited(ueq, nodes, k + 1)
  {
    if k >= 1 && Visited(ueq, nodes, k - 1) && ZeroLength(ueq, nodes, k - 1) {
      ZeroLengthSkipsNext(ueq, nodes, k - 1);
    }
  }

  /** From a visited index on, the walk emits exactly the visited pairs that pass both tests. */
  lemma {:induction false} StartsFromExact(ueq: (real, real) -> bool, nodes: seq<Node>, i: nat, k: nat)
    requires Visited(ueq, nodes, i) && i <= k
    ensures k in StartsFrom(ueq, nodes, i) <==> Visited(ueq, nodes, k) && Emits(ueq, nodes, k)
    decreases |nodes| - i
  {
    StartsFromSound(ueq, nodes, i + 1);
    StartsFromSound(ueq, nodes, i + 2);
    if i + 1 >= |nodes| {
    } else if Blocked(nodes, i) {
      assert Visited(ueq, nodes, i + 1);
      if k > i { StartsFromExact(ueq, nodes, i + 1, k); }
    } else if ueq(nodes[i].u, nodes[i + 1].u) {
      assert ZeroLength(ueq, nodes, i);
      assert Visited(ueq, nodes, i + 2);
      if k == i + 1 {
        ZeroLengthSkipsNext(ueq, nodes, i);
      } else if k > i + 1 {
        StartsFromExact(ueq, nodes, i + 2, k);
      }
    } else {
      assert !ZeroLength(ueq, nodes, i);
      assert Visited(ueq, nodes, i + 1);
      if k > i { StartsFromExact(ueq, nodes, i + 1, k); }
    }
  }

  /**
   * `split` emits the pair at `k` exactly when the walk looks at it, the
   * in-node does not leave material, the out-node does not enter it, and
   * their parameters differ.
   */
  lemma SpanStartsExact(ueq: (real, real) -> bool, nodes: seq<Node>, k: nat)
    ensures k in SpanStarts(ueq, nodes) <==> Visited(ueq, nodes, k) && Emits(ueq, nodes, k)
  {
    StartsFromExact(ueq, nodes, 0, k);
  }

  /** The pair after a zero-length pair the walk looked at is never emitted. */
  lemma ZeroLengthPairSkipsNext(ueq: (real, real) -> bool, nodes: seq<Node>, k: nat)
    requires Visited(ueq, nodes, k) && ZeroLength(ueq, nodes, k)
    ensures k + 1 !in SpanStarts(ueq, nodes)
  {
    ZeroLengthSkipsNext(ueq, nodes, k);
    SpanStartsExact(ueq, nodes, k + 1);
  }

  /**
   * With every sign +1 or -1, an emitted span runs from an entering (+1)
   * node to a leaving (-1) node, and two spans never share a node.
   */
  lemma SpansEnterThenLeave(ueq: (real, real) -> bool, nodes: seq<Node>)
    requires forall k | 0 <= k < |nodes| :: nodes[k].normal == 1 || nodes[k].normal == -1
    ensures forall p | 0 <= p < |SpanStarts(ueq, nodes)| ::
      && SpanStarts(ueq, nodes)[p] + 1 < |nodes|
      && nodes[SpanStarts(ueq, nodes)[p]].normal == 1
      && nodes[SpanStarts(ueq, nodes)[p] + 1].normal == -1
    ensures forall p, q | 0 <= p < q < |SpanStarts(ueq, nodes)| :: SpanStarts(ueq, nodes)[p] + 1 < SpanStarts(ueq, nodes)[q]
  {
    var r := StartsFrom(ueq, nodes, 0);
    StartsFromSound(ueq, nodes, 0);
    assert forall p | 0 <= p < |r| :: Emits(ueq, nodes, r[p]);
    forall p, q | 0 <= p < q < |r| ensures r[p] + 1 < r[q] {
      assert Emits(ueq, nodes, r[p]) && Emits(ueq, nodes, r[q]);
    }
  }

  /** The curve of the edge for span (in, out): the given curve trimmed at the ends that are not its own ends. */
  function SpanCurve(ueq: (real, real) -> bool, splitCurve: (CurveId, Point) -> (CurveId, CurveId),
                     curve: CurveId, inNode: Node, outNode: Node): CurveId
  {
    var c := if !ueq(inNode.u, 0.0) then splitCurve(curve, inNode.vertex.point).1 else curve;
    if !ueq(outNode.u, 1.0) then splitCurve(c, outNode.vertex.point).0 else c
  }

  /** Half-edge `h` lies on a boundary edge both of whose half-edges sit in loops, so it can be split. */
  ghost predicate Splittable(hs: seq<HalfEdge>, es: seq<Edge>, h: HalfEdgeId)
  {
    && h < |hs| && hs[h].edge < |es|
    && es[hs[h].edge].halfEdge1 < |hs| && hs[es[hs[h].edge].halfEdge1].loop.Some?
    && es[hs[h].edge].halfEdge2 < |hs| && hs[es[hs[h].edge].halfEdge2].loop.Some?
  }

  /** The span edges `split` creates, stated on the arena's sequences. */
  ghost predicate HasSpanEdges(ueq: (real, real) -> bool, splitCurve: (CurveId, Point) -> (CurveId, CurveId),
                               curve: CurveId, nodes: seq<Node>, starts: seq<nat>,
                               hs: seq<HalfEdge>, es: seq<Edge>, nH: nat, nE: nat, result: seq<EdgeId>)
  {
    && |result| == |starts| && nE + |result| <= |es| && nH + 2 * |result| <= |hs|
    && forall k | 0 <= k < |result| ::
      && starts[k] + 1 < |nodes|
      && result[k] == nE + k
      && es[nE + k] == Edge(SpanCurve(ueq, splitCurve, curve, nodes[starts[k]], nodes[starts[k] + 1]),
                            nH + 2 * k, nH + 2 * k + 1)
      && hs[nH + 2 * k] == HalfEdge(nE + k, nodes[starts[k]].vertex, nodes[starts[k] + 1].vertex, None, None, None, None)
      && hs[nH + 2 * k + 1] == HalfEdge(nE + k, nodes[starts[k] + 1].vertex, nodes[starts[k]].vertex, None, None, None, None)
  }

  /** Longer arenas that keep the first `|hs|` half-edges and `|es|` edges keep the span edges. */
  lemma HasSpanEdgesPrefix(ueq: (real, real) -> bool, splitCurve: (CurveId, Point) -> (CurveId, CurveId),
                           curve: CurveId, nodes: seq<Node>, starts: seq<nat>,
                           hs: seq<HalfEdge>, es: seq<Edge>, hs': seq<HalfEdge>, es': seq<Edge>,
                           nH: nat, nE: nat, result: seq<EdgeId>)
    requires HasSpanEdges(ueq, splitCurve, curve, nodes, starts, hs, es, nH, nE, result)
    requires hs <= hs' && es <= es'
    ensures HasSpanEdges(ueq, splitCurve, curve, nodes, starts, hs', es', nH, nE, result)
  {
    forall k | 0 <= k < |result| ensures hs'[nH + 2 * k] == hs[nH + 2 * k] && hs'[nH + 2 * k + 1] == hs[nH + 2 * k + 1]
      && es'[nE + k] == es[nE + k]
    {
    }
  }

  /** Appending the edge of one more span keeps the span edges in step. */
  lemma HasSpanEdgesExtend(ueq: (real, real) -> bool, splitCurve: (CurveId, Point) -> (CurveId, CurveId),
                           curve: CurveId, nodes: seq<Node>, starts: seq<nat>,
                           hs: seq<HalfEdge>, es: seq<Edge>, nH: nat, nE: nat, result: seq<EdgeId>, i: nat)
    requires HasSpanEdges(ueq, splitCurve, curve, nodes, starts, hs, es, nH, nE, result)
    requires |hs| == nH + 2 * |result| && |es| == nE + |result| && i + 1 < |nodes|
    ensures var e := |es|;
      HasSpanEdges(ueq, splitCurve, curve, nodes, starts + [i],
                   hs + [HalfEdge(e, nodes[i].vertex, nodes[i + 1].vertex, None, None, None, None),
                         HalfEdge(e, nodes[i + 1].vertex, nodes[i].vertex, None, None, None, None)],
                   es + [Edge(SpanCurve(ueq, splitCurve, curve, nodes[i], nodes[i + 1]), |hs|, |hs| + 1)],
                   nH, nE, result + [e])
  {
  }

  /** Longer arenas that keep the first `|hs|` half-edges and `|es|` edges keep every splittable half-edge. */
  lemma SplittablePrefix(hs: seq<HalfEdge>, es: seq<Edge>, hs': seq<HalfEdge>, es': seq<Edge>, h: HalfEdgeId)
    requires Splittable(hs, es, h)
    requires hs <= hs' && es <= es'
    ensures Splittable(hs', es', h)
  {
    var ed := hs[h].edge;
    assert hs'[h] == hs[h] && es'[ed] == es[ed];
    assert hs'[es[ed].halfEdge1] == hs[es[ed].halfEdge1] && hs'[es[ed].halfEdge2] == hs[es[ed].halfEdge2];
  }

  /** `new Edge(edgeCurve, inNode.vertex, outNode.vertex)` for the span at `i`, with its curve trimmed. */
  method NewSpanEdge(t: Topology, ueq: (real, real) -> bool, sorted: seq<Node>, i: nat, curve: CurveId,
                     splitCurve: (CurveId, Point) -> (CurveId, CurveId),
                     ghost starts: seq<nat>, result: seq<EdgeId>, ghost nH: nat, ghost nE: nat)
    returns (e: EdgeId)
    requires t.Valid() && i + 1 < |sorted|
    requires HasSpanEdges(ueq, splitCurve, curve, sorted, starts, t.halfEdges, t.edges, nH, nE, result)
    requires |t.halfEdges| == nH + 2 * |result| && |t.edges| == nE + |result|
    modifies t
    ensures t.Valid()
    ensures HasSpanEdges(ueq, splitCurve, curve, sorted, starts + [i], t.halfEdges, t.edges, nH, nE, result + [e])
    ensures |t.halfEdges| == |old(t.halfEdges)| + 2 && old(t.halfEdges) <= t.halfEdges
    ensures |t.edges| == |old(t.edges)| + 1 && old(t.edges) <= t.edges
    ensures t.loops == old(t.loops) && t.faces == old(t.faces) && t.solveData == old(t.solveData)
  {
    var inNode, outNode := sorted[i], sorted[i + 1];
    var edgeCurve := curve;
    if !ueq(inNode.u, 0.0) {
      edgeCurve := splitCurve(edgeCurve, inNode.vertex.point).1;
    }
    if !ueq(outNode.u, 1.0) {
      edgeCurve := splitCurve(edgeCurve, outNode.vertex.point).0;
    }
    HasSpanEdgesExtend(ueq, splitCurve, curve, sorted, starts, t.halfEdges, t.edges, nH, nE, result, i);
    e := t.NewEdge(edgeCurve, inNode.vertex, outNode.vertex);
  }

  /** Sorting the non-null entries of an array of splittable nodes gives splittable nodes. */
  lemma SortedSplittable(ueq: (real, real) -> bool, s: seq<Option<Node>>, hs: seq<HalfEdge>, es: seq<Edge>)
    requires forall k | 0 <= k < |s| && s[k].Some? :: Splittable(hs, es, s[k].value.edge)
    ensures forall k | 0 <= k < |SortNodes(ueq, Alive(s))| :: Splittable(hs, es, SortNodes(ueq, Alive(s))[k].edge)
  {
    var r := SortNodes(ueq, Alive(s));
    forall k | 0 <= k < |r| ensures Splittable(hs, es, r[k].edge) {
      assert r[k] in multiset(Alive(s));
      assert Some(r[k]) in s;
    }
  }

  /** Longer arenas keep all of a list of splittable nodes splittable. */
  lemma AllSplittablePrefix(nodes: seq<Node>, hs: seq<HalfEdge>, es: seq<Edge>, hs': seq<HalfEdge>, es': seq<Edge>)
    requires forall k | 0 <= k < |nodes| :: Splittable(hs, es, nodes[k].edge)
    requires hs <= hs' && es <= es'
    ensures forall k | 0 <= k < |nodes| :: Splittable(hs', es', nodes[k].edge)
  {
    forall k | 0 <= k < |nodes| ensures Splittable(hs', es', nodes[k].edge) {
      SplittablePrefix(hs, es, hs', es', nodes[k].edge);
    }
  }

  /** The first loop of `split`: one new edge per emitted span, in walk order. */
  method EmitSpans(t: Topology, ueq: (real, real) -> bool, sorted: seq<Node>, curve: CurveId,
                   splitCurve: (CurveId, Point) -> (CurveId, CurveId))
    returns (result: seq<EdgeId>)
    requires t.Valid()
    modifies t
    ensures t.Valid()
    ensures HasSpanEdges(ueq, splitCurve, curve, sorted, SpanStarts(ueq, sorted),
                         t.halfEdges, t.edges, |old(t.halfEdges)|, |old(t.edges)|, result)
    ensures |t.halfEdges| == |old(t.halfEdges)| + 2 * |result| && old(t.halfEdges) <= t.halfEdges
    ensures |t.edges| == |old(t.edges)| + |result| && old(t.edges) <= t.edges
    ensures t.loops == old(t.loops) && t.faces == old(t.faces) && t.solveData == old(t.solveData)
  {
    ghost var h0, e0 := t.halfEdges, t.edges;
    ghost var starts: seq<nat> := [];
    result := [];
    var i := 0;
    while i < |sorted| - 1
      invariant 0 <= i <= |sorted| || (i == 0 && |sorted| == 0)
      invariant t.Valid()
      invariant Emitting(ueq, splitCurve, curve, sorted, starts, i, t.halfEdges, t.edges, h0, e0, result)
      invariant t.loops == old(t.loops) && t.faces == old(t.faces) && t.solveData == old(t.solveData)
    {
      var inNode, outNode := sorted[i], sorted[i + 1];
      if inNode.normal == -1 || outNode.normal == 1 {
        assert StartsFrom(ueq, sorted, i) == StartsFrom(ueq, sorted, i + 1);
        i := i + 1;
        continue;
      }
      if ueq(inNode.u, outNode.u) {
        assert StartsFrom(ueq, sorted, i) == StartsFrom(ueq, sorted, i + 2);
        i := i + 2;
        continue;
      }
      starts, result := EmitStep(t, ueq, sorted, i, curve, splitCurve, h0, e0, starts, result);
      i := i + 1;
    }
    assert starts == SpanStarts(ueq, sorted);
  }

  /**
   * The state of the first loop of `split` before node `i`: `starts` are the
   * span starts met so far, the rest of them are still ahead, and `result`
   * holds their edges, appended after the arena's first `h0`/`e0` entries.
   */
  ghost predicate Emitting(ueq: (real, real) -> bool, splitCurve: (CurveId, Point) -> (CurveId, CurveId), curve: CurveId,
                           sorted: seq<Node>, starts: seq<nat>, i: nat, hs: seq<HalfEdge>, es: seq<Edge>,
                           h0: seq<HalfEdge>, e0: seq<Edge>, result: seq<EdgeId>)
  {
    && starts + StartsFrom(ueq, sorted, i) == SpanStarts(ueq, sorted)
    && HasSpanEdges(ueq, splitCurve, curve, sorted, starts, hs, es, |h0|, |e0|, result)
    && |hs| == |h0| + 2 * |result| && h0 <= hs
    && |es| == |e0| + |result| && e0 <= es
  }

  /** The emitting pass of the first loop: node `i` starts a span, which gets its edge. */
  method EmitStep(t: Topology, ueq: (real, real) -> bool, sorted: seq<Node>, i: nat, curve: CurveId,
                  splitCurve: (CurveId, Point) -> (CurveId, CurveId), ghost h0: seq<HalfEdge>, ghost e0: seq<Edge>,
                  ghost starts: seq<nat>, result: seq<EdgeId>)
    returns (ghost starts': seq<nat>, result': seq<EdgeId>)
    requires t.Valid() && i + 1 < |sorted|
    requires !(sorted[i].normal == -1 || sorted[i + 1].normal == 1) && !ueq(sorted[i].u, sorted[i + 1].u)
    requires Emitting(ueq, splitCurve, curve, sorted, starts, i, t.halfEdges, t.edges, h0, e0, result)
    modifies t
    ensures t.Valid()
    ensures Emitting(ueq, splitCurve, curve, sorted, starts', i + 1, t.halfEdges, t.edges, h0, e0, result')
    ensures t.loops == old(t.loops) && t.faces == old(t.faces) && t.solveData == old(t.solveData)
  {
    assert StartsFrom(ueq, sorted, i) == [i] + StartsFrom(ueq, sorted, i + 1);
    ghost var hsB, esB := t.halfEdges, t.edges;
    var e := NewSpanEdge(t, ueq, sorted, i, curve, splitCurve, starts, result, |h0|, |e0|);
    AppendAssoc(starts, [i], StartsFrom(ueq, sorted, i + 1));
    starts' := starts + [i];
    result' := result + [e];
    PrefixTrans(h0, hsB, t.halfEdges);
    PrefixTrans(e0, esB, t.edges);
  }

  /** Node `nd` cuts its boundary edge in `tb`: the edge can be split and the node's vertex is not one of its ends. */
  ghost predicate CutsAt(tb: Tables, nd: Node)
  {
    && nd.edge < |tb.halfEdges| && Cuttable(tb, tb.halfEdges[nd.edge].edge)
    && var he1 := tb.halfEdges[tb.edges[tb.halfEdges[nd.edge].edge].halfEdge1];
       he1.vertexA != nd.vertex && he1.vertexB != nd.vertex
  }

  /** Every node lies on an edge of `tb` that can be split. */
  ghost predicate AllRooted(tb: Tables, nodes: seq<Node>)
  {
    forall k | 0 <= k < |nodes| :: nodes[k].edge < |tb.halfEdges| && Cuttable(tb, tb.halfEdges[nodes[k].edge].edge)
  }

  /** The boundary edge of node `nd` split at the node's vertex (the tables stay as they are when its half-edge is not in them). */
  ghost function SplitAtNode(tb: Tables, nd: Node, split: (CurveId, Point) -> (CurveId, CurveId)): Tables
  {
    if nd.edge < |tb.halfEdges| then AfterSplit(tb, tb.halfEdges[nd.edge].edge, nd.vertex, split) else tb
  }

  /**
   * `trace` records the second loop of `split` over its first `j` nodes:
   * entry `k + 1` is entry `k` with the boundary edge of node `k` split at
   * the node's vertex.
   */
  ghost predicate Traced(trace: seq<Tables>, nodes: seq<Node>, j: nat, split: (CurveId, Point) -> (CurveId, CurveId))
  {
    && j < |trace| && j <= |nodes|
    && forall k {:trigger SplitAtNode(trace[k], nodes[k], split)} | 0 <= k < j ::
         trace[k + 1] == SplitAtNode(trace[k], nodes[k], split)
  }

  /** A trace over `j` nodes extended by the split at node `j` is a trace over `j + 1` nodes. */
  lemma TracedSnoc(trace: seq<Tables>, nodes: seq<Node>, j: nat, x: Tables, split: (CurveId, Point) -> (CurveId, CurveId))
    requires Traced(trace, nodes, j, split) && |trace| == j + 1 && j < |nodes|
    requires x == SplitAtNode(trace[j], nodes[j], split)
    ensures Traced(trace + [x], nodes, j + 1, split)
  {
    var tr := trace + [x];
    forall k | 0 <= k < j + 1 ensures tr[k + 1] == SplitAtNode(tr[k], nodes[k], split) {
      assert tr[k] == trace[k];
    }
  }

  /**
   * The pieces the first `j` nodes cut, judged on the tables before any
   * split: for each node whose vertex is not an end of its edge, in node
   * order, the piece from the edge's start to the vertex and the piece from
   * the vertex to the edge's end.
   */
  ghost function Pieces(tb: Tables, nodes: seq<Node>, j: nat): seq<(Vertex, Vertex)>
    requires j <= |nodes|
  {
    if j == 0 then []
    else
      Pieces(tb, nodes, j - 1) + NodePieces(tb, nodes[j - 1])
  }

  /** The pieces node `nd` cuts its edge of `tb` into: none when its vertex is an end of the edge. */
  ghost function NodePieces(tb: Tables, nd: Node): seq<(Vertex, Vertex)>
  {
    if CutsAt(tb, nd) then
      var he1 := tb.halfEdges[tb.edges[tb.halfEdges[nd.edge].edge].halfEdge1];
      [(he1.vertexA, nd.vertex), (nd.vertex, he1.vertexB)]
    else []
  }

  /** Tables that only grew keep a cuttable edge cuttable, with the same half-edges. */
  lemma CuttablePrefix(tb: Tables, tb': Tables, e: EdgeId)
    requires Cuttable(tb, e)
    requires tb.halfEdges <= tb'.halfEdges && tb.edges <= tb'.edges && |tb'.loops| == |tb.loops|
    ensures Cuttable(tb', e) && tb'.edges[e] == tb.edges[e]
    ensures tb'.halfEdges[tb.edges[e].halfEdge1] == tb.halfEdges[tb.edges[e].halfEdge1]
  {
    assert tb'.edges[e] == tb.edges[e];
    assert tb'.halfEdges[tb.edges[e].halfEdge1] == tb.halfEdges[tb.edges[e].halfEdge1];
    assert tb'.halfEdges[tb.edges[e].halfEdge2] == tb.halfEdges[tb.edges[e].halfEdge2];
  }

  /**
   * The edges `r` has beyond `tb`'s are the pieces `P`, in order: the first
   * half-edge of edge `|tb.edges| + i` runs along piece `i`.
   */
  ghost predicate HasPieces(tb: Tables, r: Tables, P: seq<(Vertex, Vertex)>)
  {
    && |r.edges| == |tb.edges| + |P|
    && forall k | |tb.edges| <= k < |r.edges| ::
      && r.edges[k].halfEdge1 < |r.halfEdges|
      && r.halfEdges[r.edges[k].halfEdge1].vertexA == P[k - |tb.edges|].0
      && r.halfEdges[r.edges[k].halfEdge1].vertexB == P[k - |tb.edges|].1
  }

  /** One split at a node rooted in `tb` adds to `before` the pieces that node cuts in `tb`. */
  lemma PiecesStep(tb: Tables, before: Tables, r: Tables, nd: Node, split: (CurveId, Point) -> (CurveId, CurveId),
                   P: seq<(Vertex, Vertex)>)
    requires nd.edge < |tb.halfEdges| && Cuttable(tb, tb.halfEdges[nd.edge].edge)
    requires tb.halfEdges <= before.halfEdges && tb.edges <= before.edges && |before.loops| == |tb.loops|
    requires HasPieces(tb, before, P) && r == SplitAtNode(before, nd, split)
    ensures tb.halfEdges <= r.halfEdges && tb.edges <= r.edges && |r.loops| == |tb.loops|
    ensures HasPieces(tb, r, P + NodePieces(tb, nd))
  {
    var e := tb.halfEdges[nd.edge].edge;
    assert before.halfEdges[nd.edge] == tb.halfEdges[nd.edge];
    CuttablePrefix(tb, before, e);
    AfterSplitGrows(before, e, nd.vertex, split);
    assert r == AfterSplit(before, e, nd.vertex, split);
    PrefixTrans(tb.halfEdges, before.halfEdges, r.halfEdges);
    PrefixTrans(tb.edges, before.edges, r.edges);
    forall k | |tb.edges| <= k < |tb.edges| + |P|
      ensures r.edges[k].halfEdge1 < |r.halfEdges|
      ensures r.halfEdges[r.edges[k].halfEdge1] == before.halfEdges[before.edges[k].halfEdge1]
    {
      assert r.edges[k] == before.edges[k];
    }
  }

  /**
   * Splitting at the first `j` nodes only appends half-edges and edges, and
   * the appended edges are exactly the pieces of those nodes, in order. A
   * node whose vertex is an end of its edge adds nothing; every other node
   * cuts its edge in two at its vertex. That is decided on the tables before
   * the loop: a split never changes an entry that was already there.
   */
  lemma {:induction false} TracePieces(trace: seq<Tables>, nodes: seq<Node>, j: nat,
                                       split: (CurveId, Point) -> (CurveId, CurveId))
    requires Traced(trace, nodes, j, split) && AllRooted(trace[0], nodes)
    ensures trace[0].halfEdges <= trace[j].halfEdges && trace[0].edges <= trace[j].edges
    ensures |trace[j].loops| == |trace[0].loops|
    ensures HasPieces(trace[0], trace[j], Pieces(trace[0], nodes, j))
  {
    if j > 0 {
      assert Traced(trace, nodes, j - 1, split);
      TracePieces(trace, nodes, j - 1, split);
      var tb, nd := trace[0], nodes[j - 1];
      assert nd.edge < |tb.halfEdges| && Cuttable(tb, tb.halfEdges[nd.edge].edge);
      assert trace[j] == SplitAtNode(trace[j - 1], nd, split);
      PiecesStep(tb, trace[j - 1], trace[j], nd, split, Pieces(tb, nodes, j - 1));
    }
  }

  /** Nodes whose half-edges are splittable in a well-formed arena lie on edges the tables can split. */
  lemma SplittableRooted(t: Topology, sorted: seq<Node>)
    requires t.Valid()
    requires forall k | 0 <= k < |sorted| :: Splittable(t.halfEdges, t.edges, sorted[k].edge)
    ensures AllRooted(Tables(t.halfEdges, t.edges, t.loops), sorted)
  {
    forall k | 0 <= k < |sorted|
      ensures Cuttable(Tables(t.halfEdges, t.edges, t.loops), t.halfEdges[sorted[k].edge].edge)
    {
      var E := t.edges[t.halfEdges[sorted[k].edge].edge];
      assert HalfEdgeWf(t.halfEdges, t.edges, |t.loops|, |t.solveData|, E.halfEdge1);
      assert HalfEdgeWf(t.halfEdges, t.edges, |t.loops|, |t.solveData|, E.halfEdge2);
    }
  }

  /**
   * The second loop of `split`: each node's boundary edge is split at the
   * node's vertex, in node order; `trace` holds the tables before the loop
   * and after each turn.
   */
  method SplitBoundaryEdges(t: Topology, sorted: seq<Node>, splitCurve: (CurveId, Point) -> (CurveId, CurveId))
    returns (ghost trace: seq<Tables>)
    requires t.Valid()
    requires forall k | 0 <= k < |sorted| :: Splittable(t.halfEdges, t.edges, sorted[k].edge)
    modifies t
    ensures t.Valid()
    ensures Traced(trace, sorted, |sorted|, splitCurve) && AllRooted(trace[0], sorted)
    ensures trace[0] == old(Tables(t.halfEdges, t.edges, t.loops)) && trace[|sorted|] == Tables(t.halfEdges, t.edges, t.loops)
    ensures t.faces == old(t.faces) && t.solveData == old(t.solveData)
    ensures old(t.halfEdges) <= t.halfEdges && old(t.edges) <= t.edges
  {
    ghost var h1, e1 := t.halfEdges, t.edges;
    SplittableRooted(t, sorted);
    trace := [Tables(t.halfEdges, t.edges, t.loops)];
    var j := 0;
    while j < |sorted|
      invariant 0 <= j <= |sorted|
      invariant t.Valid()
      invariant h1 <= t.halfEdges && e1 <= t.edges
      invariant Traced(trace, sorted, j, splitCurve) && |trace| == j + 1
      invariant trace[0] == old(Tables(t.halfEdges, t.edges, t.loops)) && trace[j] == Tables(t.halfEdges, t.edges, t.loops)
      invariant t.faces == old(t.faces) && t.solveData == old(t.solveData)
    {
      assert Splittable(h1, e1, sorted[j].edge);
      SplittablePrefix(h1, e1, t.halfEdges, t.edges, sorted[j].edge);
      ghost var hsB, esB := t.halfEdges, t.edges;
      SplitStep(t, sorted[j], splitCurve);
      TracedSnoc(trace, sorted, j, Tables(t.halfEdges, t.edges, t.loops), splitCurve);
      trace := trace + [Tables(t.halfEdges, t.edges, t.loops)];
      PrefixTrans(h1, hsB, t.halfEdges);
      PrefixTrans(e1, esB, t.edges);
      j := j + 1;
    }
  }

  /** One turn of the second loop of `split`: the boundary edge of `node` is split at the node's vertex. */
  method SplitStep(t: Topology, node: Node, splitCurve: (CurveId, Point) -> (CurveId, CurveId))
    requires t.Valid() && Splittable(t.halfEdges, t.edges, node.edge)
    modifies t
    ensures t.Valid()
    ensures Tables(t.halfEdges, t.edges, t.loops) == SplitAtNode(old(Tables(t.halfEdges, t.edges, t.loops)), node, splitCurve)
    ensures t.faces == old(t.faces) && t.solveData == old(t.solveData)
    ensures old(t.halfEdges) <= t.halfEdges && old(t.edges) <= t.edges
  {
    var edge := t.halfEdges[node.edge].edge;
    var _ := SplitEdgeByVertex(t, edge, node.vertex, splitCurve);
  }

  /**
   * `split(nodes, curve, result)`. Returns the filtered, sorted node list it
   * walked and the new edges, one per emitted span, each running from the
   * span's in-node vertex to its out-node vertex. Then every walked node's
   * boundary edge is split at the node's vertex: `trace` starts from the
   * arena once the span edges are in and records each split.
   */
  method Split(t: Topology, ueq: (real, real) -> bool, nodes: array<Option<Node>>, curve: CurveId,
               splitCurve: (CurveId, Point) -> (CurveId, CurveId))
    returns (sorted: seq<Node>, result: seq<EdgeId>, ghost trace: seq<Tables>)
    requires t.Valid()
    requires forall k | 0 <= k < nodes.Length && nodes[k].Some? :: Splittable(t.halfEdges, t.edges, nodes[k].value.edge)
    modifies t, nodes
    ensures t.Valid()
    ensures sorted == SortNodes(ueq, Alive(nodes[..]))
    ensures forall k | 0 <= k < nodes.Length :: nodes[k].None? || nodes[k] == old(nodes[k])
    ensures forall k | 0 <= k < |sorted| :: sorted[k].normal != 0
    ensures HasSpanEdges(ueq, splitCurve, curve, sorted, SpanStarts(ueq, sorted),
                         t.halfEdges, t.edges, |old(t.halfEdges)|, |old(t.edges)|, result)
    ensures old(t.halfEdges) <= t.halfEdges && old(t.edges) <= t.edges
    ensures SplitsAfterSpans(trace, sorted, splitCurve, |old(t.halfEdges)| + 2 * |result|, |old(t.edges)| + |result|,
                             old(t.loops), Tables(t.halfEdges, t.edges, t.loops))
    ensures t.faces == old(t.faces) && t.solveData == old(t.solveData)
  {
    sorted := FilterAndSortNodes(ueq, nodes);
    SortedSplittable(ueq, nodes[..], t.halfEdges, t.edges);
    result, trace := EmitAndSplit(t, ueq, sorted, curve, splitCurve);
  }

  /**
   * `trace` records the boundary splits of `sorted`: it starts from tables
   * with `nH` half-edges, `nE` edges and loops `ls`, whose half-edges and
   * edges begin `last`'s, and it ends at `last`.
   */
  ghost predicate SplitsAfterSpans(trace: seq<Tables>, sorted: seq<Node>, splitCurve: (CurveId, Point) -> (CurveId, CurveId),
                                   nH: nat, nE: nat, ls: seq<Loop>, last: Tables)
  {
    && Traced(trace, sorted, |sorted|, splitCurve) && AllRooted(trace[0], sorted)
    && |trace[0].halfEdges| == nH && trace[0].halfEdges <= last.halfEdges
    && |trace[0].edges| == nE && trace[0].edges <= last.edges
    && trace[0].loops == ls && trace[|sorted|] == last
  }

  /** The span edges of the sorted nodes are emitted, then every node's boundary edge is split. */
  method EmitAndSplit(t: Topology, ueq: (real, real) -> bool, sorted: seq<Node>, curve: CurveId,
                      splitCurve: (CurveId, Point) -> (CurveId, CurveId))
    returns (result: seq<EdgeId>, ghost trace: seq<Tables>)
    requires t.Valid()
    requires forall k | 0 <= k < |sorted| :: Splittable(t.halfEdges, t.edges, sorted[k].edge)
    modifies t
    ensures t.Valid()
    ensures HasSpanEdges(ueq, splitCurve, curve, sorted, SpanStarts(ueq, sorted),
                         t.halfEdges, t.edges, |old(t.halfEdges)|, |old(t.edges)|, result)
    ensures old(t.halfEdges) <= t.halfEdges && old(t.edges) <= t.edges
    ensures SplitsAfterSpans(trace, sorted, splitCurve, |old(t.halfEdges)| + 2 * |result|, |old(t.edges)| + |result|,
                             old(t.loops), Tables(t.halfEdges, t.edges, t.loops))
    ensures t.faces == old(t.faces) && t.solveData == old(t.solveData)
  {
    ghost var h0, e0 := t.halfEdges, t.edges;
    result := EmitSpans(t, ueq, sorted, curve, splitCurve);
    ghost var h1, e1 := t.halfEdges, t.edges;
    AllSplittablePrefix(sorted, h0, e0, h1, e1);
    trace := SplitBoundaryEdges(t, sorted, splitCurve);
    HasSpanEdgesPrefix(ueq, splitCurve, curve, sorted, SpanStarts(ueq, sorted), h1, e1, t.halfEdges, t.edges,
                       |h0|, |e0|, result);
    PrefixTrans(h0, h1, t.halfEdges);
    PrefixTrans(e0, e1, t.edges);
  }
}
