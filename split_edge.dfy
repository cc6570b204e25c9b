/**
 * `splitEdgeByVertex` (web/app/brep/operations/boolean.js): an edge is cut
 * at a vertex into two new edges; in each loop the old half-edge's entry is
 * replaced by the two new half-edges with `splice(indexOf(old), 1, h1, h2)`,
 * and the new half-edges share the solve data of the half-edges they replace.
 */
module SplitEdge {
  import opened Wrappers
  import opened Geometry
  import opened Topology
  import opened ListMaps
  import SolveData

  /**
   * `s.splice(start, 1, h1, h2)` as JavaScript evaluates it for the starts
   * `indexOf` can produce: -1 counts from the end (clamped at 0 on an empty
   * list), any other start is an index of `s`.
   */
  function Splice<T>(s: seq<T>, start: int, h1: T, h2: T): (r: seq<T>)
    requires start == -1 || 0 <= start < |s|
    ensures |r| == if |s| == 0 then 2 else |s| + 1
    ensures forall k | 0 <= k < |r| :: r[k] in s || r[k] == h1 || r[k] == h2
  {
    var at := if start == -1 then (if |s| == 0 then 0 else |s| - 1) else start;
    var after := if |s| == 0 then 0 else at + 1;
    s[..at] + [h1, h2] + s[after..]
  }

  /** `halfEdges.splice(halfEdges.indexOf(x), 1, h1, h2)`. */
  function ReplaceInLoop<T(==)>(s: seq<T>, x: T, h1: T, h2: T): seq<T>
  {
    Splice(s, IndexOf(s, x), h1, h2)
  }

  /** When `x` is listed, its first entry gives way to `h1, h2` and every other entry stays in place. */
  lemma ReplaceListed<T>(s: seq<T>, x: T, h1: T, h2: T)
    requires x in s
    ensures var i := IndexOf(s, x); var r := ReplaceInLoop(s, x, h1, h2);
      && r[..i] == s[..i] && r[i] == h1 && r[i + 1] == h2 && r[i + 2..] == s[i + 1..]
      && multiset(r) == multiset(s) - multiset{x} + multiset{h1, h2}
  {
    var i := IndexOf(s, x);
    var pre, post := s[..i], s[i + 1..];
    SplitAround(s, i);
    var r := Splice(s, i, h1, h2);
    assert |pre| == i && r == pre + [h1, h2] + post;
    SplicePlaces(s, pre, x, post, h1, h2, r);
    SpliceCounts(s, pre, x, post, h1, h2, r);
  }

  /** A list is what comes before entry `i`, that entry, and what comes after it. */
  lemma SplitAround<T>(s: seq<T>, i: nat)
    requires i < |s|
    ensures s == s[..i] + [s[i]] + s[i + 1..]
  {
  }

  /** `pre + [h1, h2] + post` against `pre + [x] + post`: the entries around the replaced one keep their places. */
  lemma SplicePlaces<T>(s: seq<T>, pre: seq<T>, x: T, post: seq<T>, h1: T, h2: T, r: seq<T>)
    requires s == pre + [x] + post && r == pre + [h1, h2] + post
    ensures r[..|pre|] == s[..|pre|] && r[|pre|] == h1 && r[|pre| + 1] == h2 && r[|pre| + 2..] == s[|pre| + 1..]
  {
    assert s[..|pre|] == pre && s[|pre| + 1..] == post;
    assert r[..|pre|] == pre && r[|pre| + 2..] == post;
  }

  /** `pre + [h1, h2] + post` against `pre + [x] + post`: one `x` gives way to `h1` and `h2`. */
  lemma SpliceCounts<T>(s: seq<T>, pre: seq<T>, x: T, post: seq<T>, h1: T, h2: T, r: seq<T>)
    requires s == pre + [x] + post && r == pre + [h1, h2] + post
    ensures multiset(r) == multiset(s) - multiset{x} + multiset{h1, h2}
  {
    assert multiset(s) == multiset(pre) + multiset{x} + multiset(post);
    assert multiset(r) == multiset(pre) + multiset{h1, h2} + multiset(post);
  }

  /**
   * When `x` is not listed, `indexOf` gives -1 and the splice replaces the
   * LAST entry of the loop, whatever half-edge it is.
   */
  lemma ReplaceUnlisted<T>(s: seq<T>, x: T, h1: T, h2: T)
    requires x !in s
    ensures s != [] ==> ReplaceInLoop(s, x, h1, h2) == s[..|s| - 1] + [h1, h2]
    ensures s == [] ==> ReplaceInLoop(s, x, h1, h2) == [h1, h2]
  {
  }

  /** A concrete loop where the unlisted case drops a half-edge that was listed. */
  lemma ReplaceUnlistedDropsLast()
    ensures ReplaceInLoop([10, 11], 12, 20, 21) == [10, 20, 21]
  {
    ReplaceUnlisted([10, 11], 12, 20, 21);
  }

  /**
   * `updateInLoop(halfEdge, h1, h2)`: the entry of `he` in its loop is
   * replaced by `h1, h2`, and both now belong to that loop.
   */
  method UpdateInLoop(t: Topology, he: HalfEdgeId, h1: HalfEdgeId, h2: HalfEdgeId)
    requires t.Valid() && he < |t.halfEdges| && h1 < |t.halfEdges| && h2 < |t.halfEdges| && h1 != h2
    requires t.halfEdges[he].loop.Some?
    modifies t
    ensures t.Valid()
    ensures var l := old(t.LoopOf(he));
      && t.loops == old(t.loops)[l := old(t.loops[l]).(halfEdges := ReplaceInLoop(old(t.loops[l].halfEdges), he, h1, h2))]
      && t.halfEdges == old(t.halfEdges)[h1 := old(t.halfEdges[h1]).(loop := Some(l))]
                                        [h2 := old(t.halfEdges[h2]).(loop := Some(l))]
    ensures t.edges == old(t.edges) && t.faces == old(t.faces) && t.solveData == old(t.solveData)
  {
    assert HalfEdgeWf(t.halfEdges, t.edges, |t.loops|, |t.solveData|, he);
    var l := t.halfEdges[he].loop.value;
    var lp := t.loops[l].(halfEdges := ReplaceInLoop(t.loops[l].halfEdges, he, h1, h2));
    assert LoopWf(t.loops[l], |t.halfEdges|, |t.faces|);
    SetLoopKeepsWf(t.halfEdges, t.edges, t.loops, t.faces, t.solveData, l, lp);
    t.loops := t.loops[l := lp];
    assert HalfEdgeWf(t.halfEdges, t.edges, |t.loops|, |t.solveData|, h1);
    var a := t.halfEdges[h1].(loop := Some(l));
    SetHalfEdgeKeepsWf(t.halfEdges, t.edges, t.loops, t.faces, t.solveData, h1, a);
    t.halfEdges := t.halfEdges[h1 := a];
    assert HalfEdgeWf(t.halfEdges, t.edges, |t.loops|, |t.solveData|, h2);
    var b := t.halfEdges[h2].(loop := Some(l));
    SetHalfEdgeKeepsWf(t.halfEdges, t.edges, t.loops, t.faces, t.solveData, h2, b);
    t.halfEdges := t.halfEdges[h2 := b];
  }

  /** The loops after both `updateInLoop` calls (the two loops may be one and the same). */
  function LoopsAfterSplit(ls: seq<Loop>, l1: LoopId, l2: LoopId,
                           he1: HalfEdgeId, he2: HalfEdgeId, n: HalfEdgeId): seq<Loop>
    requires l1 < |ls| && l2 < |ls|
  {
    var ls1 := ls[l1 := ls[l1].(halfEdges := ReplaceInLoop(ls[l1].halfEdges, he1, n, n + 2))];
    ls1[l2 := ls1[l2].(halfEdges := ReplaceInLoop(ls1[l2].halfEdges, he2, n + 3, n + 1))]
  }

  /**
   * Both `updateInLoop` calls: `he1`'s entry gives way to `n, n+2` and
   * `he2`'s to `n+3, n+1`, and the four new half-edges join those loops.
   */
  method LinkIntoLoops(t: Topology, he1: HalfEdgeId, he2: HalfEdgeId, n: HalfEdgeId)
    requires t.Valid() && he1 < n && he2 < n && n + 3 < |t.halfEdges|
    requires t.halfEdges[he1].loop.Some? && t.halfEdges[he2].loop.Some?
    modifies t
    ensures t.Valid() && |t.halfEdges| == |old(t.halfEdges)|
    ensures t.loops == LoopsAfterSplit(old(t.loops), old(t.LoopOf(he1)), old(t.LoopOf(he2)), he1, he2, n)
    ensures forall k | 0 <= k < |t.halfEdges| && k != n && k != n + 1 && k != n + 2 && k != n + 3 ::
      t.halfEdges[k] == old(t.halfEdges[k])
    ensures t.halfEdges[n] == old(t.halfEdges[n]).(loop := old(t.halfEdges[he1].loop))
    ensures t.halfEdges[n + 2] == old(t.halfEdges[n + 2]).(loop := old(t.halfEdges[he1].loop))
    ensures t.halfEdges[n + 3] == old(t.halfEdges[n + 3]).(loop := old(t.halfEdges[he2].loop))
    ensures t.halfEdges[n + 1] == old(t.halfEdges[n + 1]).(loop := old(t.halfEdges[he2].loop))
    ensures t.edges == old(t.edges) && t.faces == old(t.faces) && t.solveData == old(t.solveData)
  {
    var l1, l2 := t.LoopOf(he1), t.LoopOf(he2);
    ghost var ls0, hs0 := t.loops, t.halfEdges;
    UpdateInLoop(t, he1, n, n + 2);
    ghost var ls1, hs1 := t.loops, t.halfEdges;
    assert ls1 == ls0[l1 := ls0[l1].(halfEdges := ReplaceInLoop(ls0[l1].halfEdges, he1, n, n + 2))];
    assert hs1[he2] == hs0[he2];
    UpdateInLoop(t, he2, n + 3, n + 1);
    assert t.loops == ls1[l2 := ls1[l2].(halfEdges := ReplaceInLoop(ls1[l2].halfEdges, he2, n + 3, n + 1))];
  }

  /** The four `EdgeSolveData.transfer` calls: each new half-edge shares the data of the one it replaces. */
  method ShareSolveData(t: Topology, he1: HalfEdgeId, he2: HalfEdgeId, n: HalfEdgeId)
    requires t.Valid() && he1 < n && he2 < n && n + 3 < |t.halfEdges|
    modifies t
    ensures t.Valid() && |t.halfEdges| == |old(t.halfEdges)|
    ensures forall k | 0 <= k < |t.halfEdges| && k != n && k != n + 1 && k != n + 2 && k != n + 3 ::
      t.halfEdges[k] == old(t.halfEdges[k])
    ensures t.halfEdges[n] == old(t.halfEdges[n]).(solve := old(t.halfEdges[he1].solve))
    ensures t.halfEdges[n + 2] == old(t.halfEdges[n + 2]).(solve := old(t.halfEdges[he1].solve))
    ensures t.halfEdges[n + 3] == old(t.halfEdges[n + 3]).(solve := old(t.halfEdges[he2].solve))
    ensures t.halfEdges[n + 1] == old(t.halfEdges[n + 1]).(solve := old(t.halfEdges[he2].solve))
    ensures t.edges == old(t.edges) && t.loops == old(t.loops)
    ensures t.faces == old(t.faces) && t.solveData == old(t.solveData)
  {
    SolveData.Transfer(t, he1, n);
    SolveData.Transfer(t, he1, n + 2);
    SolveData.Transfer(t, he2, n + 3);
    SolveData.Transfer(t, he2, n + 1);
  }

  /** The arena tables `splitEdgeByVertex` reads and writes. */
  datatype Tables = Tables(halfEdges: seq<HalfEdge>, edges: seq<Edge>, loops: seq<Loop>)

  /** Edge `e` is in the tables, and both its half-edges are there and sit in loops of the tables. */
  ghost predicate Cuttable(tb: Tables, e: EdgeId)
  {
    && e < |tb.edges|
    && tb.edges[e].halfEdge1 < |tb.halfEdges| && tb.edges[e].halfEdge2 < |tb.halfEdges|
    && tb.halfEdges[tb.edges[e].halfEdge1].loop.Some?
    && tb.halfEdges[tb.edges[e].halfEdge1].loop.value < |tb.loops|
    && tb.halfEdges[tb.edges[e].halfEdge2].loop.Some?
    && tb.halfEdges[tb.edges[e].halfEdge2].loop.value < |tb.loops|
  }

  /**
   * The tables after `splitEdgeByVertex(e, v)`: unchanged when `v` is an end
   * of `e`'s first half-edge; otherwise two edges (old start to `v`, `v` to
   * old end) and their four half-edges are appended, and both loops are
   * spliced as `LoopsAfterSplit` says.
   */
  ghost function AfterSplit(tb: Tables, e: EdgeId, v: Vertex, split: (CurveId, Point) -> (CurveId, CurveId)): Tables
  {
    if !Cuttable(tb, e) then tb
    else
      var E := tb.edges[e];
      var he1 := tb.halfEdges[E.halfEdge1];
      var he2 := tb.halfEdges[E.halfEdge2];
      if he1.vertexA == v || he1.vertexB == v then tb
      else
        var n, m := |tb.halfEdges|, |tb.edges|;
        var curves := split(E.curve, v.point);
        Tables(tb.halfEdges + [HalfEdge(m, he1.vertexA, v, he1.loop, None, None, he1.solve),
                               HalfEdge(m, v, he1.vertexA, he2.loop, None, None, he2.solve),
                               HalfEdge(m + 1, v, he1.vertexB, he1.loop, None, None, he1.solve),
                               HalfEdge(m + 1, he1.vertexB, v, he2.loop, None, None, he2.solve)],
               tb.edges + [Edge(curves.0, n, n + 1), Edge(curves.1, n + 2, n + 3)],
               LoopsAfterSplit(tb.loops, he1.loop.value, he2.loop.value, E.halfEdge1, E.halfEdge2, n))
  }

  /** Tables holding exactly what a split at a non-end vertex appends and splices are the tables `AfterSplit` gives. */
  lemma AfterSplitIs(tb: Tables, e: EdgeId, v: Vertex, split: (CurveId, Point) -> (CurveId, CurveId), r: Tables)
    requires Cuttable(tb, e)
    requires var he1 := tb.halfEdges[tb.edges[e].halfEdge1]; he1.vertexA != v && he1.vertexB != v
    requires var n, m := |tb.halfEdges|, |tb.edges|;
      var E := tb.edges[e];
      var he1 := tb.halfEdges[E.halfEdge1];
      var he2 := tb.halfEdges[E.halfEdge2];
      var curves := split(E.curve, v.point);
      && r.edges == tb.edges + [Edge(curves.0, n, n + 1), Edge(curves.1, n + 2, n + 3)]
      && |r.halfEdges| == n + 4 && r.halfEdges[..n] == tb.halfEdges
      && r.halfEdges[n] == HalfEdge(m, he1.vertexA, v, he1.loop, None, None, he1.solve)
      && r.halfEdges[n + 1] == HalfEdge(m, v, he1.vertexA, he2.loop, None, None, he2.solve)
      && r.halfEdges[n + 2] == HalfEdge(m + 1, v, he1.vertexB, he1.loop, None, None, he1.solve)
      && r.halfEdges[n + 3] == HalfEdge(m + 1, he1.vertexB, v, he2.loop, None, None, he2.solve)
      && r.loops == LoopsAfterSplit(tb.loops, he1.loop.value, he2.loop.value, E.halfEdge1, E.halfEdge2, n)
    ensures r == AfterSplit(tb, e, v, split)
  {
    var n := |tb.halfEdges|;
    assert r.halfEdges == r.halfEdges[..n] + r.halfEdges[n..];
  }

  /**
   * A split only appends half-edges and edges and keeps the number of loops;
   * it adds two edges exactly when `v` is not an end of the edge, the first
   * running from the old start to `v` and the second from `v` to the old end.
   */
  lemma AfterSplitGrows(tb: Tables, e: EdgeId, v: Vertex, split: (CurveId, Point) -> (CurveId, CurveId))
    requires Cuttable(tb, e)
    ensures var r := AfterSplit(tb, e, v, split);
      && tb.halfEdges <= r.halfEdges && tb.edges <= r.edges && |r.loops| == |tb.loops|
    ensures var r := AfterSplit(tb, e, v, split);
      var he1 := tb.halfEdges[tb.edges[e].halfEdge1];
      var m := |tb.edges|;
      if he1.vertexA == v || he1.vertexB == v then r == tb
      else
        && |r.edges| == m + 2 && |r.halfEdges| == |tb.halfEdges| + 4
        && r.edges[m].halfEdge1 < |r.halfEdges| && r.edges[m + 1].halfEdge1 < |r.halfEdges|
        && r.halfEdges[r.edges[m].halfEdge1].vertexA == he1.vertexA
        && r.halfEdges[r.edges[m].halfEdge1].vertexB == v
        && r.halfEdges[r.edges[m + 1].halfEdge1].vertexA == v
        && r.halfEdges[r.edges[m + 1].halfEdge1].vertexB == he1.vertexB
  {
  }

  /**
   * Splitting one edge twice, at `v` and then at `w`, as `split` does when
   * two nodes lie on the same edge. The first split takes the edge's first
   * half-edge out of its loop, so the second one's `indexOf` gives -1 and
   * its splice replaces the LAST entry of that loop, whatever half-edge it
   * is, instead of the piece that holds `w`.
   */
  lemma SecondCutReplacesLast(tb: Tables, e: EdgeId, v: Vertex, w: Vertex, split: (CurveId, Point) -> (CurveId, CurveId))
    requires Cuttable(tb, e)
    requires var he1 := tb.halfEdges[tb.edges[e].halfEdge1];
      he1.vertexA != v && he1.vertexB != v && he1.vertexA != w && he1.vertexB != w
    requires tb.halfEdges[tb.edges[e].halfEdge1].loop != tb.halfEdges[tb.edges[e].halfEdge2].loop
    requires var l1 := tb.halfEdges[tb.edges[e].halfEdge1].loop.value;
      multiset(tb.loops[l1].halfEdges)[tb.edges[e].halfEdge1] == 1
    ensures var l1 := tb.halfEdges[tb.edges[e].halfEdge1].loop.value;
      var r1 := AfterSplit(tb, e, v, split);
      var r2 := AfterSplit(r1, e, w, split);
      && |r1.loops[l1].halfEdges| > 0
      && r2.loops[l1].halfEdges
         == r1.loops[l1].halfEdges[..|r1.loops[l1].halfEdges| - 1] + [|r1.halfEdges|, |r1.halfEdges| + 2]
  {
    var E := tb.edges[e];
    var l1 := tb.halfEdges[E.halfEdge1].loop.value;
    var r1 := AfterSplit(tb, e, v, split);
    FirstCutUnlists(tb, e, v, split, r1);
    var s1 := r1.loops[l1].halfEdges;
    ReplaceUnlisted(s1, E.halfEdge1, |r1.halfEdges|, |r1.halfEdges| + 2);
  }

  /** An entry listed once is gone after it is replaced by two other values. */
  lemma ReplaceDropsSingle<T>(s: seq<T>, x: T, h1: T, h2: T)
    requires multiset(s)[x] == 1 && x != h1 && x != h2
    ensures x !in ReplaceInLoop(s, x, h1, h2) && |ReplaceInLoop(s, x, h1, h2)| > 0
  {
    assert x in s;
    ReplaceListed(s, x, h1, h2);
    assert multiset(ReplaceInLoop(s, x, h1, h2))[x] == 0;
  }

  /** After a cut, the edge is still there unchanged and its first half-edge, listed once before, is gone from its loop. */
  lemma FirstCutUnlists(tb: Tables, e: EdgeId, v: Vertex, split: (CurveId, Point) -> (CurveId, CurveId), r1: Tables)
    requires Cuttable(tb, e) && r1 == AfterSplit(tb, e, v, split)
    requires var he1 := tb.halfEdges[tb.edges[e].halfEdge1]; he1.vertexA != v && he1.vertexB != v
    requires tb.halfEdges[tb.edges[e].halfEdge1].loop != tb.halfEdges[tb.edges[e].halfEdge2].loop
    requires multiset(tb.loops[tb.halfEdges[tb.edges[e].halfEdge1].loop.value].halfEdges)[tb.edges[e].halfEdge1] == 1
    ensures Cuttable(r1, e) && r1.edges[e] == tb.edges[e]
    ensures r1.halfEdges[tb.edges[e].halfEdge1] == tb.halfEdges[tb.edges[e].halfEdge1]
    ensures r1.halfEdges[tb.edges[e].halfEdge2] == tb.halfEdges[tb.edges[e].halfEdge2]
    ensures var l1 := tb.halfEdges[tb.edges[e].halfEdge1].loop.value;
      && r1.loops[l1].halfEdges == ReplaceInLoop(tb.loops[l1].halfEdges, tb.edges[e].halfEdge1, |tb.halfEdges|, |tb.halfEdges| + 2)
      && tb.edges[e].halfEdge1 !in r1.loops[l1].halfEdges && |r1.loops[l1].halfEdges| > 0
  {
    var E := tb.edges[e];
    var l1 := tb.halfEdges[E.halfEdge1].loop.value;
    var n := |tb.halfEdges|;
    var s := tb.loops[l1].halfEdges;
    assert E.halfEdge1 < n;
    ReplaceDropsSingle(s, E.halfEdge1, n, n + 2);
    var l2 := tb.halfEdges[E.halfEdge2].loop.value;
    assert r1.loops == LoopsAfterSplit(tb.loops, l1, l2, E.halfEdge1, E.halfEdge2, n);
    assert r1.halfEdges[..n] == tb.halfEdges && r1.edges[..|tb.edges|] == tb.edges;
  }

  /**
   * `splitEdgeByVertex(edge, vertex)`. `split` is the curve's `split(point)`.
   * Returns None, changing nothing, when `v` is already an end of the edge.
   * Otherwise the new edges are `e1` (old start to `v`) and `e2` (`v` to old
   * end); with `n` the first new half-edge, `n`/`n+1` are `e1`'s half-edges
   * and `n+2`/`n+3` are `e2`'s. The old edge and its half-edges are left in
   * the arena, unlisted by the loops they were replaced in.
   */
  method SplitEdgeByVertex(t: Topology, e: EdgeId, v: Vertex, split: (CurveId, Point) -> (CurveId, CurveId))
    returns (r: Option<(EdgeId, EdgeId)>)
    requires t.Valid() && e < |t.edges|
    requires t.halfEdges[t.HalfEdge1(e)].loop.Some? && t.halfEdges[t.HalfEdge2(e)].loop.Some?
    modifies t
    ensures t.Valid()
    ensures var he1 := old(t.halfEdges[t.HalfEdge1(e)]);
      r.None? <==> (he1.vertexA == v || he1.vertexB == v)
    ensures r.None? ==> t.halfEdges == old(t.halfEdges) && t.edges == old(t.edges) && t.loops == old(t.loops)
    ensures t.faces == old(t.faces) && t.solveData == old(t.solveData)
    ensures old(t.halfEdges) <= t.halfEdges && old(t.edges) <= t.edges
    ensures r.Some? ==>
      var n := |old(t.halfEdges)|;
      var E := old(t.edges[e]);
      var he1 := old(t.halfEdges[t.HalfEdge1(e)]);
      var he2 := old(t.halfEdges[t.HalfEdge2(e)]);
      var curves := split(E.curve, v.point);
      && r.value == (|old(t.edges)|, |old(t.edges)| + 1)
      && t.edges == old(t.edges) + [Edge(curves.0, n, n + 1), Edge(curves.1, n + 2, n + 3)]
      && |t.halfEdges| == n + 4 && t.halfEdges[..n] == old(t.halfEdges)
      && t.halfEdges[n] == HalfEdge(r.value.0, he1.vertexA, v, he1.loop, None, None, he1.solve)
      && t.halfEdges[n + 1] == HalfEdge(r.value.0, v, he1.vertexA, he2.loop, None, None, he2.solve)
      && t.halfEdges[n + 2] == HalfEdge(r.value.1, v, he1.vertexB, he1.loop, None, None, he1.solve)
      && t.halfEdges[n + 3] == HalfEdge(r.value.1, he1.vertexB, v, he2.loop, None, None, he2.solve)
      && t.loops == LoopsAfterSplit(old(t.loops), old(t.LoopOf(t.HalfEdge1(e))), old(t.LoopOf(t.HalfEdge2(e))),
                                    E.halfEdge1, E.halfEdge2, n)
    ensures Tables(t.halfEdges, t.edges, t.loops) == AfterSplit(old(Tables(t.halfEdges, t.edges, t.loops)), e, v, split)
  {
    ghost var tb0 := Tables(t.halfEdges, t.edges, t.loops);
    var he1 := t.halfEdges[t.HalfEdge1(e)];
    if he1.vertexA == v || he1.vertexB == v {
      return None;
    }
    var e1, e2 := CutEdge(t, e, v, split);
    r := Some((e1, e2));
    AfterSplitIs(tb0, e, v, split, Tables(t.halfEdges, t.edges, t.loops));
  }

  /**
   * The body of `splitEdgeByVertex` past its early return: the two new
   * edges, both `updateInLoop` calls and the four solve-data transfers.
   */
  method CutEdge(t: Topology, e: EdgeId, v: Vertex, split: (CurveId, Point) -> (CurveId, CurveId))
    returns (e1: EdgeId, e2: EdgeId)
    requires t.Valid() && e < |t.edges|
    requires t.halfEdges[t.HalfEdge1(e)].loop.Some? && t.halfEdges[t.HalfEdge2(e)].loop.Some?
    requires var he1 := t.halfEdges[t.HalfEdge1(e)]; he1.vertexA != v && he1.vertexB != v
    modifies t
    ensures t.Valid()
    ensures t.faces == old(t.faces) && t.solveData == old(t.solveData)
    ensures var n := |old(t.halfEdges)|;
      var E := old(t.edges[e]);
      var he1 := old(t.halfEdges[t.HalfEdge1(e)]);
      var he2 := old(t.halfEdges[t.HalfEdge2(e)]);
      var curves := split(E.curve, v.point);
      && e1 == |old(t.edges)| && e2 == |old(t.edges)| + 1
      && t.edges == old(t.edges) + [Edge(curves.0, n, n + 1), Edge(curves.1, n + 2, n + 3)]
      && |t.halfEdges| == n + 4 && t.halfEdges[..n] == old(t.halfEdges)
      && t.halfEdges[n] == HalfEdge(e1, he1.vertexA, v, he1.loop, None, None, he1.solve)
      && t.halfEdges[n + 1] == HalfEdge(e1, v, he1.vertexA, he2.loop, None, None, he2.solve)
      && t.halfEdges[n + 2] == HalfEdge(e2, v, he1.vertexB, he1.loop, None, None, he1.solve)
      && t.halfEdges[n + 3] == HalfEdge(e2, he1.vertexB, v, he2.loop, None, None, he2.solve)
      && t.loops == LoopsAfterSplit(old(t.loops), old(t.LoopOf(t.HalfEdge1(e))), old(t.LoopOf(t.HalfEdge2(e))),
                                    E.halfEdge1, E.halfEdge2, n)
  {
    var E := t.edges[e];
    var he1 := t.halfEdges[t.HalfEdge1(e)];
    ghost var hs0 := t.halfEdges;
    var curves := split(E.curve, v.point);
    var n := |t.halfEdges|;
    e1 := t.NewEdge(curves.0, he1.vertexA, v);
    e2 := t.NewEdge(curves.1, v, he1.vertexB);
    assert t.halfEdges[..n] == hs0;
    LinkIntoLoops(t, E.halfEdge1, E.halfEdge2, n);
    ShareSolveData(t, E.halfEdge1, E.halfEdge2, n);
    assert t.halfEdges[..n] == hs0;
  }
}
