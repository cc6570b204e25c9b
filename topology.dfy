/**
 * The topology the Boolean run works on, as an arena: every vertex-to-shell
 * relation is a handle (an index into one of the arena's sequences), so the
 * half-edge / loop / face cycles of the original object graph are lookups.
 *
 * web/app/brep/topo/edge.js, loop.js and shell.js are not part of this model;
 * their members are represented by what boolean.js and face.js use of them:
 * an edge owns two half-edges that run in opposite directions (`halfEdge1`
 * from the edge's start to its end), `twin()` is the edge's other half-edge,
 * and `loop.link()` sets each half-edge's `next` to its cyclic successor.
 */
module Topology {
  import opened Wrappers
  import opened Geometry

  type HalfEdgeId = nat
  type EdgeId = nat
  type LoopId = nat
  type FaceId = nat
  /** Handle of an `EdgeSolveData` object (several half-edges may share one). */
  type SolveId = nat

  /**
   * A half-edge. `loop`, `next`, `manifold` and `solve` (the per-run
   * `data[MY]` slot) may be null.
   */
  datatype HalfEdge = HalfEdge(
    edge: EdgeId,
    vertexA: Vertex,
    vertexB: Vertex,
    loop: Option<LoopId>,
    next: Option<HalfEdgeId>,
    manifold: Option<seq<HalfEdgeId>>,
    solve: Option<SolveId>)

  datatype Edge = Edge(curve: CurveId, halfEdge1: HalfEdgeId, halfEdge2: HalfEdgeId)

  /** A loop: its owning face (null for loops built by loop detection) and its half-edges in order. */
  datatype Loop = Loop(face: Option<FaceId>, halfEdges: seq<HalfEdgeId>)

  /** The two arguments `env2D` hands to the external point-in-polygon builder `PIP`. */
  datatype PipArgs = PipArgs(first: seq<Point>, rest: seq<seq<Point>>)

  /** The record `env2D` caches in `__2d`. */
  datatype Env2DRecord = Env2DRecord(pip: PipArgs, workingPolygon: seq<seq<Point>>)

  /**
   * A face. `cache2D` is the `__2d` memo; `invalidFlag` is `data[MY] ===
   * INVALID_FLAG`, set on faces consumed by overlap merging.
   */
  datatype Face = Face(
    surface: SurfaceId,
    shell: Option<nat>,
    outerLoop: LoopId,
    innerLoops: seq<LoopId>,
    cache2D: Option<Env2DRecord>,
    invalidFlag: bool)

  /** `EdgeSolveData`: the new-edge flag and the faces the edge was transferred to. */
  datatype EdgeSolveData = EdgeSolveData(newEdgeFlag: bool, transferredFaces: Option<set<FaceId>>)

  /** Every handle a half-edge holds points into the arena, and its edge owns it. */
  ghost predicate HalfEdgeWf(hs: seq<HalfEdge>, es: seq<Edge>, nLoops: nat, nSolve: nat, h: HalfEdgeId)
  {
    && h < |hs|
    && hs[h].edge < |es|
    && (es[hs[h].edge].halfEdge1 == h || es[hs[h].edge].halfEdge2 == h)
    && (hs[h].loop.Some? ==> hs[h].loop.value < nLoops)
    && (hs[h].next.Some? ==> hs[h].next.value < |hs|)
    && (hs[h].manifold.Some? ==> forall i | 0 <= i < |hs[h].manifold.value| :: hs[h].manifold.value[i] < |hs|)
    && (hs[h].solve.Some? ==> hs[h].solve.value < nSolve)
  }

  /** An edge owns two distinct half-edges that point back to it. */
  ghost predicate EdgeWf(hs: seq<HalfEdge>, es: seq<Edge>, e: EdgeId)
  {
    && e < |es|
    && es[e].halfEdge1 < |hs|
    && es[e].halfEdge2 < |hs|
    && es[e].halfEdge1 != es[e].halfEdge2
    && hs[es[e].halfEdge1].edge == e
    && hs[es[e].halfEdge2].edge == e
  }

  ghost predicate LoopWf(lp: Loop, nHalfEdges: nat, nFaces: nat)
  {
    && (lp.face.Some? ==> lp.face.value < nFaces)
    && (forall i | 0 <= i < |lp.halfEdges| :: lp.halfEdges[i] < nHalfEdges)
  }

  ghost predicate FaceWf(fc: Face, nLoops: nat)
  {
    && fc.outerLoop < nLoops
    && (forall i | 0 <= i < |fc.innerLoops| :: fc.innerLoops[i] < nLoops)
  }

  /** Well-formedness of a whole arena, stated on its sequences. */
  ghost predicate Wf(hs: seq<HalfEdge>, es: seq<Edge>, ls: seq<Loop>, fs: seq<Face>, ss: seq<EdgeSolveData>)
  {
    && (forall h | 0 <= h < |hs| :: HalfEdgeWf(hs, es, |ls|, |ss|, h))
    && (forall e | 0 <= e < |es| :: EdgeWf(hs, es, e))
    && (forall l | 0 <= l < |ls| :: LoopWf(ls[l], |hs|, |fs|))
    && (forall f | 0 <= f < |fs| :: FaceWf(fs[f], |ls|))
  }

  /** Replacing a half-edge by one with the same edge and in-range handles keeps the arena well formed. */
  lemma SetHalfEdgeKeepsWf(hs: seq<HalfEdge>, es: seq<Edge>, ls: seq<Loop>, fs: seq<Face>, ss: seq<EdgeSolveData>,
                           h: HalfEdgeId, he: HalfEdge)
    requires Wf(hs, es, ls, fs, ss)
    requires h < |hs| && he.edge == hs[h].edge
    requires HalfEdgeWf(hs[h := he], es, |ls|, |ss|, h)
    ensures Wf(hs[h := he], es, ls, fs, ss)
  {
    var hs' := hs[h := he];
    forall k | 0 <= k < |hs'| ensures HalfEdgeWf(hs', es, |ls|, |ss|, k) {
      if k != h { assert HalfEdgeWf(hs, es, |ls|, |ss|, k); }
    }
    forall e | 0 <= e < |es| ensures EdgeWf(hs', es, e) {
      assert EdgeWf(hs, es, e);
    }
  }

  /** Replacing a loop by one with in-range handles keeps the arena well formed. */
  lemma SetLoopKeepsWf(hs: seq<HalfEdge>, es: seq<Edge>, ls: seq<Loop>, fs: seq<Face>, ss: seq<EdgeSolveData>,
                       l: LoopId, lp: Loop)
    requires Wf(hs, es, ls, fs, ss)
    requires l < |ls| && LoopWf(lp, |hs|, |fs|)
    ensures Wf(hs, es, ls[l := lp], fs, ss)
  {
    var ls' := ls[l := lp];
    forall k | 0 <= k < |hs| ensures HalfEdgeWf(hs, es, |ls'|, |ss|, k) {
      assert HalfEdgeWf(hs, es, |ls|, |ss|, k);
    }
    forall k | 0 <= k < |ls'| ensures LoopWf(ls'[k], |hs|, |fs|) {
      if k != l { assert LoopWf(ls[k], |hs|, |fs|); }
    }
  }

  /** Replacing a face by one with in-range handles keeps the arena well formed. */
  lemma SetFaceKeepsWf(hs: seq<HalfEdge>, es: seq<Edge>, ls: seq<Loop>, fs: seq<Face>, ss: seq<EdgeSolveData>,
                       f: FaceId, fc: Face)
    requires Wf(hs, es, ls, fs, ss)
    requires f < |fs| && FaceWf(fc, |ls|)
    ensures Wf(hs, es, ls, fs[f := fc], ss)
  {
    var fs' := fs[f := fc];
    forall k | 0 <= k < |ls| ensures LoopWf(ls[k], |hs|, |fs'|) {
      assert LoopWf(ls[k], |hs|, |fs|);
    }
    forall k | 0 <= k < |fs'| ensures FaceWf(fs'[k], |ls|) {
      if k != f { assert FaceWf(fs[k], |ls|); }
    }
  }

  /** The arena of one Boolean run. */
  class Topology {
    var halfEdges: seq<HalfEdge>
    var edges: seq<Edge>
    var loops: seq<Loop>
    var faces: seq<Face>
    var solveData: seq<EdgeSolveData>

    ghost predicate Valid()
      reads this
    {
      Wf(halfEdges, edges, loops, faces, solveData)
    }

    /** An empty arena. */
    constructor ()
      ensures Valid()
      ensures halfEdges == [] && edges == [] && loops == [] && faces == [] && solveData == []
    {
      halfEdges, edges, loops, faces, solveData := [], [], [], [], [];
    }

    /** `halfEdge.twin()`: the other half-edge of its edge. */
    function Twin(h: HalfEdgeId): (r: HalfEdgeId)
      reads this
      requires Valid() && h < |halfEdges|
      ensures r < |halfEdges| && r != h
      ensures halfEdges[r].edge == halfEdges[h].edge
    {
      assert HalfEdgeWf(halfEdges, edges, |loops|, |solveData|, h);
      assert EdgeWf(halfEdges, edges, halfEdges[h].edge);
      var e := edges[halfEdges[h].edge];
      if e.halfEdge1 == h then e.halfEdge2 else e.halfEdge1
    }

    /** `edge.halfEdge1`: the half-edge running from the edge's start to its end. */
    function HalfEdge1(e: EdgeId): (h: HalfEdgeId)
      reads this
      requires Valid() && e < |edges|
      ensures h < |halfEdges| && halfEdges[h].edge == e
      ensures h != HalfEdge2(e)
    {
      assert EdgeWf(halfEdges, edges, e);
      edges[e].halfEdge1
    }

    /** `edge.halfEdge2`: the half-edge running the other way. */
    function HalfEdge2(e: EdgeId): (h: HalfEdgeId)
      reads this
      requires Valid() && e < |edges|
      ensures h < |halfEdges| && halfEdges[h].edge == e
    {
      assert EdgeWf(halfEdges, edges, e);
      edges[e].halfEdge2
    }

    /** `halfEdge.loop`, for a half-edge that has one. */
    function LoopOf(h: HalfEdgeId): (l: LoopId)
      reads this
      requires Valid() && h < |halfEdges| && halfEdges[h].loop.Some?
      ensures l < |loops| && Some(l) == halfEdges[h].loop
    {
      assert HalfEdgeWf(halfEdges, edges, |loops|, |solveData|, h);
      halfEdges[h].loop.value
    }

    /** Twin is an involution. */
    lemma TwinTwin(h: HalfEdgeId)
      requires Valid() && h < |halfEdges|
      ensures Twin(Twin(h)) == h
    {
      assert HalfEdgeWf(halfEdges, edges, |loops|, |solveData|, h);
      assert EdgeWf(halfEdges, edges, halfEdges[h].edge);
    }

    /**
     * `new Edge(curve, a, b)`: a new edge with two new half-edges, the first
     * from `a` to `b` and the second from `b` to `a`, neither in a loop yet.
     */
    method NewEdge(curve: CurveId, a: Vertex, b: Vertex) returns (e: EdgeId)
      requires Valid()
      modifies this
      ensures Valid()
      ensures e == |old(edges)|
      ensures edges == old(edges) + [Edge(curve, |old(halfEdges)|, |old(halfEdges)| + 1)]
      ensures halfEdges == old(halfEdges) + [HalfEdge(e, a, b, None, None, None, None),
                                             HalfEdge(e, b, a, None, None, None, None)]
      ensures loops == old(loops) && faces == old(faces) && solveData == old(solveData)
    {
      var h := |halfEdges|;
      e := |edges|;
      var hs := halfEdges + [HalfEdge(e, a, b, None, None, None, None), HalfEdge(e, b, a, None, None, None, None)];
      var es := edges + [Edge(curve, h, h + 1)];
      forall k | 0 <= k < |hs| ensures HalfEdgeWf(hs, es, |loops|, |solveData|, k) {
        if k < h {
          assert HalfEdgeWf(halfEdges, edges, |loops|, |solveData|, k);
          assert hs[k] == halfEdges[k];
        }
      }
      forall k | 0 <= k < |es| ensures EdgeWf(hs, es, k) {
        if k < e { assert EdgeWf(halfEdges, edges, k); }
      }
      forall k | 0 <= k < |loops| ensures LoopWf(loops[k], |hs|, |faces|) {
        assert LoopWf(loops[k], |halfEdges|, |faces|);
      }
      halfEdges, edges := hs, es;
    }

    /** `new Loop(face)`: an empty loop owned by `face`. */
    method NewLoop(face: Option<FaceId>) returns (l: LoopId)
      requires Valid()
      requires face.Some? ==> face.value < |faces|
      modifies this
      ensures Valid()
      ensures l == |old(loops)| && loops == old(loops) + [Loop(face, [])]
      ensures halfEdges == old(halfEdges) && edges == old(edges)
      ensures faces == old(faces) && solveData == old(solveData)
    {
      l := |loops|;
      var ls := loops + [Loop(face, [])];
      forall k | 0 <= k < |halfEdges| ensures HalfEdgeWf(halfEdges, edges, |ls|, |solveData|, k) {
        assert HalfEdgeWf(halfEdges, edges, |loops|, |solveData|, k);
      }
      forall k | 0 <= k < |faces| ensures FaceWf(faces[k], |ls|) {
        assert FaceWf(faces[k], |loops|);
      }
      loops := ls;
    }

    /**
     * `loop.link()`: each half-edge of the loop gets its cyclic successor as
     * `next`; a half-edge listed twice keeps the successor of its last entry.
     */
    method Link(l: LoopId)
      requires Valid() && l < |loops|
      modifies this
      ensures Valid() && |halfEdges| == |old(halfEdges)|
      ensures edges == old(edges) && loops == old(loops) && faces == old(faces) && solveData == old(solveData)
      ensures forall k | 0 <= k < |halfEdges| :: halfEdges[k] == old(halfEdges[k]).(next := halfEdges[k].next)
      ensures forall k | 0 <= k < |halfEdges| && k !in loops[l].halfEdges :: halfEdges[k] == old(halfEdges[k])
      ensures forall i | 0 <= i < |loops[l].halfEdges| && loops[l].halfEdges[i] !in loops[l].halfEdges[i + 1..] ::
        halfEdges[loops[l].halfEdges[i]].next == Some(loops[l].halfEdges[(i + 1) % |loops[l].halfEdges|])
    {
      assert LoopWf(loops[l], |halfEdges|, |faces|);
      var hs := LinkHalfEdges(halfEdges, loops[l].halfEdges);
      NextOnlyKeepsWf(halfEdges, hs, edges, loops, faces, solveData);
      halfEdges := hs;
    }
  }

  /**
   * The half-edges `r` after the first `i` entries of `ws` were linked:
   * only `next` fields changed, only those of visited entries, each to an
   * in-range handle, and each visited entry not visited again since has its
   * successor in `ws` as `next`.
   */
  ghost predicate LinkedPrefix(hs: seq<HalfEdge>, ws: seq<HalfEdgeId>, r: seq<HalfEdge>, i: nat)
  {
    && i <= |ws| && |r| == |hs|
    && (forall j | 0 <= j < |ws| :: ws[j] < |hs|)
    && (forall k | 0 <= k < |hs| :: r[k] == hs[k].(next := r[k].next))
    && (forall k | 0 <= k < |hs| && k !in ws[..i] :: r[k] == hs[k])
    && (forall k | 0 <= k < |hs| :: r[k] == hs[k] || (r[k].next.Some? && r[k].next.value < |hs|))
    && (forall j | 0 <= j < i && ws[j] !in ws[j + 1..i] :: r[ws[j]].next == Some(ws[(j + 1) % |ws|]))
  }

  /** Linking entry `i` extends `LinkedPrefix` by one entry. */
  lemma LinkedPrefixStep(hs: seq<HalfEdge>, ws: seq<HalfEdgeId>, r: seq<HalfEdge>, i: nat)
    requires LinkedPrefix(hs, ws, r, i) && i < |ws|
    ensures LinkedPrefix(hs, ws, r[ws[i] := r[ws[i]].(next := Some(ws[(i + 1) % |ws|]))], i + 1)
  {
    var n := |ws|;
    var h := ws[i];
    var r' := r[h := r[h].(next := Some(ws[(i + 1) % n]))];
    forall j | 0 <= j < i + 1 && ws[j] !in ws[j + 1..i + 1]
      ensures r'[ws[j]].next == Some(ws[(j + 1) % n])
    {
      if j < i {
        assert ws[j + 1..i + 1] == ws[j + 1..i] + [ws[i]];
      }
    }
    assert ws[..i + 1] == ws[..i] + [h];
  }

  /**
   * The loop of `loop.link()` on the half-edge records: walking the loop's
   * list `ws` in order, each entry's `next` is set to the entry after it,
   * the last one's to the first.
   */
  method LinkHalfEdges(hs: seq<HalfEdge>, ws: seq<HalfEdgeId>) returns (r: seq<HalfEdge>)
    requires forall i | 0 <= i < |ws| :: ws[i] < |hs|
    ensures |r| == |hs|
    ensures forall k | 0 <= k < |hs| :: r[k] == hs[k].(next := r[k].next)
    ensures forall k | 0 <= k < |hs| && k !in ws :: r[k] == hs[k]
    ensures forall k | 0 <= k < |hs| :: r[k] == hs[k] || (r[k].next.Some? && r[k].next.value < |hs|)
    ensures forall i | 0 <= i < |ws| && ws[i] !in ws[i + 1..] :: r[ws[i]].next == Some(ws[(i + 1) % |ws|])
  {
    r := hs;
    var n := |ws|;
    var i := 0;
    while i < n
      invariant i <= n && LinkedPrefix(hs, ws, r, i)
    {
      LinkedPrefixStep(hs, ws, r, i);
      r := r[ws[i] := r[ws[i]].(next := Some(ws[(i + 1) % n]))];
      i := i + 1;
    }
    LinkedPrefixAll(hs, ws, r);
  }

  /** After every entry, `LinkedPrefix` is what `LinkHalfEdges` promises. */
  lemma LinkedPrefixAll(hs: seq<HalfEdge>, ws: seq<HalfEdgeId>, r: seq<HalfEdge>)
    requires LinkedPrefix(hs, ws, r, |ws|)
    ensures forall k | 0 <= k < |hs| && k !in ws :: r[k] == hs[k]
    ensures forall i | 0 <= i < |ws| && ws[i] !in ws[i + 1..] :: r[ws[i]].next == Some(ws[(i + 1) % |ws|])
  {
    assert ws[..|ws|] == ws;
    forall i | 0 <= i < |ws| && ws[i] !in ws[i + 1..] ensures r[ws[i]].next == Some(ws[(i + 1) % |ws|]) {
      assert ws[i + 1..|ws|] == ws[i + 1..];
    }
  }

  /** Changing only `next` fields, to in-range handles, keeps the arena well formed. */
  lemma NextOnlyKeepsWf(hs: seq<HalfEdge>, r: seq<HalfEdge>, es: seq<Edge>, ls: seq<Loop>, fs: seq<Face>,
                        ss: seq<EdgeSolveData>)
    requires Wf(hs, es, ls, fs, ss) && |r| == |hs|
    requires forall k | 0 <= k < |hs| :: r[k] == hs[k].(next := r[k].next)
    requires forall k | 0 <= k < |hs| :: r[k] == hs[k] || (r[k].next.Some? && r[k].next.value < |hs|)
    ensures Wf(r, es, ls, fs, ss)
  {
    forall k | 0 <= k < |r| ensures HalfEdgeWf(r, es, |ls|, |ss|, k) {
      assert HalfEdgeWf(hs, es, |ls|, |ss|, k);
    }
    forall e | 0 <= e < |es| ensures EdgeWf(r, es, e) {
      assert EdgeWf(hs, es, e);
    }
    forall l | 0 <= l < |ls| ensures LoopWf(ls[l], |r|, |fs|) {
      assert LoopWf(ls[l], |hs|, |fs|);
    }
  }
}
