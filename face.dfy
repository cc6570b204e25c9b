/**
 * web/app/brep/topo/face.js: the face constructor, the `loops` and `edges`
 * enumerations, `getAnyHalfEdge`, `getAnyVertex`, the shape of
 * `createWorkingPolygon` and the `env2D` memo.
 */
module Faces {
  import opened Wrappers
  import opened Geometry
  import opened Topology

  /** `loopsGenerator`: the outer loop first, then the inner loops in array order. */
  function LoopsOf(t: Topology, f: FaceId): (r: seq<LoopId>)
    reads t
    requires t.Valid() && f < |t.faces|
    ensures |r| == 1 + |t.faces[f].innerLoops|
    ensures forall i | 0 <= i < |r| :: r[i] < |t.loops|
  {
    assert FaceWf(t.faces[f], |t.loops|);
    [t.faces[f].outerLoop] + t.faces[f].innerLoops
  }

  /** The half-edges of the given loops, loop by loop, each in its in-loop order. */
  function HalfEdgesOfLoops(t: Topology, ls: seq<LoopId>): (r: seq<HalfEdgeId>)
    reads t
    requires t.Valid()
    requires forall i | 0 <= i < |ls| :: ls[i] < |t.loops|
    ensures forall i | 0 <= i < |r| :: r[i] < |t.halfEdges|
  {
    if ls == [] then []
    else
      assert LoopWf(t.loops[ls[0]], |t.halfEdges|, |t.faces|);
      t.loops[ls[0]].halfEdges + HalfEdgesOfLoops(t, ls[1..])
  }

  /** `halfEdgesGenerator`: every half-edge of every loop of the face. */
  function HalfEdgesOf(t: Topology, f: FaceId): (r: seq<HalfEdgeId>)
    reads t
    requires t.Valid() && f < |t.faces|
    ensures forall i | 0 <= i < |r| :: r[i] < |t.halfEdges|
  {
    HalfEdgesOfLoops(t, LoopsOf(t, f))
  }

  /** The sum of the lengths of the given loops. */
  function TotalLength(t: Topology, ls: seq<LoopId>): nat
    reads t
    requires forall i | 0 <= i < |ls| :: ls[i] < |t.loops|
  {
    if ls == [] then 0 else |t.loops[ls[0]].halfEdges| + TotalLength(t, ls[1..])
  }

  lemma TotalLengthAppend(t: Topology, ls: seq<LoopId>, l: LoopId)
    requires forall i | 0 <= i < |ls| :: ls[i] < |t.loops|
    requires l < |t.loops|
    ensures TotalLength(t, ls + [l]) == TotalLength(t, ls) + |t.loops[l].halfEdges|
  {
    if ls != [] {
      assert (ls + [l])[1..] == ls[1..] + [l];
      TotalLengthAppend(t, ls[1..], l);
    }
  }

  /** The enumeration yields as many half-edges as the loops hold together. */
  lemma {:induction false} HalfEdgesOfLoopsCount(t: Topology, ls: seq<LoopId>)
    requires t.Valid()
    requires forall i | 0 <= i < |ls| :: ls[i] < |t.loops|
    ensures |HalfEdgesOfLoops(t, ls)| == TotalLength(t, ls)
  {
    if ls != [] {
      HalfEdgesOfLoopsCount(t, ls[1..]);
    }
  }

  /**
   * Position: the `j`-th half-edge of the `i`-th loop comes right after all
   * half-edges of the loops before it, so the enumeration goes loop by loop
   * and keeps each loop's order.
   */
  lemma {:induction false} HalfEdgesOfLoopsAt(t: Topology, ls: seq<LoopId>, i: nat, j: nat)
    requires t.Valid()
    requires forall k | 0 <= k < |ls| :: ls[k] < |t.loops|
    requires i < |ls| && j < |t.loops[ls[i]].halfEdges|
    ensures TotalLength(t, ls[..i]) + j < |HalfEdgesOfLoops(t, ls)|
    ensures HalfEdgesOfLoops(t, ls)[TotalLength(t, ls[..i]) + j] == t.loops[ls[i]].halfEdges[j]
  {
    HalfEdgesOfLoopsCount(t, ls[1..]);
    if i == 0 {
      assert ls[..0] == [];
    } else {
      assert ls[..i][1..] == ls[1..][..i - 1];
      HalfEdgesOfLoopsAt(t, ls[1..], i - 1, j);
    }
  }

  /** A half-edge is enumerated exactly when one of the loops holds it. */
  lemma {:induction false} HalfEdgesOfLoopsMember(t: Topology, ls: seq<LoopId>, h: HalfEdgeId)
    requires t.Valid()
    requires forall i | 0 <= i < |ls| :: ls[i] < |t.loops|
    ensures h in HalfEdgesOfLoops(t, ls) <==> exists i :: 0 <= i < |ls| && h in t.loops[ls[i]].halfEdges
  {
    if ls != [] {
      HalfEdgesOfLoopsMember(t, ls[1..], h);
      if h in HalfEdgesOfLoops(t, ls[1..]) {
        var i :| 0 <= i < |ls[1..]| && h in t.loops[ls[1..][i]].halfEdges;
        assert h in t.loops[ls[i + 1]].halfEdges;
      }
      if exists i :: 0 <= i < |ls| && h in t.loops[ls[i]].halfEdges {
        var i :| 0 <= i < |ls| && h in t.loops[ls[i]].halfEdges;
        if i > 0 { assert h in t.loops[ls[1..][i - 1]].halfEdges; }
      }
    }
  }

  /** The face's half-edges: the outer loop's first, then those of each inner loop. */
  lemma HalfEdgesOfFace(t: Topology, f: FaceId)
    requires t.Valid() && f < |t.faces|
    ensures |HalfEdgesOf(t, f)| == TotalLength(t, LoopsOf(t, f))
    ensures HalfEdgesOf(t, f)[..|t.loops[t.faces[f].outerLoop].halfEdges|]
            == t.loops[t.faces[f].outerLoop].halfEdges
  {
    HalfEdgesOfLoopsCount(t, LoopsOf(t, f));
  }

  /**
   * `getAnyHalfEdge`: the outer loop's first half-edge, otherwise the first
   * inner loop's first half-edge; `None` is `undefined`.
   */
  function GetAnyHalfEdge(t: Topology, f: FaceId): (r: Option<HalfEdgeId>)
    reads t
    requires t.Valid() && f < |t.faces|
    ensures r.Some? ==> r.value < |t.halfEdges|
  {
    var face := t.faces[f];
    assert FaceWf(face, |t.loops|);
    var outer := t.loops[face.outerLoop].halfEdges;
    if |outer| > 0 then Some(outer[0])
    else if |face.innerLoops| > 0 && |t.loops[face.innerLoops[0]].halfEdges| > 0 then
      Some(t.loops[face.innerLoops[0]].halfEdges[0])
    else None
  }

  /**
   * What `getAnyHalfEdge` returns is the first half-edge the face's `edges`
   * enumeration yields; a face with no half-edge at all has none to return.
   * Only the first inner loop is looked at: it returns nothing exactly when
   * the outer loop and the first inner loop (if any) are empty, so when it
   * returns nothing although the face has half-edges, they all lie in the
   * later inner loops.
   */
  lemma GetAnyHalfEdgeIsFirst(t: Topology, f: FaceId)
    requires t.Valid() && f < |t.faces|
    ensures GetAnyHalfEdge(t, f).Some? ==>
      HalfEdgesOf(t, f) != [] && GetAnyHalfEdge(t, f).value == HalfEdgesOf(t, f)[0]
    ensures HalfEdgesOf(t, f) == [] ==> GetAnyHalfEdge(t, f).None?
    ensures GetAnyHalfEdge(t, f).None? && HalfEdgesOf(t, f) != [] ==>
      |t.faces[f].innerLoops| > 1 && HalfEdgesOf(t, f) == HalfEdgesOfLoops(t, t.faces[f].innerLoops[1..])
    ensures GetAnyHalfEdge(t, f).None? <==>
      t.loops[t.faces[f].outerLoop].halfEdges == [] &&
      (|t.faces[f].innerLoops| == 0 || t.loops[t.faces[f].innerLoops[0]].halfEdges == [])
  {
    var face := t.faces[f];
    var ls := LoopsOf(t, f);
    assert ls[1..] == face.innerLoops;
    assert HalfEdgesOf(t, f) == t.loops[face.outerLoop].halfEdges + HalfEdgesOfLoops(t, face.innerLoops);
    if |face.innerLoops| > 0 {
      assert ls[1..][1..] == face.innerLoops[1..];
      assert HalfEdgesOfLoops(t, ls[1..]) == t.loops[face.innerLoops[0]].halfEdges + HalfEdgesOfLoops(t, face.innerLoops[1..]);
      if |face.innerLoops| == 1 {
        assert face.innerLoops[1..] == [];
      }
    }
  }

  /**
   * `getAnyVertex`: the start vertex of `getAnyHalfEdge()`. `None` stands for
   * the source dereferencing `undefined` (a TypeError) when there is none.
   */
  function GetAnyVertex(t: Topology, f: FaceId): (r: Option<Vertex>)
    reads t
    requires t.Valid() && f < |t.faces|
    ensures r.Some? <==> GetAnyHalfEdge(t, f).Some?
  {
    match GetAnyHalfEdge(t, f)
    case None => None
    case Some(h) => Some(t.halfEdges[h].vertexA)
  }

  /** `getAnyVertex` is the start vertex of the first half-edge the `edges` enumeration yields. */
  lemma GetAnyVertexIsFirstStart(t: Topology, f: FaceId)
    requires t.Valid() && f < |t.faces|
    ensures GetAnyVertex(t, f).Some? ==>
      HalfEdgesOf(t, f) != [] && GetAnyVertex(t, f).value == t.halfEdges[HalfEdgesOf(t, f)[0]].vertexA
    ensures HalfEdgesOf(t, f) == [] ==> GetAnyVertex(t, f).None?
  {
    GetAnyHalfEdgeIsFirst(t, f);
  }

  /**
   * `createWorkingPolygon`: one polygon per loop, outer loop first.
   * `loopPolygon` stands for `loop.tess()` mapped through `surface.workingPoint`.
   */
  function CreateWorkingPolygon(t: Topology, f: FaceId, loopPolygon: LoopId -> seq<Point>): (r: seq<seq<Point>>)
    reads t
    requires t.Valid() && f < |t.faces|
    ensures |r| == 1 + |t.faces[f].innerLoops|
    ensures r[0] == loopPolygon(t.faces[f].outerLoop)
    ensures forall i | 0 <= i < |t.faces[f].innerLoops| :: r[i + 1] == loopPolygon(t.faces[f].innerLoops[i])
  {
    var ls := LoopsOf(t, f);
    seq(|ls|, i requires 0 <= i < |ls| => loopPolygon(ls[i]))
  }

  /**
   * `env2D`: builds the record on the first call only and afterwards returns
   * the cached `__2d` record, leaving the arena alone.
   */
  method Env2D(t: Topology, f: FaceId, loopPolygon: LoopId -> seq<Point>) returns (r: Env2DRecord)
    requires t.Valid() && f < |t.faces|
    modifies t
    ensures t.Valid()
    ensures |t.faces| == |old(t.faces)| && t.faces[f].cache2D == Some(r)
    ensures old(t.faces[f].cache2D).Some? ==> r == old(t.faces[f].cache2D).value && t.faces == old(t.faces)
    ensures old(t.faces[f].cache2D).None? ==>
      var wp := old(CreateWorkingPolygon(t, f, loopPolygon));
      && r == Env2DRecord(PipArgs(wp[0], wp[1..]), wp)
      && t.faces == old(t.faces)[f := old(t.faces[f]).(cache2D := Some(r))]
    ensures t.halfEdges == old(t.halfEdges) && t.edges == old(t.edges)
    ensures t.loops == old(t.loops) && t.solveData == old(t.solveData)
  {
    if t.faces[f].cache2D.None? {
      var workingPolygon := CreateWorkingPolygon(t, f, loopPolygon);
      var record := Env2DRecord(PipArgs(workingPolygon[0], workingPolygon[1..]), workingPolygon);
      assert FaceWf(t.faces[f], |t.loops|);
      SetFaceKeepsWf(t.halfEdges, t.edges, t.loops, t.faces, t.solveData, f, t.faces[f].(cache2D := Some(record)));
      t.faces := t.faces[f := t.faces[f].(cache2D := Some(record))];
    }
    r := t.faces[f].cache2D.value;
  }

  /** Two `env2D` calls in a row give the identical record. */
  method Env2DTwice(t: Topology, f: FaceId, loopPolygon: LoopId -> seq<Point>) returns (r1: Env2DRecord, r2: Env2DRecord)
    requires t.Valid() && f < |t.faces|
    modifies t
    ensures r1 == r2
  {
    r1 := Env2D(t, f, loopPolygon);
    r2 := Env2D(t, f, loopPolygon);
  }

  /**
   * `new Face(surface)`: no shell, an empty outer loop owned by the new face,
   * no inner loops and no cached `__2d`.
   */
  method NewFace(t: Topology, surface: SurfaceId) returns (f: FaceId)
    requires t.Valid()
    modifies t
    ensures t.Valid()
    ensures f == |old(t.faces)| && t.faces == old(t.faces) + [Face(surface, None, |old(t.loops)|, [], None, false)]
    ensures t.loops == old(t.loops) + [Loop(Some(f), [])]
    ensures t.halfEdges == old(t.halfEdges) && t.edges == old(t.edges) && t.solveData == old(t.solveData)
  {
    f := |t.faces|;
    var l := |t.loops|;
    var fs := t.faces + [Face(surface, None, l, [], None, false)];
    var ls := t.loops + [Loop(Some(f), [])];
    forall k | 0 <= k < |t.halfEdges| ensures HalfEdgeWf(t.halfEdges, t.edges, |ls|, |t.solveData|, k) {
      assert HalfEdgeWf(t.halfEdges, t.edges, |t.loops|, |t.solveData|, k);
    }
    forall k | 0 <= k < |ls| ensures LoopWf(ls[k], |t.halfEdges|, |fs|) {
      if k < l { assert LoopWf(t.loops[k], |t.halfEdges|, |t.faces|); }
    }
    forall k | 0 <= k < |fs| ensures FaceWf(fs[k], |ls|) {
      if k < f { assert FaceWf(t.faces[k], |t.loops|); }
    }
    t.faces, t.loops := fs, ls;
  }
}
