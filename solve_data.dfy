/**
 * `EdgeSolveData` and the predicates over it (web/app/brep/operations/boolean.js):
 * the per-run `data[MY]` slot of a half-edge holds a reference to a solve-data
 * object, which several half-edges may share.
 */
module SolveData {
  import opened Wrappers
  import opened Geometry
  import opened Topology

  /** `EdgeSolveData.EMPTY`, what `get` returns for a half-edge with no data. */
  const EMPTY: EdgeSolveData := EdgeSolveData(false, None)

  /** `EdgeSolveData.get`. */
  function Get(t: Topology, h: HalfEdgeId): (d: EdgeSolveData)
    reads t
    requires t.Valid() && h < |t.halfEdges|
    ensures t.halfEdges[h].solve.None? ==> d == EMPTY
  {
    assert HalfEdgeWf(t.halfEdges, t.edges, |t.loops|, |t.solveData|, h);
    match t.halfEdges[h].solve
    case None => EMPTY
    case Some(s) => t.solveData[s]
  }

  /** `isNew`: the half-edge's solve data carries the new-edge flag. */
  predicate IsNew(t: Topology, h: HalfEdgeId)
    reads t
    requires t.Valid() && h < |t.halfEdges|
  {
    Get(t, h).newEdgeFlag
  }

  /** `EdgeSolveData.getTransferredFaces`; `None` is `undefined`. */
  function GetTransferredFaces(t: Topology, h: HalfEdgeId): Option<set<FaceId>>
    reads t
    requires t.Valid() && h < |t.halfEdges|
  {
    Get(t, h).transferredFaces
  }

  /** Half-edges that hold the same solve-data reference agree on everything it says. */
  lemma SharedDataAgrees(t: Topology, a: HalfEdgeId, b: HalfEdgeId)
    requires t.Valid() && a < |t.halfEdges| && b < |t.halfEdges|
    requires t.halfEdges[a].solve == t.halfEdges[b].solve
    ensures IsNew(t, a) == IsNew(t, b)
    ensures GetTransferredFaces(t, a) == GetTransferredFaces(t, b)
  {
  }

  /** The meaning of `isNewNM`: the half-edge or one of its manifold peers is new. */
  predicate NewInManifold(t: Topology, h: HalfEdgeId)
    reads t
    requires t.Valid() && h < |t.halfEdges|
  {
    assert HalfEdgeWf(t.halfEdges, t.edges, |t.loops|, |t.solveData|, h);
    || IsNew(t, h)
    || (t.halfEdges[h].manifold.Some? &&
        exists i :: 0 <= i < |t.halfEdges[h].manifold.value| && IsNew(t, t.halfEdges[h].manifold.value[i]))
  }

  /** `isNewNM`. */
  method IsNewNM(t: Topology, h: HalfEdgeId) returns (b: bool)
    requires t.Valid() && h < |t.halfEdges|
    ensures b == NewInManifold(t, h)
  {
    var manifold := t.halfEdges[h].manifold;
    if manifold.None? {
      return IsNew(t, h);
    }
    assert HalfEdgeWf(t.halfEdges, t.edges, |t.loops|, |t.solveData|, h);
    var ms := manifold.value;
    var i := 0;
    while i < |ms|
      invariant 0 <= i <= |ms|
      invariant forall j :: 0 <= j < i ==> !IsNew(t, ms[j])
    {
      if IsNew(t, ms[i]) {
        return true;
      }
      i := i + 1;
    }
    return IsNew(t, h);
  }

  /** `edgesHaveSameEnds`: the same two end vertices, in either direction. */
  predicate EdgesHaveSameEnds(t: Topology, e1: HalfEdgeId, e2: HalfEdgeId)
    reads t
    requires e1 < |t.halfEdges| && e2 < |t.halfEdges|
  {
    var a1, b1 := t.halfEdges[e1].vertexA, t.halfEdges[e1].vertexB;
    var a2, b2 := t.halfEdges[e2].vertexA, t.halfEdges[e2].vertexB;
    (a1 == a2 && b1 == b2) || (a1 == b2 && b1 == a2)
  }

  /** Having the same ends does not depend on the order of the arguments. */
  lemma EdgesHaveSameEndsSymmetric(t: Topology, e1: HalfEdgeId, e2: HalfEdgeId)
    requires e1 < |t.halfEdges| && e2 < |t.halfEdges|
    ensures EdgesHaveSameEnds(t, e1, e2) == EdgesHaveSameEnds(t, e2, e1)
  {
  }

  /**
   * `EdgeSolveData.createIfEmpty`: the half-edge's solve data, created (empty)
   * when it has none.
   */
  method CreateIfEmpty(t: Topology, h: HalfEdgeId) returns (s: SolveId)
    requires t.Valid() && h < |t.halfEdges|
    modifies t
    ensures t.Valid() && |t.halfEdges| == |old(t.halfEdges)|
    ensures s < |t.solveData| && t.halfEdges[h].solve == Some(s)
    ensures old(t.halfEdges[h].solve).Some? ==>
      s == old(t.halfEdges[h].solve).value && t.halfEdges == old(t.halfEdges) && t.solveData == old(t.solveData)
    ensures old(t.halfEdges[h].solve).None? ==>
      && s == |old(t.solveData)| && t.solveData == old(t.solveData) + [EMPTY]
      && t.halfEdges == old(t.halfEdges)[h := old(t.halfEdges[h]).(solve := Some(s))]
    ensures t.edges == old(t.edges) && t.loops == old(t.loops) && t.faces == old(t.faces)
  {
    assert HalfEdgeWf(t.halfEdges, t.edges, |t.loops|, |t.solveData|, h);
    if t.halfEdges[h].solve.Some? {
      s := t.halfEdges[h].solve.value;
    } else {
      s := |t.solveData|;
      var ss := t.solveData + [EMPTY];
      var hs := t.halfEdges[h := t.halfEdges[h].(solve := Some(s))];
      forall k | 0 <= k < |hs| ensures HalfEdgeWf(hs, t.edges, |t.loops|, |ss|, k) {
        assert HalfEdgeWf(t.halfEdges, t.edges, |t.loops|, |t.solveData|, k);
      }
      forall e | 0 <= e < |t.edges| ensures EdgeWf(hs, t.edges, e) {
        assert EdgeWf(t.halfEdges, t.edges, e);
      }
      t.halfEdges, t.solveData := hs, ss;
    }
  }

  /** `EdgeSolveData.clear`: the half-edge drops its solve-data reference. */
  method Clear(t: Topology, h: HalfEdgeId)
    requires t.Valid() && h < |t.halfEdges|
    modifies t
    ensures t.Valid()
    ensures t.halfEdges == old(t.halfEdges)[h := old(t.halfEdges[h]).(solve := None)]
    ensures Get(t, h) == EMPTY
    ensures t.edges == old(t.edges) && t.loops == old(t.loops)
    ensures t.faces == old(t.faces) && t.solveData == old(t.solveData)
  {
    assert HalfEdgeWf(t.halfEdges, t.edges, |t.loops|, |t.solveData|, h);
    SetHalfEdgeKeepsWf(t.halfEdges, t.edges, t.loops, t.faces, t.solveData, h, t.halfEdges[h].(solve := None));
    t.halfEdges := t.halfEdges[h := t.halfEdges[h].(solve := None)];
  }

  /**
   * `EdgeSolveData.transfer(from, to)`: `to` now refers to the very object
   * `from` refers to (or to none), so the two share all later changes.
   */
  method Transfer(t: Topology, from: HalfEdgeId, to: HalfEdgeId)
    requires t.Valid() && from < |t.halfEdges| && to < |t.halfEdges|
    modifies t
    ensures t.Valid()
    ensures t.halfEdges == old(t.halfEdges)[to := old(t.halfEdges[to]).(solve := old(t.halfEdges[from].solve))]
    ensures t.halfEdges[to].solve == t.halfEdges[from].solve
    ensures t.edges == old(t.edges) && t.loops == old(t.loops)
    ensures t.faces == old(t.faces) && t.solveData == old(t.solveData)
  {
    assert HalfEdgeWf(t.halfEdges, t.edges, |t.loops|, |t.solveData|, from);
    assert HalfEdgeWf(t.halfEdges, t.edges, |t.loops|, |t.solveData|, to);
    var he := t.halfEdges[to].(solve := t.halfEdges[from].solve);
    SetHalfEdgeKeepsWf(t.halfEdges, t.edges, t.loops, t.faces, t.solveData, to, he);
    t.halfEdges := t.halfEdges[to := he];
  }

  /**
   * `EdgeSolveData.markTransferred`: adds `faces` to the transferred faces of
   * the half-edge's solve data, creating either when missing.
   */
  method MarkTransferred(t: Topology, h: HalfEdgeId, faces: set<FaceId>)
    requires t.Valid() && h < |t.halfEdges|
    modifies t
    ensures t.Valid() && |t.halfEdges| == |old(t.halfEdges)|
    ensures t.halfEdges[h].solve.Some?
    ensures var old0 := old(GetTransferredFaces(t, h));
      GetTransferredFaces(t, h) == Some((if old0.Some? then old0.value else {}) + faces)
    ensures IsNew(t, h) == old(IsNew(t, h))
    ensures forall k | 0 <= k < |t.halfEdges| && t.halfEdges[k].solve != t.halfEdges[h].solve ::
      Get(t, k) == old(Get(t, k))
    ensures t.halfEdges[h] == old(t.halfEdges[h]).(solve := t.halfEdges[h].solve)
    ensures forall k | 0 <= k < |t.halfEdges| && k != h :: t.halfEdges[k] == old(t.halfEdges[k])
    ensures t.edges == old(t.edges) && t.loops == old(t.loops) && t.faces == old(t.faces)
  {
    var s := CreateIfEmpty(t, h);
    var data := t.solveData[s];
    var faces0 := if data.transferredFaces.Some? then data.transferredFaces.value else {};
    t.solveData := t.solveData[s := data.(transferredFaces := Some(faces0 + faces))];
    forall k | 0 <= k < |t.halfEdges| && t.halfEdges[k].solve != t.halfEdges[h].solve
      ensures Get(t, k) == old(Get(t, k))
    {
      assert HalfEdgeWf(t.halfEdges, t.edges, |t.loops|, |t.solveData|, k);
      assert k != h;
    }
  }

  /**
   * `addNewEdge`'s `createIfEmpty(halfEdge).newEdgeFlag = true`: the flag is
   * set on the shared object, so every half-edge sharing it becomes new.
   */
  method MarkNew(t: Topology, h: HalfEdgeId)
    requires t.Valid() && h < |t.halfEdges|
    modifies t
    ensures t.Valid() && |t.halfEdges| == |old(t.halfEdges)|
    ensures t.halfEdges[h].solve.Some?
    ensures forall k | 0 <= k < |t.halfEdges| && t.halfEdges[k].solve == t.halfEdges[h].solve :: IsNew(t, k)
    ensures forall k | 0 <= k < |t.halfEdges| :: t.halfEdges[k] == old(t.halfEdges[k]).(solve := t.halfEdges[k].solve)
    ensures forall k | 0 <= k < |t.halfEdges| && k != h :: t.halfEdges[k].solve == old(t.halfEdges[k].solve)
    ensures GetTransferredFaces(t, h) == old(GetTransferredFaces(t, h))
    ensures forall k | 0 <= k < |t.halfEdges| && t.halfEdges[k].solve != t.halfEdges[h].solve ::
      Get(t, k) == old(Get(t, k))
    ensures t.edges == old(t.edges) && t.loops == old(t.loops) && t.faces == old(t.faces)
  {
    var s := CreateIfEmpty(t, h);
    t.solveData := t.solveData[s := t.solveData[s].(newEdgeFlag := true)];
    forall k | 0 <= k < |t.halfEdges| && t.halfEdges[k].solve != t.halfEdges[h].solve
      ensures Get(t, k) == old(Get(t, k))
    {
      assert HalfEdgeWf(t.halfEdges, t.edges, |t.loops|, |t.solveData|, k);
      assert k != h;
    }
  }
}
