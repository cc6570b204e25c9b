/**
 * `mergeVertices` (web/app/brep/operations/boolean.js): shell-2 half-edge
 * endpoints that lie within tolerance of a shell-1 vertex are redirected onto
 * that shell-1 vertex. Shell 1 is never touched.
 */
module MergeVertices {
  import opened Wrappers
  import opened Geometry
  import opened Topology
  import opened Faces
  import opened ListMaps

  /**
   * The last shell-1 vertex (in `vertices1` order) within tolerance of `v2`:
   * `toSwap.set(v2, v1)` overwrites, so the last match is the one kept.
   */
  function LastMatch(veq: (Point, Point) -> bool, vertices1: seq<Vertex>, v2: Vertex): Option<Vertex>
  {
    if vertices1 == [] then None
    else if veq(vertices1[|vertices1| - 1].point, v2.point) then Some(vertices1[|vertices1| - 1])
    else LastMatch(veq, vertices1[..|vertices1| - 1], v2)
  }

  /** A last match is a shell-1 vertex within tolerance, and no later shell-1 vertex is. */
  lemma {:induction false} LastMatchIsLast(veq: (Point, Point) -> bool, vertices1: seq<Vertex>, v2: Vertex)
    ensures LastMatch(veq, vertices1, v2).None? <==>
      forall k :: 0 <= k < |vertices1| ==> !veq(vertices1[k].point, v2.point)
    ensures LastMatch(veq, vertices1, v2).Some? ==>
      exists k :: (0 <= k < |vertices1| && vertices1[k] == LastMatch(veq, vertices1, v2).value
                   && veq(vertices1[k].point, v2.point)
                   && forall j :: k < j < |vertices1| ==> !veq(vertices1[j].point, v2.point))
  {
    if vertices1 != [] {
      var n := |vertices1| - 1;
      var init := vertices1[..n];
      LastMatchIsLast(veq, init, v2);
      assert forall k | 0 <= k < n :: vertices1[k] == init[k];
      if !veq(vertices1[n].point, v2.point) && LastMatch(veq, init, v2).Some? {
        var k :| (0 <= k < |init| && init[k] == LastMatch(veq, init, v2).value
                  && veq(init[k].point, v2.point)
                  && forall j :: k < j < |init| ==> !veq(init[j].point, v2.point));
        assert vertices1[k] == init[k];
      }
    }
  }

  /** `toSwap.get(v)`: `None` when `v` has no entry. */
  function MapGet(m: map<Vertex, Vertex>, v: Vertex): Option<Vertex>
  {
    if v in m then Some(m[v]) else None
  }

  /** Where the rewrite sends an endpoint `v` (`if (aSwap) h.vertexA = aSwap`). */
  function Redirect(veq: (Point, Point) -> bool, vertices1: seq<Vertex>, vertices2: seq<Vertex>, v: Vertex): Vertex
  {
    if v in vertices2 && LastMatch(veq, vertices1, v).Some? then LastMatch(veq, vertices1, v).value else v
  }

  /** Redirection only ever lands on `v` itself or on a shell-1 vertex within tolerance. */
  lemma RedirectTarget(veq: (Point, Point) -> bool, vertices1: seq<Vertex>, vertices2: seq<Vertex>, v: Vertex)
    ensures var r := Redirect(veq, vertices1, vertices2, v);
      r == v || (r in vertices1 && veq(r.point, v.point))
  {
    LastMatchIsLast(veq, vertices1, v);
  }

  /** Redirecting twice is redirecting once when the two shells share no vertex. */
  lemma RedirectIdempotent(veq: (Point, Point) -> bool, vertices1: seq<Vertex>, vertices2: seq<Vertex>, v: Vertex)
    requires forall u :: u in vertices1 ==> u !in vertices2
    ensures Redirect(veq, vertices1, vertices2, Redirect(veq, vertices1, vertices2, v))
            == Redirect(veq, vertices1, vertices2, v)
  {
    RedirectTarget(veq, vertices1, vertices2, v);
  }

  /** The half-edges `for (face of shell.faces) for (h of face.edges)` visits, in order. */
  function ShellHalfEdges(t: Topology, faces: seq<FaceId>): (r: seq<HalfEdgeId>)
    reads t
    requires t.Valid() && forall i | 0 <= i < |faces| :: faces[i] < |t.faces|
    ensures forall i | 0 <= i < |r| :: r[i] < |t.halfEdges|
  {
    if faces == [] then [] else HalfEdgesOf(t, faces[0]) + ShellHalfEdges(t, faces[1..])
  }

  /** The rewrite of one half-edge's two endpoints. */
  function Redirected(veq: (Point, Point) -> bool, vertices1: seq<Vertex>, vertices2: seq<Vertex>, he: HalfEdge): HalfEdge
  {
    he.(vertexA := Redirect(veq, vertices1, vertices2, he.vertexA),
        vertexB := Redirect(veq, vertices1, vertices2, he.vertexB))
  }

  /** The first phase: the `toSwap` map over every shell-1 / shell-2 vertex pair. */
  method BuildSwapMap(veq: (Point, Point) -> bool, vertices1: seq<Vertex>, vertices2: seq<Vertex>)
    returns (toSwap: map<Vertex, Vertex>)
    ensures forall v | v in toSwap :: v in vertices2
    ensures forall v | v in vertices2 :: MapGet(toSwap, v) == LastMatch(veq, vertices1, v)
  {
    toSwap := map[];
    var i := 0;
    while i < |vertices1|
      invariant 0 <= i <= |vertices1|
      invariant forall v | v in toSwap :: v in vertices2
      invariant forall v | v in vertices2 :: MapGet(toSwap, v) == LastMatch(veq, vertices1[..i], v)
    {
      var v1 := vertices1[i];
      assert vertices1[..i + 1][..i] == vertices1[..i];
      var j := 0;
      while j < |vertices2|
        invariant 0 <= j <= |vertices2|
        invariant forall v | v in toSwap :: v in vertices2
        invariant forall v | v in vertices2[..j] :: MapGet(toSwap, v) == LastMatch(veq, vertices1[..i + 1], v)
        invariant forall v | v in vertices2 && v !in vertices2[..j] ::
          MapGet(toSwap, v) == LastMatch(veq, vertices1[..i], v)
      {
        var v2 := vertices2[j];
        if veq(v1.point, v2.point) {
          toSwap := toSwap[v2 := v1];
        }
        assert vertices2[..j + 1] == vertices2[..j] + [v2];
        j := j + 1;
      }
      assert vertices2[..j] == vertices2;
      i := i + 1;
    }
    assert vertices1[..i] == vertices1;
  }

  /**
   * `mergeVertices(shell1, shell2)`. `vertices1`/`vertices2` are
   * `shell.vertices` and `faces2` is `shell2.faces`. Every half-edge that
   * shell 2's faces enumerate has both endpoints redirected; every other
   * half-edge, and everything else in the arena, is left as it was.
   */
  method MergeVertices(t: Topology, veq: (Point, Point) -> bool,
                       vertices1: seq<Vertex>, vertices2: seq<Vertex>, faces2: seq<FaceId>)
    requires t.Valid() && forall i | 0 <= i < |faces2| :: faces2[i] < |t.faces|
    requires forall u :: u in vertices1 ==> u !in vertices2
    modifies t
    ensures t.Valid() && |t.halfEdges| == |old(t.halfEdges)|
    ensures forall k | 0 <= k < |t.halfEdges| ::
      t.halfEdges[k] == if k in old(ShellHalfEdges(t, faces2))
                        then Redirected(veq, vertices1, vertices2, old(t.halfEdges[k]))
                        else old(t.halfEdges[k])
    ensures t.edges == old(t.edges) && t.loops == old(t.loops)
    ensures t.faces == old(t.faces) && t.solveData == old(t.solveData)
  {
    var toSwap := BuildSwapMap(veq, vertices1, vertices2);
    var hs := ShellHalfEdges(t, faces2);
    ghost var before := t.halfEdges;
    var i := 0;
    while i < |hs|
      invariant 0 <= i <= |hs|
      invariant t.Valid() && |t.halfEdges| == |before|
      invariant forall k | 0 <= k < |t.halfEdges| ::
        t.halfEdges[k] == if k in hs[..i] then Redirected(veq, vertices1, vertices2, before[k]) else before[k]
      invariant t.edges == old(t.edges) && t.loops == old(t.loops)
      invariant t.faces == old(t.faces) && t.solveData == old(t.solveData)
    {
      SliceSnoc(hs, i);
      RewriteOne(t, veq, vertices1, vertices2, toSwap, hs[i], before[hs[i]]);
      i := i + 1;
    }
    assert hs[..i] == hs;
  }

  /**
   * The body of the rewrite loop for half-edge `h`, which is `orig` or
   * already its rewrite: each endpoint with a `toSwap` entry is replaced by
   * it, which leaves `h` rewritten once.
   */
  method RewriteOne(t: Topology, veq: (Point, Point) -> bool, vertices1: seq<Vertex>, vertices2: seq<Vertex>,
                    toSwap: map<Vertex, Vertex>, h: HalfEdgeId, ghost orig: HalfEdge)
    requires t.Valid() && h < |t.halfEdges|
    requires forall u :: u in vertices1 ==> u !in vertices2
    requires forall v | v in toSwap :: v in vertices2
    requires forall v | v in vertices2 :: MapGet(toSwap, v) == LastMatch(veq, vertices1, v)
    requires t.halfEdges[h] == orig || t.halfEdges[h] == Redirected(veq, vertices1, vertices2, orig)
    modifies t
    ensures t.Valid() && t.halfEdges == old(t.halfEdges)[h := Redirected(veq, vertices1, vertices2, orig)]
    ensures t.edges == old(t.edges) && t.loops == old(t.loops)
    ensures t.faces == old(t.faces) && t.solveData == old(t.solveData)
  {
    var he := t.halfEdges[h];
    var aSwap := MapGet(toSwap, he.vertexA);
    var bSwap := MapGet(toSwap, he.vertexB);
    if aSwap.Some? {
      he := he.(vertexA := aSwap.value);
    }
    if bSwap.Some? {
      he := he.(vertexB := bSwap.value);
    }
    RedirectIdempotent(veq, vertices1, vertices2, orig.vertexA);
    RedirectIdempotent(veq, vertices1, vertices2, orig.vertexB);
    assert he == Redirected(veq, vertices1, vertices2, orig);
    assert HalfEdgeWf(t.halfEdges, t.edges, |t.loops|, |t.solveData|, h);
    SetHalfEdgeKeepsWf(t.halfEdges, t.edges, t.loops, t.faces, t.solveData, h, he);
    t.halfEdges := t.halfEdges[h := he];
  }
}
