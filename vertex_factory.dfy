/**
 * `VertexFactory` (web/app/brep/operations/boolean.js): the tolerance-aware
 * vertex pool of one Boolean run.
 */
module VertexPool {
  import opened Wrappers
  import opened Geometry

  /** The first pooled vertex within tolerance of `p`, the one `find` returns. */
  function Lookup(veq: (Point, Point) -> bool, pool: seq<Vertex>, p: Point): Option<Vertex>
  {
    if pool == [] then None
    else if veq(p, pool[0].point) then Some(pool[0])
    else Lookup(veq, pool[1..], p)
  }

  /** A hit is a pooled vertex within tolerance, and no earlier pooled vertex is. */
  lemma {:induction false} LookupHit(veq: (Point, Point) -> bool, pool: seq<Vertex>, p: Point)
    requires Lookup(veq, pool, p).Some?
    ensures exists k :: (0 <= k < |pool| && pool[k] == Lookup(veq, pool, p).value
                         && veq(p, pool[k].point) && forall j :: 0 <= j < k ==> !veq(p, pool[j].point))
  {
    if !veq(p, pool[0].point) {
      LookupHit(veq, pool[1..], p);
      var k :| (0 <= k < |pool[1..]| && pool[1..][k] == Lookup(veq, pool[1..], p).value
                && veq(p, pool[1..][k].point) && forall j :: 0 <= j < k ==> !veq(p, pool[1..][j].point));
      assert pool[k + 1] == pool[1..][k];
      forall j | 0 <= j < k + 1 ensures !veq(p, pool[j].point) {
        if j > 0 { assert pool[j] == pool[1..][j - 1]; }
      }
    }
  }

  /** A miss means no pooled vertex is within tolerance. */
  lemma {:induction false} LookupMiss(veq: (Point, Point) -> bool, pool: seq<Vertex>, p: Point)
    ensures Lookup(veq, pool, p).None? <==> forall k :: 0 <= k < |pool| ==> !veq(p, pool[k].point)
  {
    if pool != [] {
      LookupMiss(veq, pool[1..], p);
      if forall k :: 0 <= k < |pool[1..]| ==> !veq(p, pool[1..][k].point) {
        forall k | 0 <= k < |pool| && k > 0 ensures !veq(p, pool[k].point) {
          assert pool[k] == pool[1..][k - 1];
        }
      }
    }
  }

  /** Appending to the pool never changes an earlier hit. */
  lemma {:induction false} LookupAppendHit(veq: (Point, Point) -> bool, pool: seq<Vertex>, v: Vertex, p: Point)
    requires Lookup(veq, pool, p).Some?
    ensures Lookup(veq, pool + [v], p) == Lookup(veq, pool, p)
  {
    if !veq(p, pool[0].point) {
      assert (pool + [v])[1..] == pool[1..] + [v];
      LookupAppendHit(veq, pool[1..], v, p);
    }
  }

  /** After a miss, appending a vertex at a point within tolerance of itself makes it the hit. */
  lemma {:induction false} LookupAppendMiss(veq: (Point, Point) -> bool, pool: seq<Vertex>, v: Vertex, p: Point)
    requires Lookup(veq, pool, p).None? && veq(p, v.point)
    ensures Lookup(veq, pool + [v], p) == Some(v)
  {
    if pool == [] {
      assert pool + [v] == [v];
    } else {
      assert (pool + [v])[1..] == pool[1..] + [v];
      LookupAppendMiss(veq, pool[1..], v, p);
    }
  }

  /** The largest id among the given vertices, or 0. */
  function MaxId(vs: seq<Vertex>): (m: nat)
    ensures forall i | 0 <= i < |vs| :: vs[i].id <= m
  {
    if vs == [] then 0
    else
      var rest := MaxId(vs[1..]);
      assert forall i | 1 <= i < |vs| :: vs[i] == vs[1..][i - 1];
      if vs[0].id > rest then vs[0].id else rest
  }

  class VertexFactory {
    /** The tolerance test `veq` of the geometry kernel. */
    const veq: (Point, Point) -> bool
    /** `this.vertices`, in insertion order. */
    var vertices: seq<Vertex>
    /** The id the next new `Vertex` receives: larger than every pooled id. */
    var nextId: nat

    ghost predicate Valid()
      reads this
    {
      forall i | 0 <= i < |vertices| :: vertices[i].id < nextId
    }

    constructor (veq: (Point, Point) -> bool)
      ensures Valid() && this.veq == veq && vertices == []
    {
      this.veq := veq;
      vertices := [];
      nextId := 0;
    }

    /** `addVertices`: appends the given vertices in order. */
    method AddVertices(vs: seq<Vertex>)
      requires Valid()
      modifies this
      ensures Valid() && vertices == old(vertices) + vs
    {
      var i := 0;
      while i < |vs|
        invariant 0 <= i <= |vs|
        invariant Valid() && vertices == old(vertices) + vs[..i]
      {
        vertices := vertices + [vs[i]];
        if vs[i].id >= nextId {
          nextId := vs[i].id + 1;
        }
        i := i + 1;
      }
      assert vs[..i] == vs;
    }

    /** `find`: the first pooled vertex within tolerance of `point`, or null. */
    method Find(point: Point) returns (r: Option<Vertex>)
      ensures r == Lookup(veq, vertices, point)
      ensures r.Some? ==> r.value in vertices && veq(point, r.value.point)
      ensures r.None? <==> forall k :: 0 <= k < |vertices| ==> !veq(point, vertices[k].point)
    {
      var i := 0;
      while i < |vertices|
        invariant 0 <= i <= |vertices|
        invariant Lookup(veq, vertices, point) == Lookup(veq, vertices[i..], point)
      {
        if veq(point, vertices[i].point) {
          LookupHit(veq, vertices[i..], point);
          LookupMiss(veq, vertices, point);
          return Some(vertices[i]);
        }
        assert vertices[i..][1..] == vertices[i + 1..];
        i := i + 1;
      }
      LookupMiss(veq, vertices, point);
      return None;
    }

    /**
     * `create`: the pooled vertex `find` returns, with the pool unchanged;
     * otherwise a vertex with a new identity at `point`, appended to the pool.
     */
    method Create(point: Point) returns (v: Vertex)
      requires Valid()
      modifies this
      ensures Valid()
      ensures old(Lookup(veq, vertices, point)).Some? ==>
        v == old(Lookup(veq, vertices, point)).value && vertices == old(vertices)
      ensures old(Lookup(veq, vertices, point)).None? ==>
        && v.point == point
        && (forall i | 0 <= i < |old(vertices)| :: old(vertices)[i].id != v.id)
        && vertices == old(vertices) + [v]
    {
      var found := Find(point);
      if found.Some? {
        v := found.value;
      } else {
        v := Vertex(nextId, point);
        vertices := vertices + [v];
        nextId := nextId + 1;
      }
    }

    /**
     * Two `create` calls with the same point return the same vertex, provided
     * `veq` holds of a point and itself; the pool only grows.
     */
    method CreateTwice(point: Point) returns (v1: Vertex, v2: Vertex)
      requires Valid() && veq(point, point)
      modifies this
      ensures Valid() && v1 == v2
      ensures |old(vertices)| <= |vertices| && vertices[..|old(vertices)|] == old(vertices)
    {
      ghost var pool0 := vertices;
      v1 := Create(point);
      if Lookup(veq, pool0, point).None? {
        LookupAppendMiss(veq, pool0, v1, point);
      }
      v2 := Create(point);
      if Lookup(veq, pool0, point).Some? {
        LookupAppendHit(veq, pool0, v1, point);
      }
    }
  }

  /**
   * `initVertexFactory`: a fresh pool seeded with shell 1's vertices and then
   * shell 2's.
   */
  method InitVertexFactory(veq: (Point, Point) -> bool, vertices1: seq<Vertex>, vertices2: seq<Vertex>)
    returns (factory: VertexFactory)
    ensures fresh(factory) && factory.Valid() && factory.veq == veq
    ensures factory.vertices == vertices1 + vertices2
  {
    factory := new VertexFactory(veq);
    factory.AddVertices(vertices1);
    factory.AddVertices(vertices2);
  }
}
