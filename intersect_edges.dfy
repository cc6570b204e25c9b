/**
 * The three passes of `intersectEdges` in web/app/brep/operations/boolean.js
 * that follow the grouping of intersection parameters: the vertex holders
 * are filled from the vertex factory, then every edge is split at its
 * unskipped parameters in ascending order, each split cutting the piece
 * that holds the rest of the edge. `IntersectEdges` runs the whole
 * operation.
 */
module IntersectEdges {
  import opened Wrappers
  import opened Geometry
  import opened Topology
  import opened ListMaps
  import opened VertexPool
  import opened EdgeParams
  import SplitEdge
  import MergeFaces

  /** An edge both of whose half-edges lie in loops, as `splitEdgeByVertex` needs. */
  ghost predicate Ready(hs: seq<HalfEdge>, es: seq<Edge>, e: EdgeId)
  {
    && e < |es| && es[e].halfEdge1 < |hs| && es[e].halfEdge2 < |hs|
    && hs[es[e].halfEdge1].loop.Some? && hs[es[e].halfEdge2].loop.Some?
  }

  /** The vertex an edge starts at: `halfEdge1.vertexA`. */
  function Start(hs: seq<HalfEdge>, es: seq<Edge>, e: EdgeId): Vertex
    requires e < |es| && es[e].halfEdge1 < |hs|
  {
    hs[es[e].halfEdge1].vertexA
  }

  /** The vertex an edge ends at: `halfEdge1.vertexB`. */
  function End(hs: seq<HalfEdge>, es: seq<Edge>, e: EdgeId): Vertex
    requires e < |es| && es[e].halfEdge1 < |hs|
  {
    hs[es[e].halfEdge1].vertexB
  }

  /** Growing the arena keeps an edge ready, with the same ends. */
  lemma ReadyGrows(hs: seq<HalfEdge>, es: seq<Edge>, hs': seq<HalfEdge>, es': seq<Edge>, e: EdgeId)
    requires Ready(hs, es, e) && hs <= hs' && es <= es'
    ensures Ready(hs', es', e)
    ensures Start(hs', es', e) == Start(hs, es, e) && End(hs', es', e) == End(hs, es, e)
  {
    assert es'[e] == es[e];
    assert hs'[es[e].halfEdge1] == hs[es[e].halfEdge1];
    assert hs'[es[e].halfEdge2] == hs[es[e].halfEdge2];
  }

  // ---------------------------------------------------------------------
  // Filling the vertex holders
  // ---------------------------------------------------------------------

  /** The records of edge `e`, each paired with `e`. */
  function Tagged(e: EdgeId, ps: seq<EdgeParam>): (r: seq<(EdgeId, EdgeParam)>)
    ensures |r| == |ps| && forall k | 0 <= k < |ps| :: r[k] == (e, ps[k])
  {
    seq(|ps|, k requires 0 <= k < |ps| => (e, ps[k]))
  }

  /** What the holder loop visits for the first `n` keys: each key's records in list order. */
  function Visits(keys: seq<EdgeId>, m: map<EdgeId, seq<EdgeParam>>, n: nat): seq<(EdgeId, EdgeParam)>
    requires n <= |keys|
  {
    if n == 0 then [] else Visits(keys, m, n - 1) + Tagged(keys[n - 1], ListAt(m, keys[n - 1]))
  }

  /** Some visit in `vs` holds holder `h`. */
  ghost predicate Seen(vs: seq<(EdgeId, EdgeParam)>, h: HolderId)
  {
    exists k | 0 <= k < |vs| :: vs[k].1.holder == h
  }

  /** The point the visit `x` asks the factory for: `e.curve.point(u)`. */
  function VisitPoint(es: seq<Edge>, pointAt: (CurveId, real) -> Point, x: (EdgeId, EdgeParam)): Point
    requires x.0 < |es|
  {
    pointAt(es[x.0].curve, x.1.u)
  }

  /** `v` is what `create(p)` can give: a pooled vertex within tolerance of `p`, or a new one at `p`. */
  predicate Near(veq: (Point, Point) -> bool, p: Point, v: Vertex)
  {
    veq(p, v.point) || v.point == p
  }

  /**
   * `v` was created for the first visit of holder `h`: that visit is
   * `vs[k]`, no earlier visit holds `h`, and `v` is near the visit's point.
   */
  ghost predicate FirstPlaced(es: seq<Edge>, veq: (Point, Point) -> bool, pointAt: (CurveId, real) -> Point,
                              vs: seq<(EdgeId, EdgeParam)>, h: HolderId, v: Vertex)
  {
    exists k | 0 <= k < |vs| ::
      && vs[k].1.holder == h && vs[k].0 < |es|
      && (forall j | 0 <= j < k :: vs[j].1.holder != h)
      && Near(veq, VisitPoint(es, pointAt, vs[k]), v)
  }

  /** The state of the holder loop after the visits `vs`. */
  ghost predicate Filled(es: seq<Edge>, veq: (Point, Point) -> bool, pointAt: (CurveId, real) -> Point,
                         vs: seq<(EdgeId, EdgeParam)>, holders: map<HolderId, Vertex>, pool: seq<Vertex>)
  {
    && (forall h :: h in holders <==> Seen(vs, h))
    && (forall h | h in holders :: holders[h] in pool && FirstPlaced(es, veq, pointAt, vs, h, holders[h]))
  }

  /** A visit whose holder is already filled changes nothing but the visits. */
  lemma FilledSkip(es: seq<Edge>, veq: (Point, Point) -> bool, pointAt: (CurveId, real) -> Point,
                   vs: seq<(EdgeId, EdgeParam)>, holders: map<HolderId, Vertex>, pool: seq<Vertex>,
                   x: (EdgeId, EdgeParam))
    requires Filled(es, veq, pointAt, vs, holders, pool) && x.1.holder in holders
    ensures Filled(es, veq, pointAt, vs + [x], holders, pool)
  {
    var vs' := vs + [x];
    forall h ensures h in holders <==> Seen(vs', h) {
      if Seen(vs', h) && h != x.1.holder {
        var k :| 0 <= k < |vs'| && vs'[k].1.holder == h;
        assert vs[k] == vs'[k];
      }
      if Seen(vs, h) {
        var k :| 0 <= k < |vs| && vs[k].1.holder == h;
        assert vs'[k] == vs[k];
      }
    }
    forall h | h in holders ensures FirstPlaced(es, veq, pointAt, vs', h, holders[h]) {
      var k :| 0 <= k < |vs| && vs[k].1.holder == h && vs[k].0 < |es|
        && (forall j | 0 <= j < k :: vs[j].1.holder != h)
        && Near(veq, VisitPoint(es, pointAt, vs[k]), holders[h]);
      assert vs'[k] == vs[k];
    }
  }

  /** A visit with an empty holder fills it with the vertex `create` gave, and the pool may grow. */
  lemma FilledPlace(es: seq<Edge>, veq: (Point, Point) -> bool, pointAt: (CurveId, real) -> Point,
                    vs: seq<(EdgeId, EdgeParam)>, holders: map<HolderId, Vertex>, pool: seq<Vertex>,
                    x: (EdgeId, EdgeParam), v: Vertex, pool': seq<Vertex>)
    requires Filled(es, veq, pointAt, vs, holders, pool) && x.1.holder !in holders && x.0 < |es|
    requires pool <= pool' && v in pool' && Near(veq, VisitPoint(es, pointAt, x), v)
    ensures Filled(es, veq, pointAt, vs + [x], holders[x.1.holder := v], pool')
  {
    var vs' := vs + [x];
    var holders' := holders[x.1.holder := v];
    assert vs'[|vs|] == x;
    forall h ensures h in holders' <==> Seen(vs', h) {
      if Seen(vs', h) && h != x.1.holder {
        var k :| 0 <= k < |vs'| && vs'[k].1.holder == h;
        assert vs[k] == vs'[k];
      }
      if Seen(vs, h) {
        var k :| 0 <= k < |vs| && vs[k].1.holder == h;
        assert vs'[k] == vs[k];
      }
    }
    forall h | h in holders' ensures holders'[h] in pool' && FirstPlaced(es, veq, pointAt, vs', h, holders'[h]) {
      if h == x.1.holder {
        forall j | 0 <= j < |vs| ensures vs'[j].1.holder != h {
          assert vs'[j] == vs[j];
        }
      } else {
        var k :| 0 <= k < |vs| && vs[k].1.holder == h && vs[k].0 < |es|
          && (forall j | 0 <= j < k :: vs[j].1.holder != h)
          && Near(veq, VisitPoint(es, pointAt, vs[k]), holders[h]);
        assert vs'[k] == vs[k];
        assert holders[h] in pool;
        var i :| 0 <= i < |pool| && pool[i] == holders[h];
        assert pool'[i] == pool[i];
      }
    }
  }

  /** `create(p)` gives a vertex of the pool near `p`. */
  method CreateNear(factory: VertexFactory, p: Point) returns (v: Vertex)
    requires factory.Valid()
    modifies factory
    ensures factory.Valid() && old(factory.vertices) <= factory.vertices
    ensures v in factory.vertices && Near(factory.veq, p, v)
  {
    ghost var hit := Lookup(factory.veq, factory.vertices, p);
    if hit.Some? {
      LookupHit(factory.veq, factory.vertices, p);
    }
    v := factory.Create(p);
  }

  /** The body of the holder loop: an empty holder gets the vertex `create` gives for the record. */
  method VisitRecord(t: Topology, factory: VertexFactory, pointAt: (CurveId, real) -> Point,
                     x: (EdgeId, EdgeParam), ghost vs: seq<(EdgeId, EdgeParam)>, holders0: map<HolderId, Vertex>)
    returns (holders: map<HolderId, Vertex>)
    requires factory.Valid() && x.0 < |t.edges|
    requires Filled(t.edges, factory.veq, pointAt, vs, holders0, factory.vertices)
    modifies factory
    ensures factory.Valid() && old(factory.vertices) <= factory.vertices
    ensures Filled(t.edges, factory.veq, pointAt, vs + [x], holders, factory.vertices)
  {
    if x.1.holder !in holders0 {
      var v := CreateNear(factory, pointAt(t.edges[x.0].curve, x.1.u));
      FilledPlace(t.edges, factory.veq, pointAt, vs, holders0, old(factory.vertices), x, v, factory.vertices);
      holders := holders0[x.1.holder := v];
    } else {
      FilledSkip(t.edges, factory.veq, pointAt, vs, holders0, factory.vertices, x);
      holders := holders0;
    }
  }

  /** The holder loop over the records of one key. */
  method FillRow(t: Topology, factory: VertexFactory, pointAt: (CurveId, real) -> Point,
                 e: EdgeId, ps: seq<EdgeParam>, ghost vs0: seq<(EdgeId, EdgeParam)>, holders0: map<HolderId, Vertex>)
    returns (holders: map<HolderId, Vertex>)
    requires factory.Valid() && e < |t.edges|
    requires Filled(t.edges, factory.veq, pointAt, vs0, holders0, factory.vertices)
    modifies factory
    ensures factory.Valid() && old(factory.vertices) <= factory.vertices
    ensures Filled(t.edges, factory.veq, pointAt, vs0 + Tagged(e, ps), holders, factory.vertices)
  {
    holders := holders0;
    ghost var vs := vs0;
    assert vs0 + Tagged(e, ps[..0]) == vs0;
    var k := 0;
    while k < |ps|
      invariant k <= |ps|
      invariant factory.Valid() && old(factory.vertices) <= factory.vertices
      invariant vs == vs0 + Tagged(e, ps[..k])
      invariant Filled(t.edges, factory.veq, pointAt, vs, holders, factory.vertices)
    {
      ghost var pool := factory.vertices;
      holders := VisitRecord(t, factory, pointAt, (e, ps[k]), vs, holders);
      PrefixTrans(old(factory.vertices), pool, factory.vertices);
      TaggedSnoc(e, ps, k);
      AppendAssoc(vs0, Tagged(e, ps[..k]), [(e, ps[k])]);
      vs := vs + [(e, ps[k])];
      k := k + 1;
    }
    assert ps[..k] == ps;
  }

  lemma TaggedSnoc(e: EdgeId, ps: seq<EdgeParam>, k: nat)
    requires k < |ps|
    ensures Tagged(e, ps[..k + 1]) == Tagged(e, ps[..k]) + [(e, ps[k])]
  {
  }

  /**
   * The third loop of `intersectEdges`: every holder gets the vertex
   * `create` gives for the first record that holds it, evaluated on that
   * record's edge; holders already filled are left alone.
   */
  method FillHolders(t: Topology, factory: VertexFactory, keys: seq<EdgeId>, m: map<EdgeId, seq<EdgeParam>>,
                     pointAt: (CurveId, real) -> Point)
    returns (holders: map<HolderId, Vertex>)
    requires factory.Valid()
    requires forall e | e in keys :: e < |t.edges|
    modifies factory
    ensures factory.Valid() && old(factory.vertices) <= factory.vertices
    ensures Filled(t.edges, factory.veq, pointAt, Visits(keys, m, |keys|), holders, factory.vertices)
  {
    holders := map[];
    var i := 0;
    while i < |keys|
      invariant i <= |keys|
      invariant factory.Valid() && old(factory.vertices) <= factory.vertices
      invariant Filled(t.edges, factory.veq, pointAt, Visits(keys, m, i), holders, factory.vertices)
    {
      ghost var pool := factory.vertices;
      assert keys[i] in keys;
      holders := FillRow(t, factory, pointAt, keys[i], ListAt(m, keys[i]), Visits(keys, m, i), holders);
      PrefixTrans(old(factory.vertices), pool, factory.vertices);
      i := i + 1;
    }
  }

  // ---------------------------------------------------------------------
  // Splitting each edge at its parameters
  // ---------------------------------------------------------------------

  /** The arena only grew from `(hs, es)`, and faces and solve data are as they were. */
  ghost predicate Grown(hs: seq<HalfEdge>, es: seq<Edge>, fs: seq<Face>, ss: seq<EdgeSolveData>, t: Topology)
    reads t
  {
    hs <= t.halfEdges && es <= t.edges && t.faces == fs && t.solveData == ss
  }

  /** What one unskipped record did: the piece it worked on, the vertex created for it, the piece current after it. */
  datatype Cut = Cut(piece: EdgeId, v: Vertex, next: EdgeId)

  /**
   * `c` is what the record with parameter `u` does to the current piece:
   * `v` lies near `piece.curve.point(u)`; the piece stays current exactly
   * when `v` is one of its ends; otherwise the piece is cut in two at `v`,
   * `next - 1` running from its start to `v` and `next` from `v` to its end.
   */
  ghost predicate CutAt(hs: seq<HalfEdge>, es: seq<Edge>, veq: (Point, Point) -> bool,
                        pointAt: (CurveId, real) -> Point, u: real, c: Cut)
  {
    && Ready(hs, es, c.piece) && Ready(hs, es, c.next)
    && Near(veq, pointAt(es[c.piece].curve, u), c.v)
    && ((c.v == Start(hs, es, c.piece) || c.v == End(hs, es, c.piece)) <==> c.next == c.piece)
    && (c.next != c.piece ==>
          && 0 < c.next && Ready(hs, es, c.next - 1)
          && Start(hs, es, c.next - 1) == Start(hs, es, c.piece) && End(hs, es, c.next - 1) == c.v
          && Start(hs, es, c.next) == c.v && End(hs, es, c.next) == End(hs, es, c.piece))
  }

  /** Growing the arena keeps a step described by `CutAt`. */
  lemma CutAtGrows(hs: seq<HalfEdge>, es: seq<Edge>, hs': seq<HalfEdge>, es': seq<Edge>,
                   veq: (Point, Point) -> bool, pointAt: (CurveId, real) -> Point, u: real, c: Cut)
    requires CutAt(hs, es, veq, pointAt, u, c) && hs <= hs' && es <= es'
    ensures CutAt(hs', es', veq, pointAt, u, c)
  {
    ReadyGrows(hs, es, hs', es', c.piece);
    ReadyGrows(hs, es, hs', es', c.next);
    assert es'[c.piece] == es[c.piece];
    if c.next != c.piece {
      ReadyGrows(hs, es, hs', es', c.next - 1);
    }
  }

  /**
   * One step of the last loop: a vertex is created at `curve.point(u)` on
   * the current piece and the piece is split there. The next current piece
   * is the second half when the split happened and the piece itself when
   * the vertex was one of its ends.
   */
  method CutOnce(t: Topology, factory: VertexFactory, last: EdgeId, u: real,
                 pointAt: (CurveId, real) -> Point, split: (CurveId, Point) -> (CurveId, CurveId))
    returns (next: EdgeId, ghost cut: Option<Vertex>, ghost c: Cut)
    requires t.Valid() && factory.Valid() && Ready(t.halfEdges, t.edges, last)
    modifies t, factory
    ensures t.Valid() && factory.Valid() && old(factory.vertices) <= factory.vertices
    ensures Grown(old(t.halfEdges), old(t.edges), old(t.faces), old(t.solveData), t)
    ensures CutAt(t.halfEdges, t.edges, factory.veq, pointAt, u, c) && c.piece == last && c.next == next
    ensures c.v in factory.vertices
    ensures Ready(t.halfEdges, t.edges, next)
    ensures End(t.halfEdges, t.edges, next) == old(End(t.halfEdges, t.edges, last))
    ensures cut.None? <==> next == last
    ensures cut.Some? ==> Start(t.halfEdges, t.edges, next) == cut.value && cut.value == c.v
  {
    var v := CreateNear(factory, pointAt(t.edges[last].curve, u));
    ghost var hs0, es0 := t.halfEdges, t.edges;
    var r := SplitEdge.SplitEdgeByVertex(t, last, v, split);
    if r.Some? {
      var n := |hs0|;
      assert t.edges[r.value.0] == Edge(split(es0[last].curve, v.point).0, n, n + 1);
      assert t.edges[r.value.1] == Edge(split(es0[last].curve, v.point).1, n + 2, n + 3);
      assert t.edges[last] == es0[last];
      next, cut := r.value.1, Some(v);
    } else {
      ReadyGrows(hs0, es0, t.halfEdges, t.edges, last);
      next, cut := last, None;
    }
    c := Cut(last, v, next);
  }

  lemma InGrown<T>(xs: seq<T>, a: seq<T>, b: seq<T>)
    requires (forall x | x in xs :: x in a) && a <= b
    ensures forall x | x in xs :: x in b
  {
    forall x | x in xs ensures x in b {
      var i :| 0 <= i < |a| && a[i] == x;
      assert b[i] == a[i];
    }
  }

  /**
   * The current piece `last` of edge `e` after the cuts `cuts`: it is ready
   * to be split, it ends where `e` ended, and it starts at the last vertex
   * cut at (or is `e` itself when nothing was cut); every cut vertex is in
   * the factory's pool.
   */
  ghost predicate Piece(hs: seq<HalfEdge>, es: seq<Edge>, pool: seq<Vertex>,
                        e: EdgeId, end: Vertex, last: EdgeId, cuts: seq<Vertex>)
  {
    && Ready(hs, es, last)
    && End(hs, es, last) == end
    && (cuts == [] ==> last == e)
    && (cuts != [] ==> Start(hs, es, last) == cuts[|cuts| - 1])
    && (forall v | v in cuts :: v in pool)
  }

  /** `CutOnce` keeps the current piece described by `Piece`, with at most one more cut. */
  method CutStep(t: Topology, factory: VertexFactory, e: EdgeId, ghost end: Vertex, last: EdgeId, u: real,
                 pointAt: (CurveId, real) -> Point, split: (CurveId, Point) -> (CurveId, CurveId),
                 ghost cuts: seq<Vertex>)
    returns (next: EdgeId, ghost cuts': seq<Vertex>, ghost c: Cut)
    requires t.Valid() && factory.Valid()
    requires Piece(t.halfEdges, t.edges, factory.vertices, e, end, last, cuts)
    modifies t, factory
    ensures t.Valid() && factory.Valid() && old(factory.vertices) <= factory.vertices
    ensures Grown(old(t.halfEdges), old(t.edges), old(t.faces), old(t.solveData), t)
    ensures Piece(t.halfEdges, t.edges, factory.vertices, e, end, next, cuts')
    ensures |cuts'| <= |cuts| + 1
    ensures CutAt(t.halfEdges, t.edges, factory.veq, pointAt, u, c) && c.piece == last && c.next == next
  {
    ghost var pool := factory.vertices;
    ghost var cut;
    next, cut, c := CutOnce(t, factory, last, u, pointAt, split);
    InGrown(cuts, pool, factory.vertices);
    cuts' := if cut.Some? then cuts + [cut.value] else cuts;
  }

  lemma UnskippedPrefix(ps: seq<EdgeParam>, k: nat)
    requires k < |ps|
    ensures Unskipped(ps[..k + 1]) == Unskipped(ps[..k]) + (if ps[k].skip then [] else [ps[k]])
  {
    assert ps[..k + 1] == ps[..k] + [ps[k]];
    UnskippedSnoc(ps[..k], ps[k]);
  }

  /**
   * `cs` is, in order, what each of the unskipped records `us` of edge `e`
   * did: the first works on `e`, each later one on the piece the one before
   * left current, and `last` is the piece current after all of them.
   */
  ghost predicate Trail(hs: seq<HalfEdge>, es: seq<Edge>, veq: (Point, Point) -> bool,
                        pointAt: (CurveId, real) -> Point, e: EdgeId, us: seq<EdgeParam>,
                        cs: seq<Cut>, last: EdgeId)
  {
    && |cs| == |us|
    && (forall i | 0 <= i < |cs| :: CutAt(hs, es, veq, pointAt, us[i].u, cs[i]))
    && (forall i | 0 < i < |cs| :: cs[i].piece == cs[i - 1].next)
    && (if cs == [] then last == e else cs[0].piece == e && cs[|cs| - 1].next == last)
  }

  /** Growing the arena keeps a trail. */
  lemma TrailGrows(hs: seq<HalfEdge>, es: seq<Edge>, hs': seq<HalfEdge>, es': seq<Edge>,
                   veq: (Point, Point) -> bool, pointAt: (CurveId, real) -> Point,
                   e: EdgeId, us: seq<EdgeParam>, cs: seq<Cut>, last: EdgeId)
    requires Trail(hs, es, veq, pointAt, e, us, cs, last) && hs <= hs' && es <= es'
    ensures Trail(hs', es', veq, pointAt, e, us, cs, last)
  {
    forall i | 0 <= i < |cs| ensures CutAt(hs', es', veq, pointAt, us[i].u, cs[i]) {
      CutAtGrows(hs, es, hs', es', veq, pointAt, us[i].u, cs[i]);
    }
  }

  /** A step on the current piece extends the trail by one record. */
  lemma TrailSnoc(hs: seq<HalfEdge>, es: seq<Edge>, veq: (Point, Point) -> bool,
                  pointAt: (CurveId, real) -> Point, e: EdgeId, us: seq<EdgeParam>,
                  cs: seq<Cut>, last: EdgeId, p: EdgeParam, c: Cut)
    requires Trail(hs, es, veq, pointAt, e, us, cs, last)
    requires CutAt(hs, es, veq, pointAt, p.u, c) && c.piece == last
    ensures Trail(hs, es, veq, pointAt, e, us + [p], cs + [c], c.next)
  {
    var cs', us' := cs + [c], us + [p];
    forall i | 0 <= i < |cs'| ensures CutAt(hs, es, veq, pointAt, us'[i].u, cs'[i]) {
      if i < |cs| {
        assert cs'[i] == cs[i] && us'[i] == us[i];
      }
    }
    forall i | 0 < i < |cs'| ensures cs'[i].piece == cs'[i - 1].next {
      if i < |cs| {
        assert cs'[i] == cs[i] && cs'[i - 1] == cs[i - 1];
      }
    }
  }

  /**
   * The state of the last loop for edge `e` after the records `done`: the
   * arena and the pool have only grown since `hs0`, `es0` and `pool0`, and
   * the current piece is described by `Piece`, with no more cuts than
   * unskipped records, and `cs` is the trail of the unskipped records.
   */
  ghost predicate Along(t: Topology, factory: VertexFactory, hs0: seq<HalfEdge>, es0: seq<Edge>,
                        fs0: seq<Face>, ss0: seq<EdgeSolveData>, pool0: seq<Vertex>,
                        pointAt: (CurveId, real) -> Point,
                        e: EdgeId, end: Vertex, done: seq<EdgeParam>, last: EdgeId, cuts: seq<Vertex>, cs: seq<Cut>)
    reads t, factory
  {
    && t.Valid() && factory.Valid() && pool0 <= factory.vertices
    && Grown(hs0, es0, fs0, ss0, t)
    && Piece(t.halfEdges, t.edges, factory.vertices, e, end, last, cuts)
    && |cuts| <= |Unskipped(done)|
    && Trail(t.halfEdges, t.edges, factory.veq, pointAt, e, Unskipped(done), cs, last)
  }

  /** One record of the last loop: skipped, or cut at with `CutStep`. */
  method AlongStep(t: Topology, factory: VertexFactory, ghost hs0: seq<HalfEdge>, ghost es0: seq<Edge>,
                   ghost fs0: seq<Face>, ghost ss0: seq<EdgeSolveData>, ghost pool0: seq<Vertex>,
                   e: EdgeId, ghost end: Vertex, ghost done: seq<EdgeParam>, p: EdgeParam,
                   pointAt: (CurveId, real) -> Point, split: (CurveId, Point) -> (CurveId, CurveId),
                   last: EdgeId, ghost cuts: seq<Vertex>, ghost cs: seq<Cut>)
    returns (next: EdgeId, ghost cuts': seq<Vertex>, ghost cs': seq<Cut>)
    requires Along(t, factory, hs0, es0, fs0, ss0, pool0, pointAt, e, end, done, last, cuts, cs)
    modifies t, factory
    ensures Along(t, factory, hs0, es0, fs0, ss0, pool0, pointAt, e, end, done + [p], next, cuts', cs')
  {
    UnskippedSnoc(done, p);
    if !p.skip {
      ghost var hs1, es1, pool1 := t.halfEdges, t.edges, factory.vertices;
      ghost var c;
      next, cuts', c := CutStep(t, factory, e, end, last, p.u, pointAt, split, cuts);
      PrefixTrans(hs0, hs1, t.halfEdges);
      PrefixTrans(es0, es1, t.edges);
      PrefixTrans(pool0, pool1, factory.vertices);
      TrailGrows(hs1, es1, t.halfEdges, t.edges, factory.veq, pointAt, e, Unskipped(done), cs, last);
      TrailSnoc(t.halfEdges, t.edges, factory.veq, pointAt, e, Unskipped(done), cs, last, p, c);
      cs' := cs + [c];
    } else {
      next, cuts', cs' := last, cuts, cs;
    }
  }

  /**
   * The last loop of `intersectEdges` for one edge `e`: at every unskipped
   * record, in order, a vertex is created at `e.curve.point(u)` and the
   * current piece is split there; after a split the current piece is the
   * second one. The returned piece still ends where `e` ended; it starts at
   * the last vertex cut at, or is `e` itself when nothing was cut; `cs`
   * records, one entry per unskipped record, the vertex created near its
   * point and whether it cut the piece (exactly when the vertex was not one
   * of the piece's ends).
   */
  method SplitAlong(t: Topology, factory: VertexFactory, e: EdgeId, ps: seq<EdgeParam>,
                    pointAt: (CurveId, real) -> Point, split: (CurveId, Point) -> (CurveId, CurveId))
    returns (last: EdgeId, ghost cuts: seq<Vertex>, ghost cs: seq<Cut>)
    requires t.Valid() && factory.Valid() && Ready(t.halfEdges, t.edges, e)
    modifies t, factory
    ensures Along(t, factory, old(t.halfEdges), old(t.edges), old(t.faces), old(t.solveData),
                  old(factory.vertices), pointAt, e, old(End(t.halfEdges, t.edges, e)), ps, last, cuts, cs)
  {
    last, cuts, cs := e, [], [];
    ghost var end := End(t.halfEdges, t.edges, e);
    ghost var hs0, es0, fs0, ss0, pool0 := t.halfEdges, t.edges, t.faces, t.solveData, factory.vertices;
    var k := 0;
    while k < |ps|
      invariant k <= |ps|
      invariant Along(t, factory, hs0, es0, fs0, ss0, pool0, pointAt, e, end, ps[..k], last, cuts, cs)
    {
      SliceSnoc(ps, k);
      last, cuts, cs := AlongStep(t, factory, hs0, es0, fs0, ss0, pool0, e, end, ps[..k], ps[k], pointAt, split,
                                  last, cuts, cs);
      k := k + 1;
    }
    assert ps[..k] == ps;
  }

  /** Growing the arena and the pool keeps a piece described by `Piece`. */
  lemma PieceGrows(hs: seq<HalfEdge>, es: seq<Edge>, pool: seq<Vertex>,
                   hs': seq<HalfEdge>, es': seq<Edge>, pool': seq<Vertex>,
                   e: EdgeId, end: Vertex, last: EdgeId, cuts: seq<Vertex>)
    requires Piece(hs, es, pool, e, end, last, cuts)
    requires hs <= hs' && es <= es' && pool <= pool'
    ensures Piece(hs', es', pool', e, end, last, cuts)
  {
    ReadyGrows(hs, es, hs', es', last);
    InGrown(cuts, pool, pool');
  }

  /**
   * The state of the last loop of `intersectEdges` after its first `i`
   * keys: every key was ready in the arena `(hs0, es0)`, and each of the
   * first `i` keys has its current piece `lasts[j]`, ending where the key
   * ended, after the cuts `cutss[j]`, with `css[j]` the trail of its
   * unskipped records.
   */
  ghost predicate AllAlong(t: Topology, factory: VertexFactory, hs0: seq<HalfEdge>, es0: seq<Edge>,
                           fs0: seq<Face>, ss0: seq<EdgeSolveData>, pool0: seq<Vertex>,
                           keys: seq<EdgeId>, m: map<EdgeId, seq<EdgeParam>>, i: nat,
                           pointAt: (CurveId, real) -> Point,
                           lasts: seq<EdgeId>, cutss: seq<seq<Vertex>>, css: seq<seq<Cut>>)
    reads t, factory
  {
    && t.Valid() && factory.Valid() && pool0 <= factory.vertices
    && Grown(hs0, es0, fs0, ss0, t)
    && i <= |keys| && |lasts| == i && |cutss| == i && |css| == i
    && (forall j | 0 <= j < |keys| :: Ready(hs0, es0, keys[j]))
    && (forall j | 0 <= j < i ::
          && Piece(t.halfEdges, t.edges, factory.vertices, keys[j], End(hs0, es0, keys[j]), lasts[j], cutss[j])
          && |cutss[j]| <= |Unskipped(ListAt(m, keys[j]))|
          && Trail(t.halfEdges, t.edges, factory.veq, pointAt, keys[j], Unskipped(ListAt(m, keys[j])), css[j], lasts[j]))
  }

  /** The last loop for the key `keys[i]`. */
  method SplitKey(t: Topology, factory: VertexFactory, ghost hs0: seq<HalfEdge>, ghost es0: seq<Edge>,
                  ghost fs0: seq<Face>, ghost ss0: seq<EdgeSolveData>, ghost pool0: seq<Vertex>,
                  keys: seq<EdgeId>, m: map<EdgeId, seq<EdgeParam>>, i: nat,
                  pointAt: (CurveId, real) -> Point, split: (CurveId, Point) -> (CurveId, CurveId),
                  lasts: seq<EdgeId>, ghost cutss: seq<seq<Vertex>>, ghost css: seq<seq<Cut>>)
    returns (lasts': seq<EdgeId>, ghost cutss': seq<seq<Vertex>>, ghost css': seq<seq<Cut>>)
    requires AllAlong(t, factory, hs0, es0, fs0, ss0, pool0, keys, m, i, pointAt, lasts, cutss, css) && i < |keys|
    modifies t, factory
    ensures AllAlong(t, factory, hs0, es0, fs0, ss0, pool0, keys, m, i + 1, pointAt, lasts', cutss', css')
  {
    ghost var hs1, es1, pool1 := t.halfEdges, t.edges, factory.vertices;
    ReadyGrows(hs0, es0, hs1, es1, keys[i]);
    var last, cuts, cs := SplitAlong(t, factory, keys[i], ListAt(m, keys[i]), pointAt, split);
    PrefixTrans(hs0, hs1, t.halfEdges);
    PrefixTrans(es0, es1, t.edges);
    PrefixTrans(pool0, pool1, factory.vertices);
    forall j | 0 <= j < i
      ensures Piece(t.halfEdges, t.edges, factory.vertices, keys[j], End(hs0, es0, keys[j]), lasts[j], cutss[j])
      ensures Trail(t.halfEdges, t.edges, factory.veq, pointAt, keys[j], Unskipped(ListAt(m, keys[j])), css[j], lasts[j])
    {
      PieceGrows(hs1, es1, pool1, t.halfEdges, t.edges, factory.vertices,
                 keys[j], End(hs0, es0, keys[j]), lasts[j], cutss[j]);
      TrailGrows(hs1, es1, t.halfEdges, t.edges, factory.veq, pointAt,
                 keys[j], Unskipped(ListAt(m, keys[j])), css[j], lasts[j]);
    }
    lasts', cutss', css' := lasts + [last], cutss + [cuts], css + [cs];
  }

  /**
   * The last loop of `intersectEdges`: every key's edge, in key order, is
   * split at its unskipped records. Splitting one edge leaves the others
   * as they were, so each key is still ready when its turn comes.
   */
  method SplitAll(t: Topology, factory: VertexFactory, keys: seq<EdgeId>, m: map<EdgeId, seq<EdgeParam>>,
                  pointAt: (CurveId, real) -> Point, split: (CurveId, Point) -> (CurveId, CurveId))
    returns (lasts: seq<EdgeId>, ghost cutss: seq<seq<Vertex>>, ghost css: seq<seq<Cut>>)
    requires t.Valid() && factory.Valid()
    requires forall e | e in keys :: Ready(t.halfEdges, t.edges, e)
    modifies t, factory
    ensures AllAlong(t, factory, old(t.halfEdges), old(t.edges), old(t.faces), old(t.solveData),
                     old(factory.vertices), keys, m, |keys|, pointAt, lasts, cutss, css)
  {
    ghost var hs0, es0, fs0, ss0, pool0 := t.halfEdges, t.edges, t.faces, t.solveData, factory.vertices;
    lasts, cutss, css := [], [], [];
    var i := 0;
    while i < |keys|
      invariant AllAlong(t, factory, hs0, es0, fs0, ss0, pool0, keys, m, i, pointAt, lasts, cutss, css)
    {
      lasts, cutss, css := SplitKey(t, factory, hs0, es0, fs0, ss0, pool0, keys, m, i, pointAt, split,
                                    lasts, cutss, css);
      i := i + 1;
    }
  }

  /** `AllAlong` still holds when counted from an earlier, shorter pool. */
  lemma AllAlongFrom(t: Topology, factory: VertexFactory, hs0: seq<HalfEdge>, es0: seq<Edge>,
                     fs0: seq<Face>, ss0: seq<EdgeSolveData>, pool0: seq<Vertex>, pool1: seq<Vertex>,
                     keys: seq<EdgeId>, m: map<EdgeId, seq<EdgeParam>>, i: nat,
                     pointAt: (CurveId, real) -> Point,
                     lasts: seq<EdgeId>, cutss: seq<seq<Vertex>>, css: seq<seq<Cut>>)
    requires AllAlong(t, factory, hs0, es0, fs0, ss0, pool1, keys, m, i, pointAt, lasts, cutss, css) && pool0 <= pool1
    ensures AllAlong(t, factory, hs0, es0, fs0, ss0, pool0, keys, m, i, pointAt, lasts, cutss, css)
  {
    PrefixTrans(pool0, pool1, factory.vertices);
  }

  /** Filled holders stay filled when the pool grows. */
  lemma FilledGrows(es: seq<Edge>, veq: (Point, Point) -> bool, pointAt: (CurveId, real) -> Point,
                    vs: seq<(EdgeId, EdgeParam)>, holders: map<HolderId, Vertex>, pool: seq<Vertex>, pool': seq<Vertex>)
    requires Filled(es, veq, pointAt, vs, holders, pool) && pool <= pool'
    ensures Filled(es, veq, pointAt, vs, holders, pool')
  {
    forall h | h in holders ensures holders[h] in pool' {
      var i :| 0 <= i < |pool| && pool[i] == holders[h];
      assert pool'[i] == pool[i];
    }
  }

  // ---------------------------------------------------------------------
  // The whole operation
  // ---------------------------------------------------------------------

  /**
   * What the first two loops of `intersectEdges` leave: the keys are the
   * edges some intersection point lies on, in the order `addIsesc` first
   * met them, all of them edges of the two shells; each key's list holds
   * its points sorted by parameter, a permutation of what the pairs
   * reported, with only its ends possibly marked.
   */
  ghost predicate Prepped(es1: seq<EdgeId>, es2: seq<EdgeId>, hits: Hits, ueq: (real, real) -> bool,
                          keys: seq<EdgeId>, m: map<EdgeId, seq<EdgeParam>>)
  {
    && keys == MergeFaces.Dedup(KeysOf(Crossings(es1, es2, |es1|, hits)))
    && (forall e | e in keys :: e in es1 || e in es2)
    && (forall e :: e in m <==> e in keys)
    && (forall e | e in m ::
          var ps := ParamsOf(e, Crossings(es1, es2, |es1|, hits));
          && ps != [] && m[e] == Prepared(ps, ueq)
          && SortedByU(m[e]) && multiset(Unmarked(m[e])) == multiset(ps))
  }

  /**
   * The first two loops of `intersectEdges`: the keys are the edges some
   * intersection point lies on, in the order `addIsesc` first met them, all
   * of them edges of the two shells; each key's list holds its points
   * sorted by parameter, a permutation of what the pairs reported, with
   * only its ends possibly marked.
   */
  method PrepareLists(es1: seq<EdgeId>, es2: seq<EdgeId>, hits: Hits, ueq: (real, real) -> bool)
    returns (keys: seq<EdgeId>, m: map<EdgeId, seq<EdgeParam>>)
    ensures Prepped(es1, es2, hits, ueq, keys, m)
  {
    ghost var cs := Crossings(es1, es2, |es1|, hits);
    var m0: map<EdgeId, seq<EdgeParam>>;
    keys, m0 := Group(es1, es2, hits);
    CrossingsFrom(es1, es2, |es1|, hits);
    KeysFrom(cs, es1 + es2);
    forall e | e in keys ensures e in es1 || e in es2 {
      assert e in KeysOf(cs);
      assert e in es1 + es2;
    }
    forall e | e in m0 ensures m0[e] != [] && forall q | q in m0[e] :: !q.skip {
      assert ListAt(m0, e) == ParamsOf(e, cs);
      ParamsUnmarked(e, cs);
    }
    m := SortAndMark(keys, m0, ueq);
    forall e | e in m
      ensures SortedByU(m[e]) && multiset(Unmarked(m[e])) == multiset(ParamsOf(e, cs))
    {
      assert ListAt(m0, e) == ParamsOf(e, cs);
      PreparedSorted(m0[e], ueq);
    }
  }

  /**
   * `intersectEdges(shell1, shell2)` over the edges `es1` of shell 1 and
   * `es2` of shell 2: the keys and lists are those of `PrepareLists`; every
   * holder is filled from the first record that holds it; and every key's
   * edge was split along its unskipped records, in order, each record's
   * vertex created near its point on the current piece and cutting that
   * piece unless it is one of its ends, the last piece ending where the
   * edge ended.
   */
  method IntersectEdges(t: Topology, factory: VertexFactory, es1: seq<EdgeId>, es2: seq<EdgeId>, hits: Hits,
                        ueq: (real, real) -> bool, pointAt: (CurveId, real) -> Point,
                        split: (CurveId, Point) -> (CurveId, CurveId))
    returns (keys: seq<EdgeId>, m: map<EdgeId, seq<EdgeParam>>, holders: map<HolderId, Vertex>,
             lasts: seq<EdgeId>, ghost cutss: seq<seq<Vertex>>, ghost css: seq<seq<Cut>>)
    requires t.Valid() && factory.Valid()
    requires forall e | e in es1 || e in es2 :: Ready(t.halfEdges, t.edges, e)
    modifies t, factory
    ensures Prepped(es1, es2, hits, ueq, keys, m)
    ensures Filled(old(t.edges), factory.veq, pointAt, Visits(keys, m, |keys|), holders, factory.vertices)
    ensures AllAlong(t, factory, old(t.halfEdges), old(t.edges), old(t.faces), old(t.solveData),
                     old(factory.vertices), keys, m, |keys|, pointAt, lasts, cutss, css)
  {
    ghost var hs0, es0, fs0, ss0, pool0 := t.halfEdges, t.edges, t.faces, t.solveData, factory.vertices;
    keys, m := PrepareLists(es1, es2, hits, ueq);
    holders := FillHolders(t, factory, keys, m, pointAt);
    ghost var pool1 := factory.vertices;
    lasts, cutss, css := SplitAll(t, factory, keys, m, pointAt, split);
    AllAlongFrom(t, factory, hs0, es0, fs0, ss0, pool0, pool1, keys, m, |keys|, pointAt, lasts, cutss, css);
    FilledGrows(es0, factory.veq, pointAt, Visits(keys, m, |keys|), holders, pool1, factory.vertices);
  }
}
