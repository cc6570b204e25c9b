/**
 * The edge-parameter bookkeeping of `intersectEdges` in
 * web/app/brep/operations/boolean.js. Every edge of shell 1 is intersected
 * with every edge of shell 2; the curve parameters of the intersection
 * points are grouped per edge (`addIsesc`), each edge's list is sorted by
 * parameter and its first and last entries are marked to be skipped when
 * they lie at the curve's start or end, the shared vertex holders are
 * filled, and finally each edge is split at its remaining parameters in
 * ascending order, always splitting the piece that holds the rest.
 *
 * Curve intersection, curve evaluation and curve splitting are geometry
 * and are passed in as functions; `ueq` is the parameter tolerance test.
 */
module EdgeParams {
  import opened Wrappers
  import opened Geometry
  import opened Topology
  import opened ListMaps
  import opened VertexPool
  import SplitEdge
  import MergeFaces

  /** One point of `intersectCurve`: its parameter on the first curve (`u0`) and on the second (`u1`). */
  datatype CurveHit = CurveHit(u0: real, u1: real)

  /**
   * The `vertexHolder` array built for one intersecting pair of edges: the
   * pair is the `row`-th edge of shell 1 and the `col`-th edge of shell 2.
   * Both edges' records of that pair hold the very same array.
   */
  datatype HolderId = HolderId(row: nat, col: nat)

  /** A record `{u, vertexHolder, skip}`; an absent `skip` is `false`. */
  datatype EdgeParam = EdgeParam(u: real, holder: HolderId, skip: bool)

  /** The intersection points of two edges' curves, as `intersectCurve` reports them. */
  type Hits = (EdgeId, EdgeId) -> seq<CurveHit>

  /**
   * One pair `(e1, e2)` of the double loop: `e1` is the `row`-th edge of
   * shell 1, `e2` the `col`-th edge of shell 2, `holder` is
   * `HolderId(row, col)` and `pts` what `intersectCurve` reported.
   */
  datatype Crossing = Crossing(e1: EdgeId, e2: EdgeId, holder: HolderId, pts: seq<CurveHit>)

  // ---------------------------------------------------------------------
  // The pairs of the double loop, in loop order
  // ---------------------------------------------------------------------

  /** The pairs `(e1, es2[0])`, ..., `(e1, es2[n - 1])` with `e1` in row `row`. */
  function RowCrossings(e1: EdgeId, row: nat, es2: seq<EdgeId>, n: nat, hits: Hits): (r: seq<Crossing>)
    requires n <= |es2|
    ensures |r| == n
    ensures forall k | 0 <= k < n :: r[k] == Crossing(e1, es2[k], HolderId(row, k), hits(e1, es2[k]))
  {
    if n == 0 then []
    else RowCrossings(e1, row, es2, n - 1, hits) + [Crossing(e1, es2[n - 1], HolderId(row, n - 1), hits(e1, es2[n - 1]))]
  }

  /** The pairs of the first `n` rows, row by row. */
  function Crossings(es1: seq<EdgeId>, es2: seq<EdgeId>, n: nat, hits: Hits): (r: seq<Crossing>)
    requires n <= |es1|
  {
    if n == 0 then []
    else Crossings(es1, es2, n - 1, hits) + RowCrossings(es1[n - 1], n - 1, es2, |es2|, hits)
  }

  /** Every pair of the first `n` rows is among the pairs, with its own holder and points. */
  lemma {:induction false} CrossingIn(es1: seq<EdgeId>, es2: seq<EdgeId>, n: nat, hits: Hits, i: nat, j: nat)
    requires n <= |es1| && i < n && j < |es2|
    ensures Crossing(es1[i], es2[j], HolderId(i, j), hits(es1[i], es2[j])) in Crossings(es1, es2, n, hits)
  {
    var prev := Crossings(es1, es2, n - 1, hits);
    var row := RowCrossings(es1[n - 1], n - 1, es2, |es2|, hits);
    assert Crossings(es1, es2, n, hits) == prev + row;
    if i < n - 1 {
      CrossingIn(es1, es2, n - 1, hits, i, j);
    } else {
      assert row[j] == Crossing(es1[i], es2[j], HolderId(i, j), hits(es1[i], es2[j]));
    }
  }

  // ---------------------------------------------------------------------
  // Grouping: what `isecs` holds after the pairs `cs`
  // ---------------------------------------------------------------------

  /** `points.map(p => ({u: p.u0, vertexHolder}))`. */
  function OnFirst(pts: seq<CurveHit>, h: HolderId): (r: seq<EdgeParam>)
    ensures |r| == |pts|
    ensures forall k | 0 <= k < |pts| :: r[k] == EdgeParam(pts[k].u0, h, false)
  {
    seq(|pts|, k requires 0 <= k < |pts| => EdgeParam(pts[k].u0, h, false))
  }

  /** `points.map(p => ({u: p.u1, vertexHolder}))`. */
  function OnSecond(pts: seq<CurveHit>, h: HolderId): (r: seq<EdgeParam>)
    ensures |r| == |pts|
    ensures forall k | 0 <= k < |pts| :: r[k] == EdgeParam(pts[k].u1, h, false)
  {
    seq(|pts|, k requires 0 <= k < |pts| => EdgeParam(pts[k].u1, h, false))
  }

  /** What pair `c` adds to edge `e`'s list: `c.e1`'s records first, then `c.e2`'s. */
  function Contribution(e: EdgeId, c: Crossing): (r: seq<EdgeParam>)
    ensures |r| == (if c.e1 == e then |c.pts| else 0) + (if c.e2 == e then |c.pts| else 0)
  {
    (if c.e1 == e then OnFirst(c.pts, c.holder) else []) + (if c.e2 == e then OnSecond(c.pts, c.holder) else [])
  }

  /** Edge `e`'s records after the pairs `cs`, in pair order. */
  function ParamsOf(e: EdgeId, cs: seq<Crossing>): seq<EdgeParam>
  {
    if cs == [] then [] else ParamsOf(e, cs[..|cs| - 1]) + Contribution(e, cs[|cs| - 1])
  }

  /** The edges `addIsesc` is called with for pair `c`. */
  function KeysOfPair(c: Crossing): seq<EdgeId>
  {
    if |c.pts| != 0 then [c.e1, c.e2] else []
  }

  /** The edges `addIsesc` is called with for the pairs `cs`, with repeats. */
  function KeysOf(cs: seq<Crossing>): seq<EdgeId>
  {
    if cs == [] then [] else KeysOf(cs[..|cs| - 1]) + KeysOfPair(cs[|cs| - 1])
  }

  lemma ParamsSnoc(e: EdgeId, cs: seq<Crossing>, c: Crossing)
    ensures ParamsOf(e, cs + [c]) == ParamsOf(e, cs) + Contribution(e, c)
  {
    assert (cs + [c])[..|cs|] == cs;
  }

  lemma KeysSnoc(cs: seq<Crossing>, c: Crossing)
    ensures KeysOf(cs + [c]) == KeysOf(cs) + KeysOfPair(c)
  {
    assert (cs + [c])[..|cs|] == cs;
  }

  /** An edge is called with `addIsesc` exactly when some pair gives it records. */
  lemma {:induction false} KeysMatch(e: EdgeId, cs: seq<Crossing>)
    ensures e in KeysOf(cs) <==> ParamsOf(e, cs) != []
  {
    if cs != [] {
      var init, c := cs[..|cs| - 1], cs[|cs| - 1];
      KeysMatch(e, init);
      LastSplit(cs);
      KeysSnoc(init, c);
      ParamsSnoc(e, init, c);
      var ks, ps := KeysOf(init), ParamsOf(e, init);
      assert e in KeysOf(cs) <==> e in ks || e in KeysOfPair(c);
      assert |ParamsOf(e, cs)| == |ps| + |Contribution(e, c)|;
    }
  }

  /** `addIsesc(e, params)`: a new key is appended with `params` as its list; otherwise the list is extended. */
  function AddParams(keys: seq<EdgeId>, m: map<EdgeId, seq<EdgeParam>>, e: EdgeId, params: seq<EdgeParam>)
    : (r: (seq<EdgeId>, map<EdgeId, seq<EdgeParam>>))
  {
    if e in m then (keys, m[e := m[e] + params]) else (keys + [e], m[e := params])
  }

  /** The state of `isecs` after the pairs `cs`: its keys in insertion order and the list under each. */
  ghost predicate Grouping(cs: seq<Crossing>, keys: seq<EdgeId>, m: map<EdgeId, seq<EdgeParam>>)
  {
    && keys == MergeFaces.Dedup(KeysOf(cs))
    && (forall e :: e in m <==> e in keys)
    && (forall e :: e in m ==> m[e] != [])
    && (forall e :: ListAt(m, e) == ParamsOf(e, cs))
  }

  lemma DedupSnoc(s: seq<EdgeId>, x: EdgeId)
    ensures MergeFaces.Dedup(s + [x]) ==
      if x in MergeFaces.Dedup(s) then MergeFaces.Dedup(s) else MergeFaces.Dedup(s) + [x]
  {
    assert (s + [x])[..|s|] == s;
  }

  /** `addIsesc` appends to the list under its key and to nothing else. */
  lemma AddParamsMeans(keys: seq<EdgeId>, m: map<EdgeId, seq<EdgeParam>>, e: EdgeId, params: seq<EdgeParam>, x: EdgeId)
    ensures ListAt(AddParams(keys, m, e, params).1, x) == ListAt(m, x) + (if x == e then params else [])
    ensures x in AddParams(keys, m, e, params).1 <==> x in m || x == e
  {
  }

  /** `addIsesc` keeps the keys the insertion-ordered set of the edges added so far. */
  lemma DedupAdd(keys: seq<EdgeId>, m: map<EdgeId, seq<EdgeParam>>, before: seq<EdgeId>, e: EdgeId, params: seq<EdgeParam>,
                 r: (seq<EdgeId>, map<EdgeId, seq<EdgeParam>>))
    requires keys == MergeFaces.Dedup(before) && forall x :: x in m <==> x in keys
    requires params != [] && forall x :: x in m ==> m[x] != []
    requires r == AddParams(keys, m, e, params)
    ensures r.0 == MergeFaces.Dedup(before + [e])
    ensures forall x :: x in r.1 <==> x in r.0
    ensures forall x :: x in r.1 ==> r.1[x] != []
  {
    DedupSnocKeys(keys, before, e, e in m);
    AddedMap(keys, m, e, params, r.0, r.1);
  }

  /** The insertion-ordered set grows by `e` exactly when `e` is new. */
  lemma DedupSnocKeys(keys: seq<EdgeId>, before: seq<EdgeId>, e: EdgeId, seen: bool)
    requires keys == MergeFaces.Dedup(before) && (seen <==> e in keys)
    ensures MergeFaces.Dedup(before + [e]) == if seen then keys else keys + [e]
  {
    DedupSnoc(before, e);
  }

  /** After `addIsesc`, the map's keys are the new key list and no list is empty. */
  lemma AddedMap(keys: seq<EdgeId>, m: map<EdgeId, seq<EdgeParam>>, e: EdgeId, params: seq<EdgeParam>,
                 keys': seq<EdgeId>, m': map<EdgeId, seq<EdgeParam>>)
    requires forall x :: x in m <==> x in keys
    requires params != [] && forall x :: x in m ==> m[x] != []
    requires (keys', m') == AddParams(keys, m, e, params)
    ensures keys' == if e in m then keys else keys + [e]
    ensures forall x :: x in m' <==> x in keys'
    ensures forall x :: x in m' ==> m'[x] != []
  {
  }

  /** The keys after one more pair that intersects. */
  lemma PairKeys(cs: seq<Crossing>, c: Crossing, keys: seq<EdgeId>, m: map<EdgeId, seq<EdgeParam>>,
                 s1: (seq<EdgeId>, map<EdgeId, seq<EdgeParam>>), s2: (seq<EdgeId>, map<EdgeId, seq<EdgeParam>>))
    requires keys == MergeFaces.Dedup(KeysOf(cs)) && forall e :: e in m <==> e in keys
    requires forall e :: e in m ==> m[e] != []
    requires c.pts != []
    requires s1 == AddParams(keys, m, c.e1, OnFirst(c.pts, c.holder))
    requires s2 == AddParams(s1.0, s1.1, c.e2, OnSecond(c.pts, c.holder))
    ensures s2.0 == MergeFaces.Dedup(KeysOf(cs + [c]))
    ensures forall e :: e in s2.1 <==> e in s2.0
    ensures forall e :: e in s2.1 ==> s2.1[e] != []
  {
    var before := KeysOf(cs);
    KeysSnoc(cs, c);
    AppendAssoc(before, [c.e1], [c.e2]);
    assert [c.e1] + [c.e2] == [c.e1, c.e2];
    DedupAdd(keys, m, before, c.e1, OnFirst(c.pts, c.holder), s1);
    DedupAdd(s1.0, s1.1, before + [c.e1], c.e2, OnSecond(c.pts, c.holder), s2);
  }

  /** The lists after one more pair that intersects. */
  lemma PairLists(cs: seq<Crossing>, c: Crossing, keys: seq<EdgeId>, m: map<EdgeId, seq<EdgeParam>>,
                  s1: (seq<EdgeId>, map<EdgeId, seq<EdgeParam>>), s2: (seq<EdgeId>, map<EdgeId, seq<EdgeParam>>))
    requires forall e :: ListAt(m, e) == ParamsOf(e, cs)
    requires s1 == AddParams(keys, m, c.e1, OnFirst(c.pts, c.holder))
    requires s2 == AddParams(s1.0, s1.1, c.e2, OnSecond(c.pts, c.holder))
    ensures forall e :: ListAt(s2.1, e) == ParamsOf(e, cs + [c])
  {
    var A, B := OnFirst(c.pts, c.holder), OnSecond(c.pts, c.holder);
    forall x ensures ListAt(s2.1, x) == ParamsOf(x, cs + [c]) {
      AddParamsMeans(keys, m, c.e1, A, x);
      AddParamsMeans(s1.0, s1.1, c.e2, B, x);
      AppendAssoc(ListAt(m, x), if x == c.e1 then A else [], if x == c.e2 then B else []);
      ParamsSnoc(x, cs, c);
    }
  }

  /** The two `addIsesc` calls of a pair that intersects keep the state of `isecs`. */
  lemma GroupingAdd(cs: seq<Crossing>, c: Crossing, keys: seq<EdgeId>, m: map<EdgeId, seq<EdgeParam>>,
                    s1: (seq<EdgeId>, map<EdgeId, seq<EdgeParam>>), s2: (seq<EdgeId>, map<EdgeId, seq<EdgeParam>>))
    requires Grouping(cs, keys, m) && c.pts != []
    requires s1 == AddParams(keys, m, c.e1, OnFirst(c.pts, c.holder))
    requires s2 == AddParams(s1.0, s1.1, c.e2, OnSecond(c.pts, c.holder))
    ensures Grouping(cs + [c], s2.0, s2.1)
  {
    PairKeys(cs, c, keys, m, s1, s2);
    PairLists(cs, c, keys, m, s1, s2);
  }

  /** A pair that does not intersect changes nothing. */
  lemma GroupingSkip(cs: seq<Crossing>, c: Crossing, keys: seq<EdgeId>, m: map<EdgeId, seq<EdgeParam>>)
    requires Grouping(cs, keys, m) && c.pts == []
    ensures Grouping(cs + [c], keys, m)
  {
    KeysSnoc(cs, c);
    AppendNil(KeysOf(cs));
    forall x ensures ListAt(m, x) == ParamsOf(x, cs + [c]) {
      ParamsSnoc(x, cs, c);
      AppendNil(ParamsOf(x, cs));
    }
  }

  /** In the state after `cs`, an edge is a key exactly when the pairs give it records. */
  lemma GroupingMeans(cs: seq<Crossing>, keys: seq<EdgeId>, m: map<EdgeId, seq<EdgeParam>>)
    requires Grouping(cs, keys, m)
    ensures keys == MergeFaces.Dedup(KeysOf(cs))
    ensures forall e :: e in m <==> e in keys
    ensures forall e :: e in m <==> ParamsOf(e, cs) != []
    ensures forall e :: ListAt(m, e) == ParamsOf(e, cs)
  {
    assert forall e :: e in m <==> ListAt(m, e) != [];
  }

  /**
   * The inner loop of `intersectEdges` for row `i`: each intersecting pair
   * `(es1[i], es2[j])` calls `addIsesc` for both edges, their records
   * sharing one vertex holder.
   */
  method AddRow(es1: seq<EdgeId>, es2: seq<EdgeId>, hits: Hits, i: nat, ghost done0: seq<Crossing>,
                keys0: seq<EdgeId>, m0: map<EdgeId, seq<EdgeParam>>)
    returns (keys: seq<EdgeId>, m: map<EdgeId, seq<EdgeParam>>)
    requires i < |es1|
    requires Grouping(done0, keys0, m0)
    ensures Grouping(done0 + RowCrossings(es1[i], i, es2, |es2|, hits), keys, m)
  {
    keys, m := keys0, m0;
    AppendNil(done0);
    for j := 0 to |es2|
      invariant Grouping(done0 + RowCrossings(es1[i], i, es2, j, hits), keys, m)
    {
      keys, m := AddRowStep(es1, es2, hits, i, j, done0, keys, m);
    }
  }

  /** Pair `(es1[i], es2[j])` of the inner loop, after the pairs before it in the row. */
  method AddRowStep(es1: seq<EdgeId>, es2: seq<EdgeId>, hits: Hits, i: nat, j: nat, ghost done0: seq<Crossing>,
                    keys0: seq<EdgeId>, m0: map<EdgeId, seq<EdgeParam>>)
    returns (keys: seq<EdgeId>, m: map<EdgeId, seq<EdgeParam>>)
    requires i < |es1| && j < |es2|
    requires Grouping(done0 + RowCrossings(es1[i], i, es2, j, hits), keys0, m0)
    ensures Grouping(done0 + RowCrossings(es1[i], i, es2, j + 1, hits), keys, m)
  {
    var c := Crossing(es1[i], es2[j], HolderId(i, j), hits(es1[i], es2[j]));
    keys, m := AddPair(done0 + RowCrossings(es1[i], i, es2, j, hits), c, keys0, m0);
    AppendAssoc(done0, RowCrossings(es1[i], i, es2, j, hits), [c]);
  }

  /** The body of the inner loop: both edges of an intersecting pair get their records. */
  method AddPair(ghost done: seq<Crossing>, c: Crossing, keys0: seq<EdgeId>, m0: map<EdgeId, seq<EdgeParam>>)
    returns (keys: seq<EdgeId>, m: map<EdgeId, seq<EdgeParam>>)
    requires Grouping(done, keys0, m0)
    ensures Grouping(done + [c], keys, m)
  {
    if c.pts != [] {
      var s1 := AddParams(keys0, m0, c.e1, OnFirst(c.pts, c.holder));
      var s2 := AddParams(s1.0, s1.1, c.e2, OnSecond(c.pts, c.holder));
      GroupingAdd(done, c, keys0, m0, s1, s2);
      keys, m := s2.0, s2.1;
    } else {
      GroupingSkip(done, c, keys0, m0);
      keys, m := keys0, m0;
    }
  }

  /**
   * The double loop of `intersectEdges` with `addIsesc`: the keys of
   * `isecs` in insertion order, and the list under each key. An edge is a
   * key exactly when some pair gives it records, and its list holds them in
   * pair order.
   */
  method Group(es1: seq<EdgeId>, es2: seq<EdgeId>, hits: Hits)
    returns (keys: seq<EdgeId>, m: map<EdgeId, seq<EdgeParam>>)
    ensures keys == MergeFaces.Dedup(KeysOf(Crossings(es1, es2, |es1|, hits)))
    ensures forall e :: e in m <==> e in keys
    ensures forall e :: e in m <==> ParamsOf(e, Crossings(es1, es2, |es1|, hits)) != []
    ensures forall e :: ListAt(m, e) == ParamsOf(e, Crossings(es1, es2, |es1|, hits))
  {
    keys, m := [], map[];
    ghost var done: seq<Crossing> := [];
    var i := 0;
    while i < |es1|
      invariant i <= |es1|
      invariant done == Crossings(es1, es2, i, hits)
      invariant Grouping(done, keys, m)
    {
      keys, m := AddRow(es1, es2, hits, i, done, keys, m);
      done := done + RowCrossings(es1[i], i, es2, |es2|, hits);
      i := i + 1;
    }
    GroupingMeans(Crossings(es1, es2, |es1|, hits), keys, m);
  }

  /** The grouped records carry no `skip` mark yet. */
  lemma {:induction false} ParamsUnmarked(e: EdgeId, cs: seq<Crossing>)
    ensures forall q | q in ParamsOf(e, cs) :: !q.skip
  {
    if cs != [] {
      ParamsUnmarked(e, cs[..|cs| - 1]);
    }
  }

  /** Every pair of the double loop joins an edge of shell 1 with an edge of shell 2. */
  lemma {:induction false} CrossingsFrom(es1: seq<EdgeId>, es2: seq<EdgeId>, n: nat, hits: Hits)
    requires n <= |es1|
    ensures forall c | c in Crossings(es1, es2, n, hits) :: c.e1 in es1 && c.e2 in es2
  {
    if n > 0 {
      var prev, row := Crossings(es1, es2, n - 1, hits), RowCrossings(es1[n - 1], n - 1, es2, |es2|, hits);
      CrossingsFrom(es1, es2, n - 1, hits);
      RowFrom(es1[n - 1], n - 1, es2, hits);
      forall c: Crossing | c in prev + row ensures c.e1 in es1 && c.e2 in es2 {
        if c !in prev {
          assert c.e1 == es1[n - 1];
        }
      }
    }
  }

  /** Every pair of a row joins the row's edge with an edge of shell 2. */
  lemma RowFrom(e1: EdgeId, row: nat, es2: seq<EdgeId>, hits: Hits)
    ensures forall c | c in RowCrossings(e1, row, es2, |es2|, hits) :: c.e1 == e1 && c.e2 in es2
  {
    var r := RowCrossings(e1, row, es2, |es2|, hits);
    forall c | c in r ensures c.e1 == e1 && c.e2 in es2 {
      var k :| 0 <= k < |r| && r[k] == c;
    }
  }

  /** The edges `addIsesc` is called with are edges of the pairs. */
  lemma {:induction false} KeysFrom(cs: seq<Crossing>, es: seq<EdgeId>)
    requires forall c | c in cs :: c.e1 in es && c.e2 in es
    ensures forall e | e in KeysOf(cs) :: e in es
  {
    if cs != [] {
      assert forall c | c in cs[..|cs| - 1] :: c in cs;
      KeysFrom(cs[..|cs| - 1], es);
      assert cs[|cs| - 1] in cs;
    }
  }

  // ---------------------------------------------------------------------
  // Sorting each list by parameter and marking its ends
  // ---------------------------------------------------------------------

  /** The records are in ascending parameter order. */
  predicate SortedByU(ps: seq<EdgeParam>)
  {
    forall i, j | 0 <= i < j < |ps| :: ps[i].u <= ps[j].u
  }

  /** `p` goes in front of the first record whose parameter is not below its own. */
  function InsertByU(p: EdgeParam, ps: seq<EdgeParam>): (r: seq<EdgeParam>)
    requires SortedByU(ps)
    ensures SortedByU(r)
    ensures multiset(r) == multiset(ps) + multiset{p}
    ensures |r| == |ps| + 1
  {
    if ps == [] || p.u <= ps[0].u then
      SortedCons(p, ps);
      [p] + ps
    else
      var rest := InsertByU(p, ps[1..]);
      HeadBelowInsert(p, ps, rest);
      SortedCons(ps[0], rest);
      [ps[0]] + rest
  }

  /** A record at or below the head of a sorted list, put in front, keeps it sorted. */
  lemma SortedCons(x: EdgeParam, ps: seq<EdgeParam>)
    requires SortedByU(ps) && (ps == [] || x.u <= ps[0].u)
    ensures SortedByU([x] + ps) && multiset([x] + ps) == multiset(ps) + multiset{x}
  {
    var r := [x] + ps;
    forall i, j | 0 <= i < j < |r| ensures r[i].u <= r[j].u {
      if i == 0 {
        assert r[j] == ps[j - 1];
        assert ps[0].u <= ps[j - 1].u || j == 1;
      } else {
        assert r[i] == ps[i - 1] && r[j] == ps[j - 1];
      }
    }
  }

  /** The head of a sorted list is at or below every record of an insertion into its tail. */
  lemma HeadBelowInsert(p: EdgeParam, ps: seq<EdgeParam>, rest: seq<EdgeParam>)
    requires SortedByU(ps) && ps != [] && ps[0].u < p.u
    requires multiset(rest) == multiset(ps[1..]) + multiset{p}
    ensures SortedByU(rest) ==> rest == [] || ps[0].u <= rest[0].u
    ensures multiset([ps[0]] + rest) == multiset(ps) + multiset{p}
  {
    assert ps == [ps[0]] + ps[1..];
    if rest != [] {
      var q := rest[0];
      assert q in multiset(rest);
      if q != p {
        assert q in multiset(ps[1..]);
        var k :| 0 <= k < |ps[1..]| && ps[1..][k] == q;
        assert ps[k + 1] == q;
      }
    }
  }

  /**
   * `points.sort((p1, p2) => p1.u - p2.u)`: the records in ascending
   * parameter order, the same records as before.
   */
  function SortByU(ps: seq<EdgeParam>): (r: seq<EdgeParam>)
    ensures SortedByU(r)
    ensures multiset(r) == multiset(ps)
    ensures |r| == |ps|
  {
    if ps == [] then []
    else
      assert ps == [ps[0]] + ps[1..];
      InsertByU(ps[0], SortByU(ps[1..]))
  }

  /**
   * The first record is marked `skip` when its parameter is `ueq` to 0 (the
   * curve's start) and the last one when its parameter is `ueq` to 1 (the
   * curve's end); nothing else changes.
   */
  function MarkEnds(ps: seq<EdgeParam>, ueq: (real, real) -> bool): (r: seq<EdgeParam>)
    requires ps != []
    ensures |r| == |ps|
    ensures forall k | 0 <= k < |ps| ::
      && r[k].u == ps[k].u && r[k].holder == ps[k].holder
      && (r[k].skip <==> ps[k].skip || (k == 0 && ueq(ps[k].u, 0.0)) || (k == |ps| - 1 && ueq(ps[k].u, 1.0)))
  {
    var first := if ueq(ps[0].u, 0.0) then ps[0].(skip := true) else ps[0];
    var ps1 := ps[0 := first];
    var last := ps1[|ps1| - 1];
    ps1[|ps1| - 1 := if ueq(last.u, 1.0) then last.(skip := true) else last]
  }

  /** The records of one edge after the second loop of `intersectEdges`. */
  function Prepared(ps: seq<EdgeParam>, ueq: (real, real) -> bool): seq<EdgeParam>
    requires ps != []
  {
    MarkEnds(SortByU(ps), ueq)
  }

  /** The records with every `skip` mark taken off. */
  function Unmarked(ps: seq<EdgeParam>): (r: seq<EdgeParam>)
    ensures |r| == |ps| && forall k | 0 <= k < |ps| :: r[k] == ps[k].(skip := false)
  {
    seq(|ps|, k requires 0 <= k < |ps| => ps[k].(skip := false))
  }

  /**
   * A prepared list of unmarked records is in ascending parameter order and,
   * but for its marks, a permutation of the list it was prepared from.
   */
  lemma PreparedSorted(ps: seq<EdgeParam>, ueq: (real, real) -> bool)
    requires ps != [] && forall q | q in ps :: !q.skip
    ensures SortedByU(Prepared(ps, ueq))
    ensures multiset(Unmarked(Prepared(ps, ueq))) == multiset(ps)
  {
    var s := SortByU(ps);
    var r := MarkEnds(s, ueq);
    forall k | 0 <= k < |s| ensures Unmarked(r)[k] == s[k] {
      assert s[k] in multiset(ps);
    }
    assert Unmarked(r) == s;
  }

  /** The records the last loop of `intersectEdges` splits at: those not marked `skip`, in order. */
  function Unskipped(ps: seq<EdgeParam>): (r: seq<EdgeParam>)
    ensures |r| <= |ps|
    ensures forall q | q in r :: q in ps && !q.skip
    ensures forall q | q in ps && !q.skip :: q in r
  {
    if ps == [] then []
    else
      var init := ps[..|ps| - 1];
      assert ps == init + [ps[|ps| - 1]];
      Unskipped(init) + (if ps[|ps| - 1].skip then [] else [ps[|ps| - 1]])
  }

  lemma UnskippedSnoc(ps: seq<EdgeParam>, p: EdgeParam)
    ensures Unskipped(ps + [p]) == Unskipped(ps) + (if p.skip then [] else [p])
  {
    assert (ps + [p])[..|ps|] == ps;
  }

  /**
   * Of a prepared list, every record but the first and the last is split
   * at; the first is split at unless it lies at the curve's start, the last
   * unless it lies at the curve's end.
   */
  lemma PreparedSplitsInner(ps: seq<EdgeParam>, ueq: (real, real) -> bool, k: nat)
    requires ps != [] && (forall q | q in ps :: !q.skip) && k < |ps|
    ensures var r := Prepared(ps, ueq);
      !r[k].skip <==> !(k == 0 && ueq(r[k].u, 0.0)) && !(k == |ps| - 1 && ueq(r[k].u, 1.0))
  {
    var s := SortByU(ps);
    assert s[k] in multiset(ps);
  }

  /**
   * The lists after the second loop has visited the first `i` keys: the
   * keys are those of `m0`, the first `i` lists are prepared and the rest
   * are as they were.
   */
  ghost predicate PreparedUpTo(keys: seq<EdgeId>, m0: map<EdgeId, seq<EdgeParam>>, ueq: (real, real) -> bool,
                               m: map<EdgeId, seq<EdgeParam>>, i: nat)
  {
    && i <= |keys|
    && MergeFaces.NoRepeats(keys)
    && (forall e :: e in m <==> e in m0)
    && (forall e :: e in m0 <==> e in keys)
    && (forall e | e in m0 :: m0[e] != [])
    && (forall k | 0 <= k < i :: m[keys[k]] == Prepared(m0[keys[k]], ueq))
    && (forall k | i <= k < |keys| :: m[keys[k]] == m0[keys[k]])
  }

  lemma PreparedUpToStep(keys: seq<EdgeId>, m0: map<EdgeId, seq<EdgeParam>>, ueq: (real, real) -> bool,
                         m: map<EdgeId, seq<EdgeParam>>, i: nat)
    requires PreparedUpTo(keys, m0, ueq, m, i) && i < |keys|
    ensures keys[i] in m && m[keys[i]] != []
    ensures PreparedUpTo(keys, m0, ueq, m[keys[i] := MarkEnds(SortByU(m[keys[i]]), ueq)], i + 1)
  {
    assert keys[i] in keys;
  }

  lemma PreparedUpToAll(keys: seq<EdgeId>, m0: map<EdgeId, seq<EdgeParam>>, ueq: (real, real) -> bool,
                        m: map<EdgeId, seq<EdgeParam>>)
    requires PreparedUpTo(keys, m0, ueq, m, |keys|)
    ensures forall e | e in m0 :: m[e] == Prepared(m0[e], ueq)
  {
    forall e | e in m0 ensures m[e] == Prepared(m0[e], ueq) {
      var k :| 0 <= k < |keys| && keys[k] == e;
    }
  }

  /**
   * The second loop of `intersectEdges`: each key's list is sorted by
   * parameter and its ends are marked. Every list is prepared exactly once.
   */
  method SortAndMark(keys: seq<EdgeId>, m0: map<EdgeId, seq<EdgeParam>>, ueq: (real, real) -> bool)
    returns (m: map<EdgeId, seq<EdgeParam>>)
    requires MergeFaces.NoRepeats(keys)
    requires forall e :: e in m0 <==> e in keys
    requires forall e :: e in m0 ==> m0[e] != []
    ensures forall e :: e in m <==> e in m0
    ensures forall e | e in m0 :: m[e] == Prepared(m0[e], ueq)
  {
    m := m0;
    var i := 0;
    while i < |keys|
      invariant PreparedUpTo(keys, m0, ueq, m, i)
    {
      PreparedUpToStep(keys, m0, ueq, m, i);
      var e := keys[i];
      m := m[e := MarkEnds(SortByU(m[e]), ueq)];
      i := i + 1;
    }
    PreparedUpToAll(keys, m0, ueq, m);
  }
}
