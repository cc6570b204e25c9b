/**
 * `detectLoops` (boolean.js): half-edges are popped from a face's graph and
 * each unseen one starts a walk that keeps taking the most left-turning
 * outgoing half-edge until it comes back to its start. Closed walks become
 * new loops; walks that run out of candidates or reach a seen half-edge are
 * dropped.
 */
module LoopDetect {
  import opened Wrappers
  import opened Geometry
  import opened Topology
  import opened FaceGraph
  import opened ListMaps

  /**
   * The sort in `findMaxTurningLeft`: the candidates reordered by a
   * geometric comparator, given by the caller.
   */
  type TurnOrder = (HalfEdgeId, seq<HalfEdgeId>) -> seq<HalfEdgeId>

  /** A sort only reorders: it neither drops nor adds candidates. */
  ghost predicate Reorders(order: TurnOrder)
  {
    forall pivot: HalfEdgeId, cs: seq<HalfEdgeId> :: multiset(order(pivot, cs)) == multiset(cs)
  }

  /** `findMaxTurningLeft`: the first candidate after sorting; `undefined` when there is none. */
  function FindMaxTurningLeft(order: TurnOrder, pivot: HalfEdgeId, cs: seq<HalfEdgeId>): Option<HalfEdgeId>
  {
    var sorted := order(pivot, cs);
    if |sorted| == 0 then None else Some(sorted[0])
  }

  /** The pick is one of the candidates, and there is a pick exactly when there are candidates. */
  lemma FindMaxTurningLeftPicks(order: TurnOrder, pivot: HalfEdgeId, cs: seq<HalfEdgeId>)
    requires Reorders(order)
    ensures FindMaxTurningLeft(order, pivot, cs).None? <==> cs == []
    ensures FindMaxTurningLeft(order, pivot, cs).Some? ==> FindMaxTurningLeft(order, pivot, cs).value in cs
  {
    var sorted := order(pivot, cs);
    assert multiset(sorted) == multiset(cs);
    assert |cs| == |multiset(cs)| == |multiset(sorted)| == |sorted|;
    if |sorted| > 0 {
      assert sorted[0] in multiset(sorted);
    }
  }

  /** `c` is `edge` walked backwards: a candidate the walk must not take. */
  predicate Reverses(hs: seq<HalfEdge>, same: SameEdgeTest, c: HalfEdgeId, edge: HalfEdgeId)
  {
    c < |hs| && edge < |hs| && hs[c].vertexB == hs[edge].vertexA && same(c, edge)
  }

  /** `candidates.filter(...)`: the listed half-edges that do not reverse `edge`, in order. */
  function Candidates(hs: seq<HalfEdge>, same: SameEdgeTest, list: seq<HalfEdgeId>, edge: HalfEdgeId): seq<HalfEdgeId>
  {
    if list == [] then []
    else
      var last := list[|list| - 1];
      Candidates(hs, same, list[..|list| - 1], edge) + (if Reverses(hs, same, last, edge) then [] else [last])
  }

  /** The filter keeps exactly the listed half-edges that do not reverse `edge`. */
  lemma {:induction false} CandidatesMembers(hs: seq<HalfEdge>, same: SameEdgeTest, list: seq<HalfEdgeId>, edge: HalfEdgeId, x: HalfEdgeId)
    ensures x in Candidates(hs, same, list, edge) <==> x in list && !Reverses(hs, same, x, edge)
  {
    if list != [] {
      CandidatesMembers(hs, same, list[..|list| - 1], edge, x);
      assert list == list[..|list| - 1] + [list[|list| - 1]];
    }
  }

  /**
   * The half-edge a walk takes after `edge`: none when nothing is listed
   * under `edge`'s end (`!candidates`) or no candidate survives the filter.
   */
  function NextEdge(hs: seq<HalfEdge>, same: SameEdgeTest, order: TurnOrder, m: map<Vertex, seq<HalfEdgeId>>,
                    edge: HalfEdgeId): Option<HalfEdgeId>
    requires edge < |hs|
  {
    var b := hs[edge].vertexB;
    if b !in m then None else FindMaxTurningLeft(order, edge, Candidates(hs, same, m[b], edge))
  }

  /**
   * The next half-edge of a walk starts where `edge` ends, is listed in the
   * graph under that vertex and does not walk `edge` backwards.
   */
  lemma NextEdgeContinues(hs: seq<HalfEdge>, same: SameEdgeTest, order: TurnOrder, m: map<Vertex, seq<HalfEdgeId>>,
                          edge: HalfEdgeId)
    requires Reorders(order) && MapWf(hs, m) && edge < |hs|
    ensures NextEdge(hs, same, order, m, edge).Some? ==>
      var n := NextEdge(hs, same, order, m, edge).value;
      && hs[edge].vertexB in m && n in m[hs[edge].vertexB]
      && n < |hs| && hs[n].vertexA == hs[edge].vertexB
      && !Reverses(hs, same, n, edge)
  {
    var b := hs[edge].vertexB;
    if b in m {
      var cs := Candidates(hs, same, m[b], edge);
      FindMaxTurningLeftPicks(order, edge, cs);
      var r := FindMaxTurningLeft(order, edge, cs);
      if r.Some? {
        CandidatesMembers(hs, same, m[b], edge, r.value);
        assert ListWf(hs, m[b], b);
      }
    }
  }

  /** Each half-edge is followed by its successor in the walk. */
  ghost predicate Follows(hs: seq<HalfEdge>, same: SameEdgeTest, order: TurnOrder, m: map<Vertex, seq<HalfEdgeId>>,
                          walk: seq<HalfEdgeId>)
  {
    && (forall i | 0 <= i < |walk| :: walk[i] < |hs|)
    && (forall i | 0 <= i < |walk| - 1 :: NextEdge(hs, same, order, m, walk[i]) == Some(walk[i + 1]))
  }

  /** No half-edge occurs twice. */
  ghost predicate Distinct(walk: seq<HalfEdgeId>)
  {
    forall i, j | 0 <= i < j < |walk| :: walk[i] != walk[j]
  }

  /** The walk comes back to where it started: the first start is the last end. */
  ghost predicate Closes(hs: seq<HalfEdge>, walk: seq<HalfEdgeId>)
  {
    |walk| > 0 && walk[0] < |hs| && walk[|walk| - 1] < |hs| && hs[walk[0]].vertexA == hs[walk[|walk| - 1]].vertexB
  }

  /** The half-edges of the arena not yet seen: the walk's termination measure. */
  ghost function Unseen(n: nat, seen: set<HalfEdgeId>): set<HalfEdgeId>
  {
    set x: HalfEdgeId | x < n && x !in seen
  }

  /** Seeing one more half-edge of the arena shrinks what is unseen. */
  lemma UnseenShrinks(n: nat, seen: set<HalfEdgeId>, e: HalfEdgeId)
    requires e < n && e !in seen
    ensures Unseen(n, seen + {e}) < Unseen(n, seen)
  {
    assert e in Unseen(n, seen);
  }

  /** A walk extended by the half-edge that follows its last one still follows the graph. */
  lemma FollowsExtend(hs: seq<HalfEdge>, same: SameEdgeTest, order: TurnOrder, m: map<Vertex, seq<HalfEdgeId>>,
                      walk: seq<HalfEdgeId>, next: HalfEdgeId)
    requires Follows(hs, same, order, m, walk) && |walk| > 0 && next < |hs|
    requires NextEdge(hs, same, order, m, walk[|walk| - 1]) == Some(next)
    ensures Follows(hs, same, order, m, walk + [next])
  {
    var w := walk + [next];
    forall i | 0 <= i < |w| - 1 ensures NextEdge(hs, same, order, m, w[i]) == Some(w[i + 1]) {
      if i < |walk| - 1 {
        assert w[i] == walk[i] && w[i + 1] == walk[i + 1];
      }
    }
  }

  /**
   * What holds of a walk from `start` while it grows: it follows the graph,
   * repeats nothing, avoids what was seen before, has not come back to the
   * start before its last half-edge, and `seenAfter` adds exactly its
   * half-edges to `seen`.
   */
  ghost predicate Walking(hs: seq<HalfEdge>, same: SameEdgeTest, order: TurnOrder, m: map<Vertex, seq<HalfEdgeId>>,
                          start: HalfEdgeId, seen: set<HalfEdgeId>, walk: seq<HalfEdgeId>, seenAfter: set<HalfEdgeId>)
  {
    && |walk| > 0 && walk[0] == start && start < |hs|
    && Follows(hs, same, order, m, walk) && Distinct(walk)
    && (forall i | 0 <= i < |walk| :: walk[i] !in seen)
    && (forall x :: x in seenAfter <==> x in seen || x in walk)
    && (forall i | 0 <= i < |walk| - 1 :: hs[walk[i]].vertexB != hs[start].vertexA)
  }

  /** Taking the next unseen pick from a walk that has not closed keeps it walking. */
  lemma WalkingStep(hs: seq<HalfEdge>, same: SameEdgeTest, order: TurnOrder, m: map<Vertex, seq<HalfEdgeId>>,
                    start: HalfEdgeId, seen: set<HalfEdgeId>, walk: seq<HalfEdgeId>, seenAfter: set<HalfEdgeId>,
                    next: HalfEdgeId)
    requires Reorders(order) && MapWf(hs, m)
    requires Walking(hs, same, order, m, start, seen, walk, seenAfter)
    requires hs[walk[|walk| - 1]].vertexB != hs[start].vertexA
    requires NextEdge(hs, same, order, m, walk[|walk| - 1]) == Some(next) && next !in seenAfter
    ensures next < |hs| && Unseen(|hs|, seenAfter + {next}) < Unseen(|hs|, seenAfter)
    ensures Walking(hs, same, order, m, start, seen, walk + [next], seenAfter + {next})
  {
    NextEdgeContinues(hs, same, order, m, walk[|walk| - 1]);
    UnseenShrinks(|hs|, seenAfter, next);
    FollowsExtend(hs, same, order, m, walk, next);
    var w := walk + [next];
    forall i, j | 0 <= i < j < |w| ensures w[i] != w[j] {
      if j < |walk| {
        assert w[i] == walk[i] && w[j] == walk[j];
      } else {
        assert w[i] == walk[i] && walk[i] in seenAfter;
      }
    }
    forall i | 0 <= i < |w| - 1 ensures hs[w[i]].vertexB != hs[start].vertexA {
      assert w[i] == walk[i];
    }
    forall i | 0 <= i < |w| ensures w[i] !in seen {
      if i < |walk| {
        assert w[i] == walk[i];
      }
    }
  }

  /**
   * The inner loop of `detectLoops` as a function: the walk from `start`
   * continued from `walk`, with `seenAfter` seen so far, and whether it
   * closed. It closes as soon as its last half-edge ends where `start`
   * starts, and is dropped when there is no pick or the pick was seen.
   */
  ghost function WalkOn(hs: seq<HalfEdge>, same: SameEdgeTest, order: TurnOrder, m: map<Vertex, seq<HalfEdgeId>>,
                        start: HalfEdgeId, walk: seq<HalfEdgeId>, seenAfter: set<HalfEdgeId>): (seq<HalfEdgeId>, bool)
    requires Reorders(order) && MapWf(hs, m) && start < |hs| && |walk| > 0 && walk[|walk| - 1] < |hs|
    decreases Unseen(|hs|, seenAfter)
  {
    var edge := walk[|walk| - 1];
    if hs[start].vertexA == hs[edge].vertexB then (walk, true)
    else
      var next := NextEdge(hs, same, order, m, edge);
      if next.None? || next.value in seenAfter then (walk, false)
      else
        NextEdgeContinues(hs, same, order, m, edge);
        UnseenShrinks(|hs|, seenAfter, next.value);
        WalkOn(hs, same, order, m, start, walk + [next.value], seenAfter + {next.value})
  }

  /**
   * The inner loop of `detectLoops`: the walk from `start`, whether it
   * closed, and the seen set after it. Each half-edge of the walk is the
   * pick after the previous one, none was seen before, and the walk stops at
   * the first half-edge that ends at its start, or when there is no pick or
   * the pick was seen.
   */
  method Walk(hs: seq<HalfEdge>, same: SameEdgeTest, order: TurnOrder, m: map<Vertex, seq<HalfEdgeId>>,
              start: HalfEdgeId, seen: set<HalfEdgeId>)
    returns (walk: seq<HalfEdgeId>, closed: bool, seenAfter: set<HalfEdgeId>)
    requires Reorders(order) && MapWf(hs, m)
    requires start < |hs| && start !in seen
    ensures |walk| > 0 && walk[0] == start
    ensures Follows(hs, same, order, m, walk) && Distinct(walk)
    ensures forall i | 0 <= i < |walk| :: walk[i] !in seen
    ensures forall x :: x in seenAfter <==> x in seen || x in walk
    ensures closed <==> Closes(hs, walk)
    ensures forall i | 0 <= i < |walk| - 1 :: hs[walk[i]].vertexB != hs[start].vertexA
    ensures !closed ==> NextEdge(hs, same, order, m, walk[|walk| - 1]).None?
                        || NextEdge(hs, same, order, m, walk[|walk| - 1]).value in seenAfter
    ensures (walk, closed) == WalkOn(hs, same, order, m, start, [start], seen + {start})
  {
    walk, seenAfter := [start], seen + {start};
    var edge: HalfEdgeId := start;
    while true
      invariant Walking(hs, same, order, m, start, seen, walk, seenAfter)
      invariant edge == walk[|walk| - 1]
      invariant WalkOn(hs, same, order, m, start, walk, seenAfter) == WalkOn(hs, same, order, m, start, [start], seen + {start})
      decreases Unseen(|hs|, seenAfter)
    {
      if hs[start].vertexA == hs[edge].vertexB {
        return walk, true, seenAfter;
      }
      var next := NextEdge(hs, same, order, m, edge);
      if next.None? || next.value in seenAfter {
        return walk, false, seenAfter;
      }
      WalkingStep(hs, same, order, m, start, seen, walk, seenAfter, next.value);
      walk := walk + [next.value];
      seenAfter := seenAfter + {next.value};
      edge := next.value;
    }
  }

  /** Consecutive half-edges of a walk meet: each ends where the next starts. */
  lemma {:induction false} FollowsConnects(hs: seq<HalfEdge>, same: SameEdgeTest, order: TurnOrder,
                                           m: map<Vertex, seq<HalfEdgeId>>, walk: seq<HalfEdgeId>)
    requires Reorders(order) && MapWf(hs, m) && Follows(hs, same, order, m, walk)
    ensures forall i | 0 <= i < |walk| - 1 :: hs[walk[i]].vertexB == hs[walk[i + 1]].vertexA
  {
    forall i | 0 <= i < |walk| - 1 ensures hs[walk[i]].vertexB == hs[walk[i + 1]].vertexA {
      NextEdgeContinues(hs, same, order, m, walk[i]);
    }
  }

  /** A closed chain of half-edges: in the arena, consecutive ones meet, and the last ends at the first's start. */
  ghost predicate ClosedChain(hs: seq<HalfEdge>, walk: seq<HalfEdgeId>)
  {
    && Closes(hs, walk)
    && (forall i | 0 <= i < |walk| :: walk[i] < |hs|)
    && (forall i | 0 <= i < |walk| - 1 :: hs[walk[i]].vertexB == hs[walk[i + 1]].vertexA)
  }

  /** Each half-edge's `next` is its cyclic successor in the walk. */
  ghost predicate Linked(hs: seq<HalfEdge>, walk: seq<HalfEdgeId>)
  {
    forall i | 0 <= i < |walk| :: walk[i] < |hs| && hs[walk[i]].next == Some(walk[(i + 1) % |walk|])
  }

  /** No half-edge occurs twice in one walk or in two walks. */
  ghost predicate PairwiseDisjoint(walks: seq<seq<HalfEdgeId>>)
  {
    forall i, j, a, b | 0 <= i < |walks| && 0 <= j < |walks| && 0 <= a < |walks[i]| && 0 <= b < |walks[j]| &&
                        (i != j || a != b) :: walks[i][a] != walks[j][b]
  }

  /** Only `next` pointers differ between the two half-edge sequences. */
  ghost predicate SameButNext(hs: seq<HalfEdge>, hs': seq<HalfEdge>)
  {
    |hs'| == |hs| && forall k | 0 <= k < |hs| :: hs'[k] == hs[k].(next := hs'[k].next)
  }

  /** A chain stays closed when only `next` pointers change. */
  lemma ClosedChainSameEnds(hs: seq<HalfEdge>, hs': seq<HalfEdge>, walk: seq<HalfEdgeId>)
    requires ClosedChain(hs, walk) && SameButNext(hs, hs')
    ensures ClosedChain(hs', walk)
  {
    forall i | 0 <= i < |walk| ensures hs'[walk[i]].vertexA == hs[walk[i]].vertexA && hs'[walk[i]].vertexB == hs[walk[i]].vertexB {
      assert hs'[walk[i]] == hs[walk[i]].(next := hs'[walk[i]].next);
    }
  }

  /** A walk stays linked when none of its half-edges changes. */
  lemma LinkedKept(hs: seq<HalfEdge>, hs': seq<HalfEdge>, walk: seq<HalfEdgeId>)
    requires Linked(hs, walk) && |hs'| == |hs|
    requires forall a | 0 <= a < |walk| :: hs'[walk[a]] == hs[walk[a]]
    ensures Linked(hs', walk)
  {
  }

  /** A new walk disjoint from everything seen keeps the walks pairwise disjoint. */
  lemma DisjointExtend(walks: seq<seq<HalfEdgeId>>, walk: seq<HalfEdgeId>, seen: set<HalfEdgeId>)
    requires PairwiseDisjoint(walks) && Distinct(walk)
    requires Covered(walks, seen)
    requires forall a | 0 <= a < |walk| :: walk[a] !in seen
    ensures PairwiseDisjoint(walks + [walk])
  {
    var ws := walks + [walk];
    forall i, j, a, b | 0 <= i < |ws| && 0 <= j < |ws| && 0 <= a < |ws[i]| && 0 <= b < |ws[j]| && (i != j || a != b)
      ensures ws[i][a] != ws[j][b]
    {
      if i < |walks| && j < |walks| {
        assert ws[i] == walks[i] && ws[j] == walks[j];
      } else if i < |walks| {
        assert ws[i][a] == walks[i][a] && walks[i][a] in seen;
      } else if j < |walks| {
        assert ws[j][b] == walks[j][b] && walks[j][b] in seen;
      }
    }
  }

  /** A distinct walk lists no half-edge after its own position. */
  lemma DistinctNoLater(walk: seq<HalfEdgeId>, a: nat)
    requires Distinct(walk) && a < |walk|
    ensures walk[a] !in walk[a + 1..]
  {
    var rest := walk[a + 1..];
    forall b | 0 <= b < |rest| ensures rest[b] != walk[a] {
      assert rest[b] == walk[a + 1 + b];
    }
  }

  /** `new Loop(null)` holding `ws`. */
  method NewLoopOf(t: Topology, ws: seq<HalfEdgeId>) returns (l: LoopId)
    requires t.Valid() && forall i | 0 <= i < |ws| :: ws[i] < |t.halfEdges|
    modifies t
    ensures t.Valid()
    ensures l == |old(t.loops)| && t.loops == old(t.loops) + [Loop(None, ws)]
    ensures t.halfEdges == old(t.halfEdges) && t.edges == old(t.edges)
    ensures t.faces == old(t.faces) && t.solveData == old(t.solveData)
  {
    l := t.NewLoop(None);
    SetLoopKeepsWf(t.halfEdges, t.edges, t.loops, t.faces, t.solveData, l, Loop(None, ws));
    t.loops := t.loops[l := Loop(None, ws)];
  }

  /** The loops found so far are new, hold their walks, and the walks are closed chains, linked and disjoint. */
  ghost predicate Found(hs: seq<HalfEdge>, ls: seq<Loop>, loops0: nat, loops: seq<LoopId>, walks: seq<seq<HalfEdgeId>>)
  {
    && |walks| == |loops|
    && (forall i | 0 <= i < |loops| :: loops0 <= loops[i] < |ls| && ls[loops[i]] == Loop(None, walks[i]))
    && (forall i | 0 <= i < |walks| :: ClosedChain(hs, walks[i]) && Linked(hs, walks[i]))
    && PairwiseDisjoint(walks)
  }

  /** What `Link` promises about a walk without repeats makes it linked. */
  lemma LinkedByLink(hs: seq<HalfEdge>, walk: seq<HalfEdgeId>)
    requires Distinct(walk) && forall i | 0 <= i < |walk| :: walk[i] < |hs|
    requires forall i | 0 <= i < |walk| && walk[i] !in walk[i + 1..] :: hs[walk[i]].next == Some(walk[(i + 1) % |walk|])
    ensures Linked(hs, walk)
  {
    forall i | 0 <= i < |walk| ensures hs[walk[i]].next == Some(walk[(i + 1) % |walk|]) {
      DistinctNoLater(walk, i);
    }
  }

  /**
   * Adding a new loop for a closed, linked walk of unseen half-edges keeps
   * what was found, when only the walk's own half-edges changed and only in
   * `next`.
   */
  lemma FoundExtend(hs0: seq<HalfEdge>, hs1: seq<HalfEdge>, ls0: seq<Loop>, loops0: nat, loops: seq<LoopId>,
                    walks: seq<seq<HalfEdgeId>>, walk: seq<HalfEdgeId>, seenBefore: set<HalfEdgeId>)
    requires Found(hs0, ls0, loops0, loops, walks) && loops0 <= |ls0|
    requires ClosedChain(hs0, walk) && Distinct(walk) && Linked(hs1, walk)
    requires Covered(walks, seenBefore)
    requires forall a | 0 <= a < |walk| :: walk[a] !in seenBefore
    requires SameButNext(hs0, hs1)
    requires forall k | 0 <= k < |hs0| && k !in walk :: hs1[k] == hs0[k]
    ensures Found(hs1, ls0 + [Loop(None, walk)], loops0, loops + [|ls0|], walks + [walk])
  {
    var ls1 := ls0 + [Loop(None, walk)];
    ClosedChainSameEnds(hs0, hs1, walk);
    forall i | 0 <= i < |walks| ensures ClosedChain(hs1, walks[i]) && Linked(hs1, walks[i]) {
      ClosedChainSameEnds(hs0, hs1, walks[i]);
      forall a | 0 <= a < |walks[i]| ensures hs1[walks[i][a]] == hs0[walks[i][a]] {
        assert walks[i][a] in seenBefore;
      }
      LinkedKept(hs0, hs1, walks[i]);
    }
    forall i | 0 <= i < |loops| + 1 ensures loops0 <= (loops + [|ls0|])[i] < |ls1| && ls1[(loops + [|ls0|])[i]] == Loop(None, (walks + [walk])[i]) {
      if i < |loops| {
        assert (loops + [|ls0|])[i] == loops[i] && (walks + [walk])[i] == walks[i];
      }
    }
    DisjointExtend(walks, walk, seenBefore);
  }

  /**
   * Links a closed walk of unseen half-edges into a new loop; the loops
   * found before keep their walks, chains and links.
   */
  method CloseLoop(t: Topology, ghost loops0: nat, loops: seq<LoopId>, ghost walks: seq<seq<HalfEdgeId>>,
                   walk: seq<HalfEdgeId>, ghost seenBefore: set<HalfEdgeId>)
    returns (l: LoopId)
    requires t.Valid() && Found(t.halfEdges, t.loops, loops0, loops, walks) && loops0 <= |t.loops|
    requires ClosedChain(t.halfEdges, walk) && Distinct(walk)
    requires Covered(walks, seenBefore)
    requires forall a | 0 <= a < |walk| :: walk[a] !in seenBefore
    modifies t
    ensures t.Valid() && Found(t.halfEdges, t.loops, loops0, loops + [l], walks + [walk])
    ensures SameButNext(old(t.halfEdges), t.halfEdges)
    ensures old(t.loops) <= t.loops
    ensures t.edges == old(t.edges) && t.faces == old(t.faces) && t.solveData == old(t.solveData)
  {
    ghost var hs0, ls0 := t.halfEdges, t.loops;
    l := NewLoopOf(t, walk);
    t.Link(l);
    assert t.loops[l].halfEdges == walk;
    LinkedByLink(t.halfEdges, walk);
    FoundExtend(hs0, t.halfEdges, ls0, loops0, loops, walks, walk, seenBefore);
  }

  /** What was found, read through the loop records. */
  lemma FoundMeans(hs: seq<HalfEdge>, ls: seq<Loop>, loops0: nat, loops: seq<LoopId>, walks: seq<seq<HalfEdgeId>>)
    requires Found(hs, ls, loops0, loops, walks)
    ensures forall i | 0 <= i < |loops| :: loops0 <= loops[i] < |ls| && ls[loops[i]].face.None?
    ensures forall i | 0 <= i < |loops| :: ClosedChain(hs, ls[loops[i]].halfEdges) && Linked(hs, ls[loops[i]].halfEdges)
    ensures forall i, j, a, b | 0 <= i < |loops| && 0 <= j < |loops| && 0 <= a < |ls[loops[i]].halfEdges| &&
                                0 <= b < |ls[loops[j]].halfEdges| && (i != j || a != b) ::
      ls[loops[i]].halfEdges[a] != ls[loops[j]].halfEdges[b]
  {
    forall i, j, a, b | 0 <= i < |loops| && 0 <= j < |loops| && 0 <= a < |ls[loops[i]].halfEdges| &&
                        0 <= b < |ls[loops[j]].halfEdges| && (i != j || a != b)
      ensures ls[loops[i]].halfEdges[a] != ls[loops[j]].halfEdges[b]
    {
      assert ls[loops[i]].halfEdges == walks[i] && ls[loops[j]].halfEdges == walks[j];
    }
  }

  /** Every half-edge of the walks is in `seen`. */
  ghost predicate Covered(walks: seq<seq<HalfEdgeId>>, seen: set<HalfEdgeId>)
  {
    forall i, a | 0 <= i < |walks| && 0 <= a < |walks[i]| :: walks[i][a] in seen
  }

  /** Growing `seen` by a walk covers the walks so far, with or without that walk. */
  lemma CoveredExtend(walks: seq<seq<HalfEdgeId>>, walk: seq<HalfEdgeId>, seen: set<HalfEdgeId>, seenAfter: set<HalfEdgeId>)
    requires Covered(walks, seen) && forall x :: x in seenAfter <==> x in seen || x in walk
    ensures Covered(walks, seenAfter) && Covered(walks + [walk], seenAfter)
  {
    var ws := walks + [walk];
    forall i, a | 0 <= i < |ws| && 0 <= a < |ws[i]| ensures ws[i][a] in seenAfter {
      if i < |walks| {
        assert ws[i] == walks[i];
      } else {
        assert ws[i][a] in walk;
      }
    }
  }

  /** The half-edges of a walk, as a set. */
  ghost function Elems(walk: seq<HalfEdgeId>): set<HalfEdgeId>
  {
    set x | x in walk
  }

  /**
   * The outer loop of `detectLoops` as a function: the closed walks, in
   * order, started while popping `pending` from its end with `seen` already
   * visited. A popped half-edge already seen starts nothing; any other one
   * starts a walk, every half-edge of which is seen afterwards, closed or
   * not.
   */
  ghost function Detected(hs: seq<HalfEdge>, same: SameEdgeTest, order: TurnOrder, m: map<Vertex, seq<HalfEdgeId>>,
                          pending: seq<HalfEdgeId>, seen: set<HalfEdgeId>): seq<seq<HalfEdgeId>>
    requires Reorders(order) && MapWf(hs, m)
    decreases |pending|
  {
    if pending == [] then []
    else
      var e := pending[|pending| - 1];
      if e in seen || e >= |hs| then Detected(hs, same, order, m, pending[..|pending| - 1], seen)
      else
        var w := WalkOn(hs, same, order, m, e, [e], seen + {e});
        (if w.1 then [w.0] else []) + Detected(hs, same, order, m, pending[..|pending| - 1], seen + Elems(w.0))
  }

  /** The filter reads only where half-edges start and end. */
  lemma {:induction false} CandidatesSame(hs: seq<HalfEdge>, hs': seq<HalfEdge>, same: SameEdgeTest,
                                          list: seq<HalfEdgeId>, edge: HalfEdgeId)
    requires SameButNext(hs, hs')
    ensures Candidates(hs', same, list, edge) == Candidates(hs, same, list, edge)
  {
    if list != [] {
      var last := list[|list| - 1];
      CandidatesSame(hs, hs', same, list[..|list| - 1], edge);
      if last < |hs| && edge < |hs| {
        assert hs'[last] == hs[last].(next := hs'[last].next);
        assert hs'[edge] == hs[edge].(next := hs'[edge].next);
      }
    }
  }

  /** A walk's pick does not depend on `next` pointers. */
  lemma NextEdgeSame(hs: seq<HalfEdge>, hs': seq<HalfEdge>, same: SameEdgeTest, order: TurnOrder,
                     m: map<Vertex, seq<HalfEdgeId>>, edge: HalfEdgeId)
    requires SameButNext(hs, hs') && edge < |hs|
    ensures NextEdge(hs', same, order, m, edge) == NextEdge(hs, same, order, m, edge)
  {
    assert hs'[edge] == hs[edge].(next := hs'[edge].next);
    if hs[edge].vertexB in m {
      CandidatesSame(hs, hs', same, m[hs[edge].vertexB], edge);
    }
  }

  /** A walk does not depend on `next` pointers either. */
  lemma {:induction false} WalkOnSame(hs: seq<HalfEdge>, hs': seq<HalfEdge>, same: SameEdgeTest, order: TurnOrder,
                                      m: map<Vertex, seq<HalfEdgeId>>, start: HalfEdgeId, walk: seq<HalfEdgeId>,
                                      seenAfter: set<HalfEdgeId>)
    requires SameButNext(hs, hs') && Reorders(order) && MapWf(hs, m) && MapWf(hs', m)
    requires start < |hs| && |walk| > 0 && walk[|walk| - 1] < |hs|
    ensures WalkOn(hs', same, order, m, start, walk, seenAfter) == WalkOn(hs, same, order, m, start, walk, seenAfter)
    decreases Unseen(|hs|, seenAfter)
  {
    var edge := walk[|walk| - 1];
    assert hs'[edge] == hs[edge].(next := hs'[edge].next);
    assert hs'[start] == hs[start].(next := hs'[start].next);
    NextEdgeSame(hs, hs', same, order, m, edge);
    var next := NextEdge(hs, same, order, m, edge);
    if hs[start].vertexA != hs[edge].vertexB && next.Some? && next.value !in seenAfter {
      NextEdgeContinues(hs, same, order, m, edge);
      UnseenShrinks(|hs|, seenAfter, next.value);
      WalkOnSame(hs, hs', same, order, m, start, walk + [next.value], seenAfter + {next.value});
    }
  }

  /**
   * `detectLoops(face)`: pops every graph edge; the loops it returns are new
   * loops without a face, each a closed chain of half-edges linked through
   * `next`, and no half-edge is in two of them or twice in one; they hold,
   * in order, exactly the closed walks `Detected` starts from the graph
   * edges. Only `next` pointers change in the half-edges.
   */
  method DetectLoops(t: Topology, data: FaceSolveData, same: SameEdgeTest, order: TurnOrder) returns (loops: seq<LoopId>)
    requires Reorders(order) && t.Valid() && data.Valid(t)
    modifies t, data
    ensures t.Valid() && data.graphEdges == []
    ensures data.vertexToEdge == old(data.vertexToEdge) && data.errors == old(data.errors)
    ensures SameButNext(old(t.halfEdges), t.halfEdges)
    ensures old(t.loops) <= t.loops
    ensures t.edges == old(t.edges) && t.faces == old(t.faces) && t.solveData == old(t.solveData)
    ensures forall i | 0 <= i < |loops| :: |old(t.loops)| <= loops[i] < |t.loops| && t.loops[loops[i]].face.None?
    ensures forall i | 0 <= i < |loops| ::
      ClosedChain(t.halfEdges, t.loops[loops[i]].halfEdges) && Linked(t.halfEdges, t.loops[loops[i]].halfEdges)
    ensures forall i, j, a, b | 0 <= i < |loops| && 0 <= j < |loops| && 0 <= a < |t.loops[loops[i]].halfEdges| &&
                                0 <= b < |t.loops[loops[j]].halfEdges| && (i != j || a != b) ::
      t.loops[loops[i]].halfEdges[a] != t.loops[loops[j]].halfEdges[b]
    ensures var found := Detected(old(t.halfEdges), same, order, old(data.vertexToEdge), old(data.graphEdges), {});
      |loops| == |found| && forall i | 0 <= i < |loops| :: t.loops[loops[i]].halfEdges == found[i]
  {
    var m := data.vertexToEdge;
    ghost var hs0, ls0, pending0 := t.halfEdges, t.loops, data.graphEdges;
    ghost var walks: seq<seq<HalfEdgeId>> := [];
    loops := [];
    var seen: set<HalfEdgeId> := {};
    while |data.graphEdges| > 0
      invariant Detecting(t, data, same, order, m, hs0, ls0, pending0, loops, walks, seen)
      invariant data.errors == old(data.errors)
      invariant t.edges == old(t.edges) && t.faces == old(t.faces) && t.solveData == old(t.solveData)
      decreases |data.graphEdges|
    {
      loops, walks, seen := PopStep(t, data, same, order, m, hs0, ls0, pending0, loops, walks, seen);
    }
    FoundMeans(t.halfEdges, t.loops, |ls0|, loops, walks);
  }

  /**
   * The state of the outer loop of `detectLoops`, which started from the
   * half-edges `hs0`, the loops `ls0` and the graph edges `pending0`: only
   * `next` pointers changed, loops were only added, the map is as it was,
   * `walks` are what was found so far, `seen` covers them, and the walks
   * found so far followed by those the remaining graph edges start are all
   * that `Detected` starts.
   */
  ghost predicate Detecting(t: Topology, data: FaceSolveData, same: SameEdgeTest, order: TurnOrder,
                            m: map<Vertex, seq<HalfEdgeId>>, hs0: seq<HalfEdge>, ls0: seq<Loop>,
                            pending0: seq<HalfEdgeId>, loops: seq<LoopId>, walks: seq<seq<HalfEdgeId>>,
                            seen: set<HalfEdgeId>)
    reads t, data
  {
    && Reorders(order) && t.Valid() && data.Valid(t) && data.vertexToEdge == m && MapWf(hs0, m)
    && SameButNext(hs0, t.halfEdges) && ls0 <= t.loops
    && Found(t.halfEdges, t.loops, |ls0|, loops, walks) && Covered(walks, seen)
    && walks + Detected(hs0, same, order, m, data.graphEdges, seen) == Detected(hs0, same, order, m, pending0, {})
  }

  /**
   * One turn of the outer loop: the last graph edge is popped; unless seen,
   * it starts a walk, and a closed walk is linked into a new loop.
   */
  method PopStep(t: Topology, data: FaceSolveData, same: SameEdgeTest, order: TurnOrder,
                 m: map<Vertex, seq<HalfEdgeId>>, ghost hs0: seq<HalfEdge>, ghost ls0: seq<Loop>,
                 ghost pending0: seq<HalfEdgeId>, loops: seq<LoopId>, ghost walks: seq<seq<HalfEdgeId>>,
                 seen: set<HalfEdgeId>)
    returns (loops': seq<LoopId>, ghost walks': seq<seq<HalfEdgeId>>, seen': set<HalfEdgeId>)
    requires Detecting(t, data, same, order, m, hs0, ls0, pending0, loops, walks, seen) && |data.graphEdges| > 0
    modifies t, data
    ensures Detecting(t, data, same, order, m, hs0, ls0, pending0, loops', walks', seen')
    ensures data.graphEdges == old(data.graphEdges[..|data.graphEdges| - 1]) && data.errors == old(data.errors)
    ensures t.edges == old(t.edges) && t.faces == old(t.faces) && t.solveData == old(t.solveData)
  {
    ghost var pending := data.graphEdges;
    var edge := data.graphEdges[|data.graphEdges| - 1];
    data.graphEdges := data.graphEdges[..|data.graphEdges| - 1];
    if edge in seen {
      return loops, walks, seen;
    }
    var walk, closed, seenAfter := Walk(t.halfEdges, same, order, m, edge, seen);
    DetectedStep(hs0, t.halfEdges, same, order, m, pending, seen, walks, walk, closed, seenAfter);
    CoveredExtend(walks, walk, seen, seenAfter);
    loops', walks', seen' := loops, walks, seenAfter;
    if closed {
      FollowsConnects(t.halfEdges, same, order, m, walk);
      var l := LinkWalk(t, data, hs0, ls0, loops, walks, walk, seen);
      loops', walks' := loops + [l], walks + [walk];
    }
  }

  /** `CloseLoop` within the outer loop: the graph stays well formed over the relinked half-edges. */
  method LinkWalk(t: Topology, data: FaceSolveData, ghost hs0: seq<HalfEdge>, ghost ls0: seq<Loop>,
                  loops: seq<LoopId>, ghost walks: seq<seq<HalfEdgeId>>, walk: seq<HalfEdgeId>, ghost seen: set<HalfEdgeId>)
    returns (l: LoopId)
    requires t.Valid() && data.Valid(t) && SameButNext(hs0, t.halfEdges) && ls0 <= t.loops
    requires Found(t.halfEdges, t.loops, |ls0|, loops, walks) && Covered(walks, seen)
    requires ClosedChain(t.halfEdges, walk) && Distinct(walk)
    requires forall a | 0 <= a < |walk| :: walk[a] !in seen
    modifies t
    ensures t.Valid() && data.Valid(t) && SameButNext(hs0, t.halfEdges) && ls0 <= t.loops
    ensures Found(t.halfEdges, t.loops, |ls0|, loops + [l], walks + [walk])
    ensures t.edges == old(t.edges) && t.faces == old(t.faces) && t.solveData == old(t.solveData)
  {
    ghost var hsBefore, lsBefore := t.halfEdges, t.loops;
    l := CloseLoop(t, |ls0|, loops, walks, walk, seen);
    GraphWfSameStarts(hsBefore, t.halfEdges, data.Snapshot());
    PrefixTrans(ls0, lsBefore, t.loops);
    SameButNextTrans(hs0, hsBefore, t.halfEdges);
  }

  /** One unseen pop of the outer loop: its walk, if closed, is the next of the walks `Detected` returns. */
  lemma DetectedStep(hs0: seq<HalfEdge>, hs: seq<HalfEdge>, same: SameEdgeTest, order: TurnOrder,
                     m: map<Vertex, seq<HalfEdgeId>>, pending: seq<HalfEdgeId>, seen: set<HalfEdgeId>,
                     walks: seq<seq<HalfEdgeId>>, walk: seq<HalfEdgeId>, closed: bool, seenAfter: set<HalfEdgeId>)
    requires SameButNext(hs0, hs) && Reorders(order) && MapWf(hs0, m) && MapWf(hs, m)
    requires |pending| > 0 && pending[|pending| - 1] !in seen && pending[|pending| - 1] < |hs|
    requires (walk, closed) == WalkOn(hs, same, order, m, pending[|pending| - 1], [pending[|pending| - 1]],
                                      seen + {pending[|pending| - 1]})
    requires forall x :: x in seenAfter <==> x in seen || x in walk
    ensures walks + Detected(hs0, same, order, m, pending, seen)
         == (if closed then walks + [walk] else walks) + Detected(hs0, same, order, m, pending[..|pending| - 1], seenAfter)
  {
    var e := pending[|pending| - 1];
    WalkOnSame(hs0, hs, same, order, m, e, [e], seen + {e});
    assert seenAfter == seen + Elems(walk);
    var rest := Detected(hs0, same, order, m, pending[..|pending| - 1], seenAfter);
    if closed {
      assert walks + ([walk] + rest) == (walks + [walk]) + rest;
    } else {
      assert [] + rest == rest;
    }
  }

  /** Changing only `next` pointers twice changes only `next` pointers. */
  lemma SameButNextTrans(hs0: seq<HalfEdge>, hs1: seq<HalfEdge>, hs2: seq<HalfEdge>)
    requires SameButNext(hs0, hs1) && SameButNext(hs1, hs2)
    ensures SameButNext(hs0, hs2)
  {
    forall k | 0 <= k < |hs0| ensures hs2[k] == hs0[k].(next := hs2[k].next) {
      assert hs1[k] == hs0[k].(next := hs1[k].next);
    }
  }
}
