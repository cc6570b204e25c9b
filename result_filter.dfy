/**
 * The new-edges result filter of boolean.js: `filterFacesByNewEdges`, its
 * `isFaceContainNewEdge` test and the depth-first `traverseFaces` over twin
 * adjacency. `halfEdge.twins()` lives in web/app/brep/topo/edge.js, which is
 * not part of this model; it is a given function from a half-edge to the
 * half-edges glued to it.
 */
module ResultFilter {
  import opened Wrappers
  import opened Topology
  import opened Faces
  import opened SolveData

  type Twins = HalfEdgeId -> seq<HalfEdgeId>

  /** The twins of every half-edge are half-edges of the arena. */
  ghost predicate TwinsWf(t: Topology, twins: Twins)
    reads t
  {
    forall h | 0 <= h < |t.halfEdges| :: forall i | 0 <= i < |twins(h)| :: twins(h)[i] < |t.halfEdges|
  }

  /** `twin.loop.face`, when the half-edge has a loop and the loop a face. */
  function FaceOf(t: Topology, h: HalfEdgeId): (r: Option<FaceId>)
    reads t
    requires t.Valid() && h < |t.halfEdges|
    ensures r.Some? ==> r.value < |t.faces|
    ensures r.Some? <==> t.halfEdges[h].loop.Some? && t.loops[t.LoopOf(h)].face.Some?
  {
    assert HalfEdgeWf(t.halfEdges, t.edges, |t.loops|, |t.solveData|, h);
    if t.halfEdges[h].loop.None? then None
    else
      assert LoopWf(t.loops[t.halfEdges[h].loop.value], |t.halfEdges|, |t.faces|);
      t.loops[t.halfEdges[h].loop.value].face
  }

  /** The faces of the given twins that are valid, in twin order. */
  function TwinFaces(t: Topology, valid: set<FaceId>, ws: seq<HalfEdgeId>): (r: seq<FaceId>)
    reads t
    requires t.Valid() && forall i | 0 <= i < |ws| :: ws[i] < |t.halfEdges|
    ensures forall g | g in r :: g in valid && g < |t.faces|
  {
    if ws == [] then []
    else
      var first := FaceOf(t, ws[0]);
      (if first.Some? && first.value in valid then [first.value] else []) + TwinFaces(t, valid, ws[1..])
  }

  /** What `traverseFaces` pushes for the given half-edges: the valid faces of their twins, half-edge by half-edge. */
  function Pushed(t: Topology, twins: Twins, valid: set<FaceId>, hs: seq<HalfEdgeId>): (r: seq<FaceId>)
    reads t
    requires t.Valid() && TwinsWf(t, twins) && forall i | 0 <= i < |hs| :: hs[i] < |t.halfEdges|
    ensures forall g | g in r :: g in valid && g < |t.faces|
  {
    if hs == [] then [] else TwinFaces(t, valid, twins(hs[0])) + Pushed(t, twins, valid, hs[1..])
  }

  /** The faces pushed when `traverseFaces` expands face `f`. */
  function Neighbours(t: Topology, twins: Twins, valid: set<FaceId>, f: FaceId): (r: seq<FaceId>)
    reads t
    requires t.Valid() && TwinsWf(t, twins) && f < |t.faces|
    ensures forall g | g in r :: g in valid && g < |t.faces|
  {
    Pushed(t, twins, valid, HalfEdgesOf(t, f))
  }

  /** Some twin of the half-edge lies on face `g`. */
  ghost predicate TwinOn(t: Topology, twins: Twins, h: HalfEdgeId, g: FaceId)
    reads t
    requires t.Valid() && TwinsWf(t, twins) && h < |t.halfEdges|
  {
    exists j | 0 <= j < |twins(h)| :: FaceOf(t, twins(h)[j]) == Some(g)
  }

  /** Some half-edge of the list has a twin on face `g`. */
  ghost predicate Glued(t: Topology, twins: Twins, hs: seq<HalfEdgeId>, g: FaceId)
    reads t
    requires t.Valid() && TwinsWf(t, twins) && forall i | 0 <= i < |hs| :: hs[i] < |t.halfEdges|
  {
    exists i | 0 <= i < |hs| :: TwinOn(t, twins, hs[i], g)
  }

  /** The twin faces are exactly the valid faces some twin lies on. */
  lemma {:induction false} TwinFacesMember(t: Topology, twins: Twins, valid: set<FaceId>, h: HalfEdgeId, g: FaceId)
    requires t.Valid() && TwinsWf(t, twins) && h < |t.halfEdges|
    ensures g in TwinFaces(t, valid, twins(h)) <==> g in valid && TwinOn(t, twins, h, g)
  {
    var ws := twins(h);
    assert forall i | 0 <= i < |ws| :: ws[i] < |t.halfEdges|;
    TwinFacesMemberAt(t, valid, ws, g);
  }

  lemma {:induction false} TwinFacesMemberAt(t: Topology, valid: set<FaceId>, ws: seq<HalfEdgeId>, g: FaceId)
    requires t.Valid() && forall i | 0 <= i < |ws| :: ws[i] < |t.halfEdges|
    ensures g in TwinFaces(t, valid, ws) <==> g in valid && exists j | 0 <= j < |ws| :: FaceOf(t, ws[j]) == Some(g)
  {
    if ws != [] {
      TwinFacesMemberAt(t, valid, ws[1..], g);
      if exists j | 0 <= j < |ws[1..]| :: FaceOf(t, ws[1..][j]) == Some(g) {
        var j :| 0 <= j < |ws[1..]| && FaceOf(t, ws[1..][j]) == Some(g);
        assert ws[j + 1] == ws[1..][j];
      }
      if exists j | 0 <= j < |ws| :: FaceOf(t, ws[j]) == Some(g) {
        var j :| 0 <= j < |ws| && FaceOf(t, ws[j]) == Some(g);
        if j > 0 { assert ws[1..][j - 1] == ws[j]; }
      }
    }
  }

  /** A face is pushed for a list of half-edges exactly when it is valid and glued to one of them. */
  lemma {:induction false} PushedMember(t: Topology, twins: Twins, valid: set<FaceId>, hs: seq<HalfEdgeId>, g: FaceId)
    requires t.Valid() && TwinsWf(t, twins) && forall i | 0 <= i < |hs| :: hs[i] < |t.halfEdges|
    ensures g in Pushed(t, twins, valid, hs) <==> g in valid && Glued(t, twins, hs, g)
  {
    if hs != [] {
      PushedMember(t, twins, valid, hs[1..], g);
      TwinFacesMember(t, twins, valid, hs[0], g);
      if Glued(t, twins, hs[1..], g) {
        var i :| 0 <= i < |hs[1..]| && TwinOn(t, twins, hs[1..][i], g);
        assert hs[i + 1] == hs[1..][i];
      }
      if Glued(t, twins, hs, g) {
        var i :| 0 <= i < |hs| && TwinOn(t, twins, hs[i], g);
        if i > 0 { assert hs[1..][i - 1] == hs[i]; }
      }
    }
  }

  /** The neighbours of `f` are exactly the valid faces glued to one of `f`'s half-edges. */
  lemma NeighboursMember(t: Topology, twins: Twins, valid: set<FaceId>, f: FaceId, g: FaceId)
    requires t.Valid() && TwinsWf(t, twins) && f < |t.faces|
    ensures g in Neighbours(t, twins, valid, f) <==> g in valid && Glued(t, twins, HalfEdgesOf(t, f), g)
  {
    PushedMember(t, twins, valid, HalfEdgesOf(t, f), g);
  }

  /**
   * A path of the traversal: it starts anywhere, every face it leaves is
   * valid (only valid faces are expanded) and every next face is one of its
   * neighbours.
   */
  ghost predicate Path(t: Topology, twins: Twins, valid: set<FaceId>, p: seq<FaceId>)
    reads t
    requires t.Valid() && TwinsWf(t, twins)
  {
    && |p| > 0
    && (forall i | 0 <= i < |p| :: p[i] < |t.faces|)
    && forall i | 0 <= i < |p| - 1 :: p[i] in valid && p[i + 1] in Neighbours(t, twins, valid, p[i])
  }

  ghost predicate Reachable(t: Topology, twins: Twins, valid: set<FaceId>, f: FaceId, g: FaceId)
    reads t
    requires t.Valid() && TwinsWf(t, twins)
  {
    exists p | Path(t, twins, valid, p) :: p[0] == f && p[|p| - 1] == g
  }

  lemma ReachSelf(t: Topology, twins: Twins, valid: set<FaceId>, f: FaceId)
    requires t.Valid() && TwinsWf(t, twins) && f < |t.faces|
    ensures Reachable(t, twins, valid, f, f)
  {
    assert Path(t, twins, valid, [f]);
  }

  /** A reachable valid face reaches its neighbours. */
  lemma ReachStep(t: Topology, twins: Twins, valid: set<FaceId>, f: FaceId, x: FaceId, n: FaceId)
    requires t.Valid() && TwinsWf(t, twins)
    requires Reachable(t, twins, valid, f, x) && x < |t.faces| && x in valid && n in Neighbours(t, twins, valid, x)
    ensures Reachable(t, twins, valid, f, n)
  {
    var p :| Path(t, twins, valid, p) && p[0] == f && p[|p| - 1] == x;
    var p' := p + [n];
    assert Path(t, twins, valid, p');
  }

  /** Reachability is transitive. */
  lemma ReachTrans(t: Topology, twins: Twins, valid: set<FaceId>, f: FaceId, x: FaceId, g: FaceId)
    requires t.Valid() && TwinsWf(t, twins)
    requires Reachable(t, twins, valid, f, x) && Reachable(t, twins, valid, x, g)
    ensures Reachable(t, twins, valid, f, g)
  {
    var p :| Path(t, twins, valid, p) && p[0] == f && p[|p| - 1] == x;
    var q :| Path(t, twins, valid, q) && q[0] == x && q[|q| - 1] == g;
    var r := p + q[1..];
    forall i | 0 <= i < |r| - 1 ensures r[i] in valid && r[i + 1] in Neighbours(t, twins, valid, r[i]) {
      if i < |p| - 1 {
      } else {
        assert r[i] == q[i - |p| + 1] && r[i + 1] == q[i - |p| + 2];
      }
    }
    assert Path(t, twins, valid, r);
  }

  /** A set of faces that holds `f` and the neighbours of its valid members holds everything `f` reaches. */
  lemma {:induction false} ClosedHoldsReach(t: Topology, twins: Twins, valid: set<FaceId>, seen: set<FaceId>, f: FaceId, g: FaceId)
    requires t.Valid() && TwinsWf(t, twins) && f in seen
    requires forall x | x in seen && x in valid && x < |t.faces| :: forall n | n in Neighbours(t, twins, valid, x) :: n in seen
    requires Reachable(t, twins, valid, f, g)
    ensures g in seen
  {
    var p :| Path(t, twins, valid, p) && p[0] == f && p[|p| - 1] == g;
    var i := 0;
    while i < |p| - 1
      invariant 0 <= i < |p| && p[i] in seen
    {
      assert p[i] in valid && p[i + 1] in Neighbours(t, twins, valid, p[i]);
      i := i + 1;
    }
  }

  /** `isFaceContainNewEdge`'s meaning: one of the face's half-edges is new or has a new manifold peer. */
  ghost predicate HasNewEdge(t: Topology, f: FaceId)
    reads t
    requires t.Valid() && f < |t.faces|
  {
    exists i | 0 <= i < |HalfEdgesOf(t, f)| :: NewInManifold(t, HalfEdgesOf(t, f)[i])
  }

  /** `isFaceContainNewEdge`: scans the face's half-edges and stops at the first `isNewNM` one. */
  method FaceContainsNewEdge(t: Topology, f: FaceId) returns (b: bool)
    requires t.Valid() && f < |t.faces|
    ensures b == HasNewEdge(t, f)
  {
    var es := HalfEdgesOf(t, f);
    for i := 0 to |es|
      invariant forall j | 0 <= j < i :: !NewInManifold(t, es[j])
    {
      b := IsNewNM(t, es[i]);
      if b {
        return;
      }
    }
    b := false;
  }

  /** The traversal callback of `filterFacesByNewEdges`: the face is already kept or has a new edge. */
  ghost predicate Hit(t: Topology, result: seq<FaceId>, f: FaceId)
    reads t
    requires t.Valid() && f < |t.faces|
  {
    f in result || HasNewEdge(t, f)
  }

  /** Some face reachable from `f` satisfies the callback. */
  ghost predicate HitReachable(t: Topology, twins: Twins, valid: set<FaceId>, result: seq<FaceId>, f: FaceId)
    reads t
    requires t.Valid() && TwinsWf(t, twins)
  {
    exists g | 0 <= g < |t.faces| :: Reachable(t, twins, valid, f, g) && Hit(t, result, g)
  }

  /** Every valid face of `seen` has each neighbour seen or still on the stack. */
  ghost predicate Expanded(t: Topology, twins: Twins, valid: set<FaceId>, seen: set<FaceId>, stack: seq<FaceId>)
    reads t
    requires t.Valid() && TwinsWf(t, twins)
  {
    forall x | x in seen && x in valid && x < |t.faces| :: forall n | n in Neighbours(t, twins, valid, x) :: n in seen || n in stack
  }

  /** Every face on the stack is `face` or valid, and reachable from `face`. */
  ghost predicate Pending(t: Topology, twins: Twins, valid: set<FaceId>, face: FaceId, stack: seq<FaceId>)
    reads t
    requires t.Valid() && TwinsWf(t, twins)
  {
    forall i | 0 <= i < |stack| ::
      stack[i] < |t.faces| && (stack[i] in valid || stack[i] == face) && Reachable(t, twins, valid, face, stack[i])
  }

  /** Every seen face is `face` or valid, reachable from `face`, and misses the callback. */
  ghost predicate Visited(t: Topology, twins: Twins, valid: set<FaceId>, result: seq<FaceId>, face: FaceId, seen: set<FaceId>)
    reads t
    requires t.Valid() && TwinsWf(t, twins)
  {
    forall x | x in seen ::
      x < |t.faces| && (x in valid || x == face) && Reachable(t, twins, valid, face, x) && !Hit(t, result, x)
  }

  /**
   * The state of the traversal from `face`: the stack is pending, the seen
   * faces are visited, `face` is seen or pending, and seen valid faces have
   * been expanded.
   */
  ghost predicate Searching(t: Topology, twins: Twins, valid: set<FaceId>, result: seq<FaceId>, face: FaceId,
                            seen: set<FaceId>, stack: seq<FaceId>)
    reads t
    requires t.Valid() && TwinsWf(t, twins)
  {
    && Pending(t, twins, valid, face, stack)
    && Visited(t, twins, valid, result, face, seen)
    && (face in seen || face in stack)
    && Expanded(t, twins, valid, seen, stack)
  }

  /** Popping a face already seen. */
  lemma PopSeen(t: Topology, twins: Twins, valid: set<FaceId>, result: seq<FaceId>, face: FaceId,
                seen: set<FaceId>, stack: seq<FaceId>)
    requires t.Valid() && TwinsWf(t, twins)
    requires Searching(t, twins, valid, result, face, seen, stack) && stack != [] && stack[|stack| - 1] in seen
    ensures Searching(t, twins, valid, result, face, seen, stack[..|stack| - 1])
  {
    assert forall n | n in stack && n != stack[|stack| - 1] :: n in stack[..|stack| - 1];
  }

  /** Expanding the popped face keeps every seen valid face expanded. */
  lemma ExpandStep(t: Topology, twins: Twins, valid: set<FaceId>, seen: set<FaceId>, stack: seq<FaceId>)
    requires t.Valid() && TwinsWf(t, twins)
    requires Expanded(t, twins, valid, seen, stack) && stack != [] && stack[|stack| - 1] < |t.faces|
    ensures var x := stack[|stack| - 1];
      Expanded(t, twins, valid, seen + {x}, stack[..|stack| - 1] + if x in valid then Neighbours(t, twins, valid, x) else [])
  {
    var x := stack[|stack| - 1];
    var stack' := stack[..|stack| - 1] + if x in valid then Neighbours(t, twins, valid, x) else [];
    assert forall n | n in stack && n != x :: n in stack';
  }

  /** Popping the top of a pending stack and pushing the neighbours of the popped face, when valid, keeps it pending. */
  lemma PendingStep(t: Topology, twins: Twins, valid: set<FaceId>, face: FaceId, stack: seq<FaceId>)
    requires t.Valid() && TwinsWf(t, twins)
    requires Pending(t, twins, valid, face, stack) && stack != []
    ensures var x := stack[|stack| - 1];
      Pending(t, twins, valid, face, stack[..|stack| - 1] + if x in valid then Neighbours(t, twins, valid, x) else [])
  {
    var x := stack[|stack| - 1];
    var pre := stack[..|stack| - 1];
    PendingDrop(t, twins, valid, face, stack);
    if x in valid {
      PendingNeighbours(t, twins, valid, face, x);
      PendingAppend(t, twins, valid, face, pre, Neighbours(t, twins, valid, x));
    } else {
      assert pre + [] == pre;
    }
  }

  /** Dropping the top keeps a stack pending. */
  lemma PendingDrop(t: Topology, twins: Twins, valid: set<FaceId>, face: FaceId, stack: seq<FaceId>)
    requires t.Valid() && TwinsWf(t, twins)
    requires Pending(t, twins, valid, face, stack) && stack != []
    ensures Pending(t, twins, valid, face, stack[..|stack| - 1])
  {
    var pre := stack[..|stack| - 1];
    forall i | 0 <= i < |pre|
      ensures pre[i] < |t.faces| && (pre[i] in valid || pre[i] == face) && Reachable(t, twins, valid, face, pre[i])
    {
      assert pre[i] == stack[i];
    }
  }

  /** Two pending stacks, one on the other, are pending. */
  lemma PendingAppend(t: Topology, twins: Twins, valid: set<FaceId>, face: FaceId, a: seq<FaceId>, b: seq<FaceId>)
    requires t.Valid() && TwinsWf(t, twins)
    requires Pending(t, twins, valid, face, a) && Pending(t, twins, valid, face, b)
    ensures Pending(t, twins, valid, face, a + b)
  {
    var ab := a + b;
    forall i | 0 <= i < |ab|
      ensures ab[i] < |t.faces| && (ab[i] in valid || ab[i] == face) && Reachable(t, twins, valid, face, ab[i])
    {
      if i < |a| {
        assert ab[i] == a[i];
      } else {
        assert ab[i] == b[i - |a|];
      }
    }
  }

  /** The neighbours of a valid face reachable from `face` are pending. */
  lemma PendingNeighbours(t: Topology, twins: Twins, valid: set<FaceId>, face: FaceId, x: FaceId)
    requires t.Valid() && TwinsWf(t, twins)
    requires x < |t.faces| && x in valid && Reachable(t, twins, valid, face, x)
    ensures Pending(t, twins, valid, face, Neighbours(t, twins, valid, x))
  {
    var ns := Neighbours(t, twins, valid, x);
    forall i | 0 <= i < |ns|
      ensures ns[i] < |t.faces| && (ns[i] in valid || ns[i] == face) && Reachable(t, twins, valid, face, ns[i])
    {
      ReachStep(t, twins, valid, face, x, ns[i]);
    }
  }

  /** Popping a new face that misses the callback, and pushing its neighbours when it is valid. */
  lemma PopExpand(t: Topology, twins: Twins, valid: set<FaceId>, result: seq<FaceId>, face: FaceId,
                  seen: set<FaceId>, stack: seq<FaceId>)
    requires t.Valid() && TwinsWf(t, twins)
    requires Searching(t, twins, valid, result, face, seen, stack) && stack != []
    requires stack[|stack| - 1] !in seen && !Hit(t, result, stack[|stack| - 1])
    ensures var x := stack[|stack| - 1];
      Searching(t, twins, valid, result, face, seen + {x},
                stack[..|stack| - 1] + if x in valid then Neighbours(t, twins, valid, x) else [])
  {
    var x := stack[|stack| - 1];
    ExpandStep(t, twins, valid, seen, stack);
    PendingStep(t, twins, valid, face, stack);
    VisitStep(t, twins, valid, result, face, seen, stack);
    StillThere(face, seen, stack, if x in valid then Neighbours(t, twins, valid, x) else []);
  }

  /** A face seen or on the stack is still seen or on the stack after the top is popped, seen and expanded. */
  lemma StillThere(face: FaceId, seen: set<FaceId>, stack: seq<FaceId>, ns: seq<FaceId>)
    requires stack != [] && (face in seen || face in stack)
    ensures face in seen + {stack[|stack| - 1]} || face in stack[..|stack| - 1] + ns
  {
    if face !in seen && face != stack[|stack| - 1] {
      var i :| 0 <= i < |stack| && stack[i] == face;
      assert (stack[..|stack| - 1] + ns)[i] == face;
    }
  }

  /** Marking as seen the top of a pending stack, when it misses the callback, keeps the seen faces visited. */
  lemma VisitStep(t: Topology, twins: Twins, valid: set<FaceId>, result: seq<FaceId>, face: FaceId,
                  seen: set<FaceId>, stack: seq<FaceId>)
    requires t.Valid() && TwinsWf(t, twins)
    requires Pending(t, twins, valid, face, stack) && Visited(t, twins, valid, result, face, seen)
    requires stack != [] && !Hit(t, result, stack[|stack| - 1])
    ensures Visited(t, twins, valid, result, face, seen + {stack[|stack| - 1]})
  {
    var x := stack[|stack| - 1];
    assert x < |t.faces| && (x in valid || x == face) && Reachable(t, twins, valid, face, x);
  }

  /**
   * `traverseFaces(face, validFaces, callback)` with the callback of
   * `filterFacesByNewEdges`: pops faces depth first, skips the seen ones,
   * stops at the first that satisfies the callback, and expands only valid
   * faces. It answers whether some face reachable from `face` satisfies the
   * callback.
   */
  method TraverseFaces(t: Topology, twins: Twins, face: FaceId, valid: set<FaceId>, result: seq<FaceId>)
    returns (found: bool)
    requires t.Valid() && TwinsWf(t, twins) && face < |t.faces|
    ensures found <==> HitReachable(t, twins, valid, result, face)
  {
    var stack := [face];
    var seen: set<FaceId> := {};
    ReachSelf(t, twins, valid, face);
    while stack != []
      invariant Searching(t, twins, valid, result, face, seen, stack)
      decreases (valid + {face}) - seen, |stack|
    {
      var x := stack[|stack| - 1];
      if x in seen {
        PopSeen(t, twins, valid, result, face, seen, stack);
        stack := stack[..|stack| - 1];
        continue;
      }
      var isHit := x in result;
      if !isHit {
        isHit := FaceContainsNewEdge(t, x);
      }
      if isHit {
        assert Reachable(t, twins, valid, face, x) && Hit(t, result, x);
        return true;
      }
      PopExpand(t, twins, valid, result, face, seen, stack);
      var ns := if x in valid then Neighbours(t, twins, valid, x) else [];
      stack := stack[..|stack| - 1] + ns;
      seen := seen + {x};
    }
    forall g | 0 <= g < |t.faces| && Reachable(t, twins, valid, face, g) ensures !Hit(t, result, g) {
      ClosedHoldsReach(t, twins, valid, seen, face, g);
    }
    return false;
  }

  /** Some face reachable from `f` has a new edge. */
  ghost predicate ReachesNew(t: Topology, twins: Twins, valid: set<FaceId>, f: FaceId)
    reads t
    requires t.Valid() && TwinsWf(t, twins)
  {
    exists g | 0 <= g < |t.faces| :: Reachable(t, twins, valid, f, g) && HasNewEdge(t, g)
  }

  /** When every kept face reaches a new edge, the callback holds somewhere reachable exactly when a new edge is reachable. */
  lemma HitMeansNew(t: Topology, twins: Twins, valid: set<FaceId>, result: seq<FaceId>, face: FaceId)
    requires t.Valid() && TwinsWf(t, twins)
    requires forall g | g in result :: ReachesNew(t, twins, valid, g)
    ensures HitReachable(t, twins, valid, result, face) <==> ReachesNew(t, twins, valid, face)
  {
    if HitReachable(t, twins, valid, result, face) {
      var g :| 0 <= g < |t.faces| && Reachable(t, twins, valid, face, g) && Hit(t, result, g);
      if g in result {
        var g' :| 0 <= g' < |t.faces| && Reachable(t, twins, valid, g, g') && HasNewEdge(t, g');
        ReachTrans(t, twins, valid, face, g, g');
      }
    }
  }

  /** `result` holds, once each, exactly the faces of `done` that reach a new edge. */
  ghost predicate Kept(t: Topology, twins: Twins, valid: set<FaceId>, done: seq<FaceId>, result: seq<FaceId>)
    reads t
    requires t.Valid() && TwinsWf(t, twins)
  {
    && (forall g :: g in result <==> g in done && ReachesNew(t, twins, valid, g))
    && forall a, b | 0 <= a < b < |result| :: result[a] != result[b]
  }

  /** Adding the next face when its traversal succeeds keeps the result exact. */
  lemma KeepStep(t: Topology, twins: Twins, valid: set<FaceId>, done: seq<FaceId>, result: seq<FaceId>,
                 face: FaceId, found: bool)
    requires t.Valid() && TwinsWf(t, twins)
    requires Kept(t, twins, valid, done, result) && (found <==> ReachesNew(t, twins, valid, face))
    ensures Kept(t, twins, valid, done + [face], if found && face !in result then result + [face] else result)
  {
  }

  /**
   * `filterFacesByNewEdges(faces)`: the valid faces are all the given ones,
   * and a face is kept (once, in order) exactly when a traversal from it
   * reaches a face with a new edge; every given face with a new edge is kept.
   */
  method FilterFacesByNewEdges(t: Topology, twins: Twins, faces: seq<FaceId>) returns (result: seq<FaceId>)
    requires t.Valid() && TwinsWf(t, twins) && forall i | 0 <= i < |faces| :: faces[i] < |t.faces|
    ensures Kept(t, twins, (set f | f in faces), faces, result)
    ensures forall i | 0 <= i < |faces| && HasNewEdge(t, faces[i]) :: faces[i] in result
  {
    var valid := set f | f in faces;
    result := [];
    for i := 0 to |faces|
      invariant Kept(t, twins, valid, faces[..i], result)
    {
      var face := faces[i];
      var found := TraverseFaces(t, twins, face, valid, result);
      HitMeansNew(t, twins, valid, result, face);
      KeepStep(t, twins, valid, faces[..i], result, face, found);
      if found && face !in result {
        result := result + [face];
      }
      assert faces[..i + 1] == faces[..i] + [face];
    }
    assert faces[..|faces|] == faces;
    forall i | 0 <= i < |faces| && HasNewEdge(t, faces[i]) ensures faces[i] in result {
      ReachSelf(t, twins, valid, faces[i]);
    }
  }
}
