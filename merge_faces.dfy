/**
 * The bookkeeping half of `mergeFaces` (boolean.js): every loop of the
 * merged faces is linked, the invalid half-edges are extended along `next`
 * until a valid or already invalid one, and the destination face's outer
 * loop is rebuilt from them while the other faces are cleared. Which
 * half-edges `invalidate` classifies as valid or invalid is a geometric
 * corner test; its two sets are given.
 */
module MergeFaces {
  import opened Wrappers
  import opened Topology
  import opened Faces
  import opened SolveData
  import opened LoopDetect

  /** `new Set([...faces1, ...faces2])` in iteration order: each face at its first occurrence. */
  function Dedup(s: seq<FaceId>): (r: seq<FaceId>)
    ensures forall x :: x in r <==> x in s
    ensures forall i | 0 <= i < |r| :: r[i] in s
    ensures forall i, j | 0 <= i < j < |r| :: r[i] != r[j]
    ensures s != [] ==> r != [] && r[0] == s[0]
  {
    if s == [] then []
    else
      var init := Dedup(s[..|s| - 1]);
      assert forall x :: x in s <==> x in s[..|s| - 1] || x == s[|s| - 1];
      assert |s| > 1 ==> s[..|s| - 1][0] == s[0];
      if s[|s| - 1] in init then init else init + [s[|s| - 1]]
  }

  /** The loops of the faces, face by face, each face's in `loops` order. */
  function LoopsOfFaces(t: Topology, fs: seq<FaceId>): (r: seq<LoopId>)
    reads t
    requires t.Valid() && forall i | 0 <= i < |fs| :: fs[i] < |t.faces|
    ensures forall p | 0 <= p < |r| :: r[p] < |t.loops|
  {
    if fs == [] then [] else LoopsOf(t, fs[0]) + LoopsOfFaces(t, fs[1..])
  }

  /** Each loop of each of the faces is among the faces' loops. */
  lemma {:induction false} LoopsOfFacesMember(t: Topology, fs: seq<FaceId>, i: nat, l: LoopId)
    requires t.Valid() && forall j | 0 <= j < |fs| :: fs[j] < |t.faces|
    requires i < |fs| && l in LoopsOf(t, fs[i])
    ensures l in LoopsOfFaces(t, fs)
  {
    if i > 0 {
      assert fs[1..][i - 1] == fs[i];
      LoopsOfFacesMember(t, fs[1..], i - 1, l);
    }
  }

  /** `for (let face of faces) for (let edge of face.edges)`: the faces' half-edges, face by face. */
  function EdgesOfFaces(t: Topology, fs: seq<FaceId>): (r: seq<HalfEdgeId>)
    reads t
    requires t.Valid() && forall i | 0 <= i < |fs| :: fs[i] < |t.faces|
    ensures forall i | 0 <= i < |r| :: r[i] < |t.halfEdges|
  {
    if fs == [] then [] else HalfEdgesOf(t, fs[0]) + EdgesOfFaces(t, fs[1..])
  }

  /** Enumerating loop by loop distributes over concatenation. */
  lemma {:induction false} HalfEdgesOfLoopsAppend(t: Topology, a: seq<LoopId>, b: seq<LoopId>)
    requires t.Valid()
    requires forall i | 0 <= i < |a| :: a[i] < |t.loops|
    requires forall i | 0 <= i < |b| :: b[i] < |t.loops|
    ensures HalfEdgesOfLoops(t, a + b) == HalfEdgesOfLoops(t, a) + HalfEdgesOfLoops(t, b)
  {
    if a == [] {
      assert a + b == b;
    } else {
      assert (a + b)[1..] == a[1..] + b;
      HalfEdgesOfLoopsAppend(t, a[1..], b);
    }
  }

  /** The faces' half-edges, face by face, are the half-edges of their loops, loop by loop. */
  lemma {:induction false} EdgesOfFacesIsLoops(t: Topology, fs: seq<FaceId>)
    requires t.Valid() && forall i | 0 <= i < |fs| :: fs[i] < |t.faces|
    ensures EdgesOfFaces(t, fs) == HalfEdgesOfLoops(t, LoopsOfFaces(t, fs))
  {
    if fs != [] {
      EdgesOfFacesIsLoops(t, fs[1..]);
      HalfEdgesOfLoopsAppend(t, LoopsOf(t, fs[0]), LoopsOfFaces(t, fs[1..]));
    }
  }

  /** Some loop of `lps` holds the half-edge. */
  ghost predicate InLoops(ls: seq<Loop>, lps: seq<LoopId>, x: HalfEdgeId)
  {
    exists q | 0 <= q < |lps| :: lps[q] < |ls| && x in ls[lps[q]].halfEdges
  }

  /** The half-edge's `next` is set and is held by some loop of `lps`. */
  ghost predicate NextInLoops(hs: seq<HalfEdge>, ls: seq<Loop>, lps: seq<LoopId>, x: HalfEdgeId)
  {
    x < |hs| && hs[x].next.Some? && InLoops(ls, lps, hs[x].next.value)
  }

  /**
   * The `i`-th entry of loop `lps[p]` is linked last among the loops: it is
   * its loop's last occurrence of that half-edge, and no later loop holds it.
   */
  ghost predicate LastLink(ls: seq<Loop>, lps: seq<LoopId>, p: nat, i: nat)
  {
    && p < |lps| && lps[p] < |ls| && i < |ls[lps[p]].halfEdges|
    && ls[lps[p]].halfEdges[i] !in ls[lps[p]].halfEdges[i + 1..]
    && forall r | p < r < |lps| && lps[r] < |ls| :: ls[lps[p]].halfEdges[i] !in ls[lps[r]].halfEdges
  }

  /** Entry `i` of loop `lps[p]` has its cyclic successor as `next`. */
  ghost predicate LinkedAt(hs: seq<HalfEdge>, ls: seq<Loop>, lps: seq<LoopId>, p: nat, i: nat)
  {
    && p < |lps| && lps[p] < |ls| && i < |ls[lps[p]].halfEdges|
    && ls[lps[p]].halfEdges[i] < |hs|
    && hs[ls[lps[p]].halfEdges[i]].next
       == Some(ls[lps[p]].halfEdges[(i + 1) % |ls[lps[p]].halfEdges|])
  }

  /** What one `loop.link()` leaves: only `next` of the loop's half-edges changes, to the successor of the last occurrence. */
  ghost predicate LinkedOnce(hs0: seq<HalfEdge>, hs1: seq<HalfEdge>, ws: seq<HalfEdgeId>)
  {
    && SameButNext(hs0, hs1)
    && (forall k | 0 <= k < |hs0| && k !in ws :: hs1[k] == hs0[k])
    && (forall i | 0 <= i < |ws| && ws[i] !in ws[i + 1..] :: ws[i] < |hs1| && hs1[ws[i]].next == Some(ws[(i + 1) % |ws|]))
  }

  /** The state after linking the first `p` loops of `lps`, starting from `hs0`. */
  ghost predicate LinkedUpTo(hs0: seq<HalfEdge>, hs: seq<HalfEdge>, ls: seq<Loop>, lps: seq<LoopId>, p: nat)
    requires p <= |lps|
  {
    && SameButNext(hs0, hs)
    && (forall k | 0 <= k < |hs| && !InLoops(ls, lps[..p], k) :: hs[k] == hs0[k])
    && (forall k | 0 <= k < |hs| && InLoops(ls, lps[..p], k) :: NextInLoops(hs, ls, lps[..p], k))
    && (forall q, i | LastLink(ls, lps[..p], q, i) :: LinkedAt(hs, ls, lps[..p], q, i))
  }

  /** The last occurrence of an entry, at or after it. */
  lemma LastOccurrence(ws: seq<HalfEdgeId>, i: nat) returns (j: nat)
    requires i < |ws|
    ensures i <= j < |ws| && ws[j] == ws[i] && ws[j] !in ws[j + 1..]
    decreases |ws| - i
  {
    if ws[i] in ws[i + 1..] {
      var b :| 0 <= b < |ws[i + 1..]| && ws[i + 1..][b] == ws[i];
      j := LastOccurrence(ws, i + 1 + b);
    } else {
      j := i;
    }
  }

  /** After `loop.link()`, every half-edge of the loop has a `next` in the loop. */
  lemma LinkedOnceCloses(hs0: seq<HalfEdge>, hs1: seq<HalfEdge>, ws: seq<HalfEdgeId>, x: HalfEdgeId)
    requires LinkedOnce(hs0, hs1, ws) && x in ws
    ensures x < |hs1| && hs1[x].next.Some? && hs1[x].next.value in ws
  {
    var i :| 0 <= i < |ws| && ws[i] == x;
    var j := LastOccurrence(ws, i);
  }

  /** Linking one more loop keeps the state of linking a prefix. */
  lemma LinkStep(hs0: seq<HalfEdge>, hs: seq<HalfEdge>, hs': seq<HalfEdge>, ls: seq<Loop>, lps: seq<LoopId>, p: nat)
    requires p < |lps| && lps[p] < |ls|
    requires LinkedUpTo(hs0, hs, ls, lps, p)
    requires LinkedOnce(hs, hs', ls[lps[p]].halfEdges)
    ensures LinkedUpTo(hs0, hs', ls, lps, p + 1)
  {
    SameButNextTrans(hs0, hs, hs');
    InLoopsStep(ls, lps, p);
    LinkStepKept(hs0, hs, hs', ls, lps, p);
    LinkStepNext(hs0, hs, hs', ls, lps, p, lps[..p + 1]);
    LinkStepLast(hs0, hs, hs', ls, lps, p, lps[..p + 1]);
  }

  /** Half-edges outside the first `p + 1` loops are untouched. */
  lemma LinkStepKept(hs0: seq<HalfEdge>, hs: seq<HalfEdge>, hs': seq<HalfEdge>, ls: seq<Loop>, lps: seq<LoopId>, p: nat)
    requires p < |lps| && lps[p] < |ls|
    requires LinkedUpTo(hs0, hs, ls, lps, p)
    requires LinkedOnce(hs, hs', ls[lps[p]].halfEdges)
    requires forall x :: InLoops(ls, lps[..p + 1], x) <==> InLoops(ls, lps[..p], x) || x in ls[lps[p]].halfEdges
    ensures forall k | 0 <= k < |hs'| && !InLoops(ls, lps[..p + 1], k) :: hs'[k] == hs0[k]
  {
  }

  /** Every half-edge of the first `p + 1` loops has its `next` in them. */
  lemma LinkStepNext(hs0: seq<HalfEdge>, hs: seq<HalfEdge>, hs': seq<HalfEdge>, ls: seq<Loop>, lps: seq<LoopId>, p: nat,
                     pre': seq<LoopId>)
    requires p < |lps| && lps[p] < |ls| && pre' == lps[..p + 1]
    requires LinkedUpTo(hs0, hs, ls, lps, p)
    requires LinkedOnce(hs, hs', ls[lps[p]].halfEdges)
    requires forall x :: InLoops(ls, pre', x) <==> InLoops(ls, lps[..p], x) || x in ls[lps[p]].halfEdges
    ensures forall k | 0 <= k < |hs'| && InLoops(ls, pre', k) :: NextInLoops(hs', ls, pre', k)
  {
    var ws := ls[lps[p]].halfEdges;
    var pre := lps[..p];
    forall k | 0 <= k < |hs'| && InLoops(ls, pre', k) ensures NextInLoops(hs', ls, pre', k) {
      if k in ws {
        LinkedOnceCloses(hs, hs', ws, k);
      } else {
        assert NextInLoops(hs, ls, pre, k);
      }
    }
  }

  /** The entries linked last among the first `p + 1` loops have their cyclic successor. */
  lemma LinkStepLast(hs0: seq<HalfEdge>, hs: seq<HalfEdge>, hs': seq<HalfEdge>, ls: seq<Loop>, lps: seq<LoopId>, p: nat,
                     pre': seq<LoopId>)
    requires p < |lps| && lps[p] < |ls| && pre' == lps[..p + 1]
    requires LinkedUpTo(hs0, hs, ls, lps, p)
    requires LinkedOnce(hs, hs', ls[lps[p]].halfEdges)
    ensures forall q, i | LastLink(ls, pre', q, i) :: LinkedAt(hs', ls, pre', q, i)
  {
    forall q: nat, i: nat | LastLink(ls, pre', q, i) ensures LinkedAt(hs', ls, pre', q, i) {
      LinkStepLastAt(hs0, hs, hs', ls, lps, p, pre', q, i);
    }
  }

  /** One entry of `LinkStepLast`. */
  lemma LinkStepLastAt(hs0: seq<HalfEdge>, hs: seq<HalfEdge>, hs': seq<HalfEdge>, ls: seq<Loop>, lps: seq<LoopId>, p: nat,
                       pre': seq<LoopId>, q: nat, i: nat)
    requires p < |lps| && lps[p] < |ls| && pre' == lps[..p + 1]
    requires LinkedUpTo(hs0, hs, ls, lps, p)
    requires LinkedOnce(hs, hs', ls[lps[p]].halfEdges)
    requires LastLink(ls, pre', q, i)
    ensures LinkedAt(hs', ls, pre', q, i)
  {
    var pre := lps[..p];
    if q == p {
      assert pre'[q] == lps[p];
    } else {
      assert pre'[q] == pre[q];
      assert pre'[p] == lps[p];
      assert LastLink(ls, pre, q, i);
      assert LinkedAt(hs, ls, pre, q, i);
    }
  }

  /** A half-edge is in the first `p + 1` loops exactly when it is in the first `p` or in loop `p`. */
  lemma InLoopsStep(ls: seq<Loop>, lps: seq<LoopId>, p: nat)
    requires p < |lps| && lps[p] < |ls|
    ensures forall x :: InLoops(ls, lps[..p + 1], x) <==> InLoops(ls, lps[..p], x) || x in ls[lps[p]].halfEdges
  {
    var pre, pre' := lps[..p], lps[..p + 1];
    forall x ensures InLoops(ls, pre', x) <==> InLoops(ls, pre, x) || x in ls[lps[p]].halfEdges {
      if InLoops(ls, pre', x) {
        var q :| 0 <= q < |pre'| && pre'[q] < |ls| && x in ls[pre'[q]].halfEdges;
        if q < p { assert pre[q] == pre'[q]; }
      }
      if InLoops(ls, pre, x) {
        var q :| 0 <= q < |pre| && pre[q] < |ls| && x in ls[pre[q]].halfEdges;
        assert pre'[q] == pre[q];
      }
      if x in ls[lps[p]].halfEdges {
        assert pre'[p] == lps[p];
      }
    }
  }

  /**
   * `for (let loop of face.loops) loop.link()` over every merged face: every
   * half-edge of those loops gets a `next` held by one of them, the entries
   * linked last get their cyclic successor, and nothing else changes.
   */
  method LinkLoops(t: Topology, lps: seq<LoopId>)
    requires t.Valid() && forall p | 0 <= p < |lps| :: lps[p] < |t.loops|
    modifies t
    ensures t.Valid()
    ensures t.edges == old(t.edges) && t.loops == old(t.loops) && t.faces == old(t.faces) && t.solveData == old(t.solveData)
    ensures SameButNext(old(t.halfEdges), t.halfEdges)
    ensures forall k | 0 <= k < |t.halfEdges| && !InLoops(t.loops, lps, k) :: t.halfEdges[k] == old(t.halfEdges[k])
    ensures forall k | 0 <= k < |t.halfEdges| && InLoops(t.loops, lps, k) :: NextInLoops(t.halfEdges, t.loops, lps, k)
    ensures forall p, i | LastLink(t.loops, lps, p, i) :: LinkedAt(t.halfEdges, t.loops, lps, p, i)
  {
    ghost var hs0 := t.halfEdges;
    assert lps[..0] == [];
    for p := 0 to |lps|
      invariant t.Valid()
      invariant t.edges == old(t.edges) && t.loops == old(t.loops) && t.faces == old(t.faces) && t.solveData == old(t.solveData)
      invariant LinkedUpTo(hs0, t.halfEdges, t.loops, lps, p)
    {
      ghost var hs := t.halfEdges;
      t.Link(lps[p]);
      LinkStep(hs0, hs, t.halfEdges, t.loops, lps, p);
    }
    assert lps[..|lps|] == lps;
  }

  /** Every half-edge of `s` has a `next`, and it is in `s`. */
  ghost predicate NextClosed(hs: seq<HalfEdge>, s: set<HalfEdgeId>)
  {
    forall k | k in s :: k < |hs| && hs[k].next.Some? && hs[k].next.value in s
  }

  predicate NoRepeats(s: seq<HalfEdgeId>)
  {
    forall i, j | 0 <= i < j < |s| :: s[i] != s[j]
  }

  ghost function Members(s: seq<HalfEdgeId>): set<HalfEdgeId>
  {
    set x | x in s
  }

  /** Entry `k` of `inv` is the `next` of an earlier entry. */
  ghost predicate Reached(hs: seq<HalfEdge>, inv: seq<HalfEdgeId>, k: nat)
  {
    exists j | 0 <= j < k :: j < |inv| && inv[j] < |hs| && k < |inv| && hs[inv[j]].next == Some(inv[k])
  }

  /**
   * The invalid set as the chain step grows it: it starts with the given
   * invalid half-edges, repeats none, stays within `s`, and each half-edge it
   * adds is not valid and is the `next` of one already in it.
   */
  ghost predicate Chained(hs: seq<HalfEdge>, valid: set<HalfEdgeId>, invalid: seq<HalfEdgeId>, inv: seq<HalfEdgeId>,
                          s: set<HalfEdgeId>)
  {
    && invalid <= inv && NoRepeats(inv)
    && (forall k | 0 <= k < |inv| :: inv[k] in s)
    && (forall k | |invalid| <= k < |inv| :: inv[k] !in valid && Reached(hs, inv, k))
  }

  /** The `next` of an invalid half-edge is valid or invalid. */
  ghost predicate Stops(hs: seq<HalfEdge>, valid: set<HalfEdgeId>, inv: seq<HalfEdgeId>, x: HalfEdgeId)
  {
    x < |hs| && hs[x].next.Some? && (hs[x].next.value in valid || hs[x].next.value in inv)
  }

  /** Appending a half-edge reached from an entry, in `s`, neither valid nor invalid keeps the set chained. */
  lemma ChainedAdd(hs: seq<HalfEdge>, valid: set<HalfEdgeId>, invalid: seq<HalfEdgeId>, inv: seq<HalfEdgeId>,
                   s: set<HalfEdgeId>, from: nat, edge: HalfEdgeId)
    requires Chained(hs, valid, invalid, inv, s)
    requires from < |inv| && inv[from] < |hs| && hs[inv[from]].next == Some(edge)
    requires edge in s && edge !in valid && edge !in inv
    ensures Chained(hs, valid, invalid, inv + [edge], s)
  {
    var inv' := inv + [edge];
    assert invalid <= inv';
    forall k | |invalid| <= k < |inv'| ensures inv'[k] !in valid && Reached(hs, inv', k) {
      if k < |inv| {
        var j :| 0 <= j < k && j < |inv| && inv[j] < |hs| && k < |inv| && hs[inv[j]].next == Some(inv[k]);
        assert inv'[j] == inv[j];
      } else {
        assert inv'[from] == inv[from];
      }
    }
  }

  /** What stops the chain stops it still when more half-edges become invalid. */
  lemma StopsGrow(hs: seq<HalfEdge>, valid: set<HalfEdgeId>, inv: seq<HalfEdgeId>, inv': seq<HalfEdgeId>, i: nat)
    requires i < |inv| && inv <= inv'
    requires forall k | 0 <= k < i :: Stops(hs, valid, inv, inv[k])
    requires Stops(hs, valid, inv', inv'[i])
    ensures forall k | 0 <= k < i + 1 :: Stops(hs, valid, inv', inv'[k])
  {
    forall k | 0 <= k < i ensures Stops(hs, valid, inv', inv'[k]) {
      assert inv'[k] == inv[k];
      assert Stops(hs, valid, inv, inv[k]);
      var n := hs[inv[k]].next.value;
      if n in inv {
        var j :| 0 <= j < |inv| && inv[j] == n;
        assert inv'[j] == n;
      }
    }
  }

  /**
   * The inner `while` of the chain step for the `i`-th invalid half-edge:
   * follows `next` from it, adding each half-edge until one is valid or
   * already invalid.
   */
  method FollowChain(hs: seq<HalfEdge>, valid: set<HalfEdgeId>, invalid: seq<HalfEdgeId>, inv: seq<HalfEdgeId>,
                     ghost s: set<HalfEdgeId>, i: nat)
    returns (inv': seq<HalfEdgeId>)
    requires NextClosed(hs, s) && Chained(hs, valid, invalid, inv, s) && i < |inv|
    ensures Chained(hs, valid, invalid, inv', s) && inv <= inv'
    ensures Stops(hs, valid, inv', inv'[i])
    ensures (Members(inv') == Members(inv) && |inv'| == |inv|) || s - Members(inv') < s - Members(inv)
  {
    inv' := inv;
    var x := inv[i];
    assert x in s;
    var edge := hs[x].next.value;
    ghost var first, from: nat := edge, i;
    while edge !in valid && edge !in inv'
      invariant inv <= inv' && Chained(hs, valid, invalid, inv', s)
      invariant edge in s && from < |inv'| && inv'[from] < |hs| && hs[inv'[from]].next == Some(edge)
      invariant first in inv' || first == edge
      invariant (Members(inv') == Members(inv) && |inv'| == |inv|) || s - Members(inv') < s - Members(inv)
      decreases s - Members(inv')
    {
      ChainedAdd(hs, valid, invalid, inv', s, from, edge);
      assert Members(inv' + [edge]) == Members(inv') + {edge};
      inv' := inv' + [edge];
      from := |inv'| - 1;
      edge := hs[edge].next.value;
    }
    assert inv'[i] == x;
  }

  /**
   * `for (let edge of invalid) { edge = edge.next; while (!valid.has(edge) &&
   * !invalid.has(edge)) { invalid.add(edge); edge = edge.next; } }`: a Set
   * iteration also visits what is added during it. Afterwards the `next` of
   * every invalid half-edge is valid or invalid.
   */
  method ChainInvalid(hs: seq<HalfEdge>, valid: set<HalfEdgeId>, invalid: seq<HalfEdgeId>, ghost s: set<HalfEdgeId>)
    returns (inv: seq<HalfEdgeId>)
    requires NextClosed(hs, s) && NoRepeats(invalid) && forall k | 0 <= k < |invalid| :: invalid[k] in s
    ensures Chained(hs, valid, invalid, inv, s)
    ensures forall k | 0 <= k < |inv| :: Stops(hs, valid, inv, inv[k])
  {
    inv := invalid;
    var i := 0;
    while i < |inv|
      invariant i <= |inv| && Chained(hs, valid, invalid, inv, s)
      invariant forall k | 0 <= k < i :: Stops(hs, valid, inv, inv[k])
      decreases s - Members(inv), |inv| - i
    {
      ghost var inv0 := inv;
      inv := FollowChain(hs, valid, invalid, inv, s, i);
      StopsGrow(hs, valid, inv0, inv, i);
      i := i + 1;
    }
  }

  /** The entries of `s` that are in `inv`, in `s` order. */
  function FilterIn(s: seq<HalfEdgeId>, inv: seq<HalfEdgeId>): (r: seq<HalfEdgeId>)
    ensures forall x :: x in r <==> x in s && x in inv
    ensures forall i | 0 <= i < |r| :: r[i] in s
    ensures |r| <= |s|
  {
    if s == [] then []
    else
      var init := FilterIn(s[..|s| - 1], inv);
      assert forall x :: x in s <==> x in s[..|s| - 1] || x == s[|s| - 1];
      if s[|s| - 1] in inv then init + [s[|s| - 1]] else init
  }

  /**
   * `for (let face of allFaces) for (let edge of face.edges) if
   * (invalid.has(edge)) { resultEdges.push(edge); edge.loop =
   * destFace.outerLoop; }`, with the faces' half-edges listed in `edges`:
   * the invalid ones are collected in order and re-owned by loop `l`.
   */
  method CollectResult(t: Topology, edges: seq<HalfEdgeId>, inv: seq<HalfEdgeId>, l: LoopId)
    returns (result: seq<HalfEdgeId>)
    requires t.Valid() && l < |t.loops| && forall i | 0 <= i < |edges| :: edges[i] < |t.halfEdges|
    modifies t
    ensures t.Valid() && result == FilterIn(edges, inv)
    ensures Collected(old(t.halfEdges), t.halfEdges, result, l)
    ensures t.edges == old(t.edges) && t.loops == old(t.loops) && t.faces == old(t.faces) && t.solveData == old(t.solveData)
  {
    result := [];
    for i := 0 to |edges|
      invariant t.Valid() && result == FilterIn(edges[..i], inv)
      invariant Collected(old(t.halfEdges), t.halfEdges, result, l)
      invariant t.edges == old(t.edges) && t.loops == old(t.loops) && t.faces == old(t.faces) && t.solveData == old(t.solveData)
    {
      FilterInSnoc(edges, inv, i);
      if edges[i] in inv {
        result := CollectOne(t, old(t.halfEdges), result, l, edges[i]);
      }
    }
    assert edges[..|edges|] == edges;
  }

  /** One more element of `s` filtered. */
  lemma FilterInSnoc(s: seq<HalfEdgeId>, inv: seq<HalfEdgeId>, i: nat)
    requires i < |s|
    ensures FilterIn(s[..i + 1], inv) == FilterIn(s[..i], inv) + if s[i] in inv then [s[i]] else []
  {
    assert s[..i + 1][..i] == s[..i];
  }

  /** `edge.loop = destFace.outerLoop; resultEdges.push(edge)` for one invalid half-edge `e`. */
  method CollectOne(t: Topology, ghost hs0: seq<HalfEdge>, result: seq<HalfEdgeId>, l: LoopId, e: HalfEdgeId)
    returns (result': seq<HalfEdgeId>)
    requires t.Valid() && l < |t.loops| && e < |t.halfEdges| && Collected(hs0, t.halfEdges, result, l)
    modifies t
    ensures t.Valid() && result' == result + [e] && Collected(hs0, t.halfEdges, result', l)
    ensures t.edges == old(t.edges) && t.loops == old(t.loops) && t.faces == old(t.faces) && t.solveData == old(t.solveData)
  {
    assert HalfEdgeWf(t.halfEdges, t.edges, |t.loops|, |t.solveData|, e);
    SetHalfEdgeKeepsWf(t.halfEdges, t.edges, t.loops, t.faces, t.solveData, e, t.halfEdges[e].(loop := Some(l)));
    CollectStep(hs0, t.halfEdges, result, l, e);
    t.halfEdges := t.halfEdges[e := t.halfEdges[e].(loop := Some(l))];
    result' := result + [e];
  }

  /** The half-edges of `result` are re-owned by loop `l`; nothing else changes. */
  ghost predicate Collected(hs0: seq<HalfEdge>, hs: seq<HalfEdge>, result: seq<HalfEdgeId>, l: LoopId)
  {
    && |hs| == |hs0|
    && forall k | 0 <= k < |hs| :: hs[k] == if k in result then hs0[k].(loop := Some(l)) else hs0[k]
  }

  /** Re-owning one more half-edge. */
  lemma CollectStep(hs0: seq<HalfEdge>, hs: seq<HalfEdge>, result: seq<HalfEdgeId>, l: LoopId, e: HalfEdgeId)
    requires Collected(hs0, hs, result, l) && e < |hs|
    ensures Collected(hs0, hs[e := hs[e].(loop := Some(l))], result + [e], l)
  {
  }

  /** Some merged face other than `dest` has loop `l` as its outer loop. */
  ghost predicate OuterOfOther(fs: seq<Face>, all: seq<FaceId>, dest: FaceId, l: LoopId)
  {
    exists i | 0 <= i < |all| :: all[i] != dest && all[i] < |fs| && fs[all[i]].outerLoop == l
  }

  /**
   * The clearing loop: every merged face loses its inner loops, and every one
   * but `dest` is flagged invalid and has its outer loop emptied.
   */
  method ClearFaces(t: Topology, all: seq<FaceId>, dest: FaceId)
    requires t.Valid() && forall i | 0 <= i < |all| :: all[i] < |t.faces|
    modifies t
    ensures t.Valid()
    ensures FacesCleared(old(t.faces), t.faces, all, dest)
    ensures LoopsEmptied(old(t.loops), t.loops, old(t.faces), all, dest)
    ensures t.halfEdges == old(t.halfEdges) && t.edges == old(t.edges) && t.solveData == old(t.solveData)
  {
    assert all[..0] == [];
    for i := 0 to |all|
      invariant t.Valid()
      invariant FacesCleared(old(t.faces), t.faces, all[..i], dest)
      invariant LoopsEmptied(old(t.loops), t.loops, old(t.faces), all[..i], dest)
      invariant t.halfEdges == old(t.halfEdges) && t.edges == old(t.edges) && t.solveData == old(t.solveData)
    {
      ClearOne(t, old(t.faces), old(t.loops), all, dest, i);
    }
    assert all[..|all|] == all;
  }

  /** The outer loops of the merged faces other than `dest` are emptied; nothing else changes. */
  ghost predicate LoopsEmptied(ls0: seq<Loop>, ls: seq<Loop>, fs0: seq<Face>, all: seq<FaceId>, dest: FaceId)
  {
    && |ls| == |ls0|
    && forall l | 0 <= l < |ls| :: ls[l] == if OuterOfOther(fs0, all, dest, l) then ls0[l].(halfEdges := []) else ls0[l]
  }

  /**
   * One pass of the clearing loop: face `all[i]` loses its inner loops and,
   * unless it is `dest`, is flagged invalid and has its outer loop emptied.
   */
  method ClearOne(t: Topology, ghost fs0: seq<Face>, ghost ls0: seq<Loop>, all: seq<FaceId>, dest: FaceId, i: nat)
    requires t.Valid() && i < |all| && all[i] < |t.faces| && |fs0| == |t.faces|
    requires FacesCleared(fs0, t.faces, all[..i], dest) && LoopsEmptied(ls0, t.loops, fs0, all[..i], dest)
    modifies t
    ensures t.Valid()
    ensures FacesCleared(fs0, t.faces, all[..i + 1], dest) && LoopsEmptied(ls0, t.loops, fs0, all[..i + 1], dest)
    ensures t.halfEdges == old(t.halfEdges) && t.edges == old(t.edges) && t.solveData == old(t.solveData)
  {
    var f := all[i];
    var fc := t.faces[f];
    assert FaceWf(fc, |t.loops|);
    ClearStep(fs0, ls0, t.faces, t.loops, all, dest, i);
    if f != dest {
      SetLoopKeepsWf(t.halfEdges, t.edges, t.loops, t.faces, t.solveData, fc.outerLoop,
                     t.loops[fc.outerLoop].(halfEdges := []));
      t.loops := t.loops[fc.outerLoop := t.loops[fc.outerLoop].(halfEdges := [])];
    }
    var fc' := fc.(innerLoops := [], invalidFlag := fc.invalidFlag || f != dest);
    SetFaceKeepsWf(t.halfEdges, t.edges, t.loops, t.faces, t.solveData, f, fc');
    t.faces := t.faces[f := fc'];
  }

  /** Clearing one more face keeps the state of clearing a prefix. */
  lemma ClearStep(fs0: seq<Face>, ls0: seq<Loop>, fs: seq<Face>, ls: seq<Loop>, all: seq<FaceId>, dest: FaceId, i: nat)
    requires i < |all| && all[i] < |fs0| && fs0[all[i]].outerLoop < |ls0|
    requires FacesCleared(fs0, fs, all[..i], dest) && LoopsEmptied(ls0, ls, fs0, all[..i], dest)
    ensures fs[all[i]].outerLoop == fs0[all[i]].outerLoop
    ensures FacesCleared(fs0, fs[all[i] := fs[all[i]].(innerLoops := [], invalidFlag := fs[all[i]].invalidFlag || all[i] != dest)],
                         all[..i + 1], dest)
    ensures LoopsEmptied(ls0, if all[i] != dest then ls[fs[all[i]].outerLoop := ls[fs[all[i]].outerLoop].(halfEdges := [])] else ls,
                         fs0, all[..i + 1], dest)
  {
    assert all[..i + 1] == all[..i] + [all[i]];
    OuterOfOtherStep(fs0, all, dest, i);
  }

  /** The outer loops of the first `i + 1` faces other than `dest` are those of the first `i` and of face `i` if it is not `dest`. */
  lemma OuterOfOtherStep(fs: seq<Face>, all: seq<FaceId>, dest: FaceId, i: nat)
    requires i < |all| && all[i] < |fs|
    ensures forall l :: OuterOfOther(fs, all[..i + 1], dest, l) <==>
      OuterOfOther(fs, all[..i], dest, l) || (all[i] != dest && fs[all[i]].outerLoop == l)
  {
    var pre, pre' := all[..i], all[..i + 1];
    forall l ensures OuterOfOther(fs, pre', dest, l) <==> OuterOfOther(fs, pre, dest, l) || (all[i] != dest && fs[all[i]].outerLoop == l) {
      if OuterOfOther(fs, pre', dest, l) {
        var j :| 0 <= j < |pre'| && pre'[j] != dest && pre'[j] < |fs| && fs[pre'[j]].outerLoop == l;
        if j < i { assert pre[j] == pre'[j]; }
      }
      if OuterOfOther(fs, pre, dest, l) {
        var j :| 0 <= j < |pre| && pre[j] != dest && pre[j] < |fs| && fs[pre[j]].outerLoop == l;
        assert pre'[j] == pre[j];
      }
      if all[i] != dest && fs[all[i]].outerLoop == l {
        assert pre'[i] == all[i];
      }
    }
  }

  /**
   * `for (let edge of resultEdges) EdgeSolveData.markTransferred(edge,
   * allFacesSet)`: every listed half-edge ends with transferred faces that
   * include all of `faces`; only solve-data handles change on half-edges.
   */
  method MarkAllTransferred(t: Topology, es: seq<HalfEdgeId>, faces: set<FaceId>)
    requires t.Valid() && forall j | 0 <= j < |es| :: es[j] < |t.halfEdges|
    modifies t
    ensures t.Valid() && |t.halfEdges| == |old(t.halfEdges)|
    ensures forall j | 0 <= j < |es| :: GetTransferredFaces(t, es[j]).Some? && faces <= GetTransferredFaces(t, es[j]).value
    ensures forall k | 0 <= k < |t.halfEdges| :: t.halfEdges[k] == old(t.halfEdges[k]).(solve := t.halfEdges[k].solve)
    ensures forall k | 0 <= k < |t.halfEdges| && k !in es :: t.halfEdges[k] == old(t.halfEdges[k])
    ensures t.edges == old(t.edges) && t.loops == old(t.loops) && t.faces == old(t.faces)
  {
    for i := 0 to |es|
      invariant t.Valid() && |t.halfEdges| == |old(t.halfEdges)|
      invariant forall j | 0 <= j < i :: GetTransferredFaces(t, es[j]).Some? && faces <= GetTransferredFaces(t, es[j]).value
      invariant forall k | 0 <= k < |t.halfEdges| :: t.halfEdges[k] == old(t.halfEdges[k]).(solve := t.halfEdges[k].solve)
      invariant forall k | 0 <= k < |t.halfEdges| && k !in es[..i] :: t.halfEdges[k] == old(t.halfEdges[k])
      invariant t.edges == old(t.edges) && t.loops == old(t.loops) && t.faces == old(t.faces)
    {
      var h := es[i];
      MarkTransferred(t, h, faces);
      forall j | 0 <= j < i + 1 ensures GetTransferredFaces(t, es[j]).Some? && faces <= GetTransferredFaces(t, es[j]).value {
        if t.halfEdges[es[j]].solve == t.halfEdges[h].solve {
          SharedDataAgrees(t, es[j], h);
        }
      }
      assert es[..i + 1] == es[..i] + [h];
    }
    assert es[..|es|] == es;
  }

  /** Some half-edge of `r` has `x` as its `next`. */
  ghost predicate Reaches(hs: seq<HalfEdge>, r: seq<HalfEdgeId>, x: HalfEdgeId)
  {
    exists y | y in r :: y < |hs| && hs[y].next == Some(x)
  }

  /** Following `next` `n` times from `x`; `None` once a link is missing. */
  ghost function FollowNext(hs: seq<HalfEdge>, x: HalfEdgeId, n: nat): Option<HalfEdgeId>
  {
    if n == 0 then Some(x)
    else match FollowNext(hs, x, n - 1)
      case None => None
      case Some(y) => if y < |hs| then hs[y].next else None
  }

  /** `x` is one of the invalid half-edges or is reached from one along `next` links. */
  ghost predicate FromInvalid(hs: seq<HalfEdge>, invalid: seq<HalfEdgeId>, x: HalfEdgeId)
  {
    exists k: nat, n: nat | k < |invalid| :: FollowNext(hs, invalid[k], n) == Some(x)
  }

  /** Following links reads only the `next` fields. */
  lemma {:induction false} FollowNextSame(hs: seq<HalfEdge>, hs': seq<HalfEdge>, x: HalfEdgeId, n: nat)
    requires |hs'| == |hs| && forall k | 0 <= k < |hs| :: hs'[k].next == hs[k].next
    ensures FollowNext(hs', x, n) == FollowNext(hs, x, n)
  {
    if n > 0 {
      FollowNextSame(hs, hs', x, n - 1);
    }
  }

  /** Every entry of a chained invalid list is reached from a given invalid half-edge along `next` links. */
  lemma {:induction false} ChainedFromInvalid(hs: seq<HalfEdge>, valid: set<HalfEdgeId>, invalid: seq<HalfEdgeId>,
                                              inv: seq<HalfEdgeId>, s: set<HalfEdgeId>, k: nat)
    requires Chained(hs, valid, invalid, inv, s) && k < |inv|
    ensures FromInvalid(hs, invalid, inv[k])
    decreases k
  {
    if k < |invalid| {
      assert FollowNext(hs, invalid[k], 0) == Some(inv[k]);
    } else {
      assert Reached(hs, inv, k);
      var j :| 0 <= j < k && j < |inv| && inv[j] < |hs| && k < |inv| && hs[inv[j]].next == Some(inv[k]);
      ChainedFromInvalid(hs, valid, invalid, inv, s, j);
      var i: nat, n: nat :| i < |invalid| && FollowNext(hs, invalid[i], n) == Some(inv[j]);
      assert FollowNext(hs, invalid[i], n + 1) == Some(inv[k]);
    }
  }

  /** `FromInvalid` reads only the `next` pointers. */
  lemma FromInvalidSame(hs: seq<HalfEdge>, hs': seq<HalfEdge>, invalid: seq<HalfEdgeId>, x: HalfEdgeId)
    requires |hs'| == |hs| && forall k | 0 <= k < |hs| :: hs'[k].next == hs[k].next
    requires FromInvalid(hs, invalid, x)
    ensures FromInvalid(hs', invalid, x)
  {
    var i: nat, n: nat :| i < |invalid| && FollowNext(hs, invalid[i], n) == Some(x);
    FollowNextSame(hs, hs', invalid[i], n);
  }

  /** Every half-edge the given faces hold, in some loop of some face. */
  ghost predicate InFaces(t: Topology, fs: seq<FaceId>, x: HalfEdgeId)
    reads t
    requires t.Valid() && forall i | 0 <= i < |fs| :: fs[i] < |t.faces|
  {
    exists i | 0 <= i < |fs| :: x in HalfEdgesOf(t, fs[i])
  }

  /** A half-edge is among the faces' half-edges exactly when one of their loops holds it. */
  lemma EdgesOfFacesMember(t: Topology, fs: seq<FaceId>)
    requires t.Valid() && forall i | 0 <= i < |fs| :: fs[i] < |t.faces|
    ensures forall x :: x in EdgesOfFaces(t, fs) <==> InLoops(t.loops, LoopsOfFaces(t, fs), x)
  {
    var lps := LoopsOfFaces(t, fs);
    EdgesOfFacesIsLoops(t, fs);
    forall x ensures x in EdgesOfFaces(t, fs) <==> InLoops(t.loops, lps, x) {
      HalfEdgesOfLoopsMember(t, lps, x);
    }
  }

  /** A half-edge of one of the faces is in a loop of any face list that contains that face. */
  lemma InFacesInLoops(t: Topology, fs: seq<FaceId>, all: seq<FaceId>, x: HalfEdgeId)
    requires t.Valid() && forall i | 0 <= i < |fs| :: fs[i] < |t.faces|
    requires forall i | 0 <= i < |all| :: all[i] < |t.faces|
    requires InFaces(t, fs, x) && forall i | 0 <= i < |fs| :: fs[i] in all
    ensures InLoops(t.loops, LoopsOfFaces(t, all), x)
  {
    var i :| 0 <= i < |fs| && x in HalfEdgesOf(t, fs[i]);
    var ls := LoopsOf(t, fs[i]);
    HalfEdgesOfLoopsMember(t, ls, x);
    var j :| 0 <= j < |ls| && x in t.loops[ls[j]].halfEdges;
    var i' :| 0 <= i' < |all| && all[i'] == fs[i];
    LoopsOfFacesMember(t, all, i', ls[j]);
    var lps := LoopsOfFaces(t, all);
    var q :| 0 <= q < |lps| && lps[q] == ls[j];
  }

  /** The invalid half-edges, all of the second faces, are among the enumeration of all the merged faces. */
  lemma InvalidInEdges(t: Topology, faces2: seq<FaceId>, all: seq<FaceId>, invalid: seq<HalfEdgeId>)
    requires t.Valid() && forall i | 0 <= i < |faces2| :: faces2[i] < |t.faces|
    requires forall i | 0 <= i < |all| :: all[i] < |t.faces|
    requires forall i | 0 <= i < |faces2| :: faces2[i] in all
    requires forall k | 0 <= k < |invalid| :: InFaces(t, faces2, invalid[k])
    ensures forall k | 0 <= k < |invalid| :: invalid[k] in EdgesOfFaces(t, all)
  {
    EdgesOfFacesMember(t, all);
    forall k | 0 <= k < |invalid| ensures invalid[k] in EdgesOfFaces(t, all) {
      InFacesInLoops(t, faces2, all, invalid[k]);
    }
  }

  /** Filtering depends only on which half-edges the filter holds. */
  lemma {:induction false} FilterInSame(s: seq<HalfEdgeId>, a: seq<HalfEdgeId>, b: seq<HalfEdgeId>)
    requires forall x :: x in a <==> x in b
    ensures FilterIn(s, a) == FilterIn(s, b)
  {
    if s != [] {
      FilterInSame(s[..|s| - 1], a, b);
    }
  }

  /**
   * What the chain step leaves, read in a later state with the same `next`
   * links and with `r` holding the same half-edges as the invalid set.
   */
  lemma ChainMeans(hs1: seq<HalfEdge>, hs: seq<HalfEdge>, valid: set<HalfEdgeId>, invalid: seq<HalfEdgeId>,
                   inv: seq<HalfEdgeId>, s: set<HalfEdgeId>, r: seq<HalfEdgeId>, x: HalfEdgeId)
    requires Chained(hs1, valid, invalid, inv, s) && forall k | 0 <= k < |inv| :: Stops(hs1, valid, inv, inv[k])
    requires |hs| == |hs1| && forall k | 0 <= k < |hs| :: hs[k].next == hs1[k].next
    requires forall y :: y in r <==> y in inv
    requires x in r
    ensures x < |hs| && hs[x].next.Some? && (hs[x].next.value in valid || hs[x].next.value in r)
    ensures x !in invalid ==> x !in valid && Reaches(hs, r, x)
    ensures FromInvalid(hs, invalid, x)
  {
    var k :| 0 <= k < |inv| && inv[k] == x;
    assert Stops(hs1, valid, inv, inv[k]);
    ChainedFromInvalid(hs1, valid, invalid, inv, s, k);
    FromInvalidSame(hs1, hs, invalid, x);
    if x !in invalid {
      assert Reached(hs1, inv, k);
      var j :| 0 <= j < k && j < |inv| && inv[j] < |hs1| && k < |inv| && hs1[inv[j]].next == Some(inv[k]);
      assert inv[j] in r;
    }
  }

  /** The faces after merging: each merged face loses its inner loops, and each but `dest` is flagged invalid. */
  ghost predicate FacesCleared(fs0: seq<Face>, fs: seq<Face>, all: seq<FaceId>, dest: FaceId)
  {
    && |fs| == |fs0|
    && forall f | 0 <= f < |fs| ::
         fs[f] == if f in all then fs0[f].(innerLoops := [], invalidFlag := fs0[f].invalidFlag || f != dest) else fs0[f]
  }

  /**
   * The loops after merging: the outer loops of the merged faces other than
   * `dest` are emptied, `dest`'s outer loop holds `result`, the rest are kept.
   */
  ghost predicate LoopsRebuilt(ls0: seq<Loop>, ls: seq<Loop>, fs0: seq<Face>, all: seq<FaceId>, dest: FaceId,
                               result: seq<HalfEdgeId>)
    requires dest < |fs0|
  {
    && |ls| == |ls0|
    && forall l | 0 <= l < |ls| ::
         ls[l] == if OuterOfOther(fs0, all, dest, l) then ls0[l].(halfEdges := [])
                  else if l == fs0[dest].outerLoop then ls0[l].(halfEdges := result)
                  else ls0[l]
  }

  /**
   * The second half of `mergeFaces`: the invalid half-edges of the faces'
   * enumeration `edges` become `dest`'s outer loop, the faces are cleared,
   * and the result half-edges are marked as transferred to all the faces.
   */
  method Rebuild(t: Topology, edges: seq<HalfEdgeId>, inv: seq<HalfEdgeId>, all: seq<FaceId>, dest: FaceId)
    returns (result: seq<HalfEdgeId>)
    requires t.Valid() && dest < |t.faces|
    requires forall i | 0 <= i < |edges| :: edges[i] < |t.halfEdges|
    requires forall i | 0 <= i < |all| :: all[i] < |t.faces|
    modifies t
    ensures t.Valid() && |t.halfEdges| == |old(t.halfEdges)| && |t.loops| == |old(t.loops)| && |t.faces| == |old(t.faces)|
    ensures t.edges == old(t.edges) && result == FilterIn(edges, inv)
    ensures forall k | 0 <= k < |t.halfEdges| ::
      t.halfEdges[k] == old(t.halfEdges[k]).(loop := if k in result then Some(old(t.faces[dest].outerLoop)) else old(t.halfEdges[k].loop),
                                             solve := t.halfEdges[k].solve)
    ensures FacesCleared(old(t.faces), t.faces, all, dest)
    ensures LoopsRebuilt(old(t.loops), t.loops, old(t.faces), all, dest, result)
    ensures forall x | x in result ::
      (x < |t.halfEdges| && GetTransferredFaces(t, x).Some? && forall f | f in all :: f in GetTransferredFaces(t, x).value)
  {
    var outer := t.faces[dest].outerLoop;
    assert FaceWf(t.faces[dest], |t.loops|);
    result := CollectResult(t, edges, inv, outer);
    assert LoopWf(t.loops[outer].(halfEdges := result), |t.halfEdges|, |t.faces|);
    SetLoopKeepsWf(t.halfEdges, t.edges, t.loops, t.faces, t.solveData, outer, t.loops[outer].(halfEdges := result));
    t.loops := t.loops[outer := t.loops[outer].(halfEdges := result)];
    ClearFaces(t, all, dest);
    MarkAllTransferred(t, result, set f | f in all);
    assert LoopsRebuilt(old(t.loops), t.loops, old(t.faces), all, dest, result);
  }

  /** `ChainMeans` for every half-edge of `r`. */
  lemma ResultMeans(hs1: seq<HalfEdge>, hs: seq<HalfEdge>, valid: set<HalfEdgeId>, invalid: seq<HalfEdgeId>,
                    inv: seq<HalfEdgeId>, s: set<HalfEdgeId>, r: seq<HalfEdgeId>)
    requires Chained(hs1, valid, invalid, inv, s) && forall k | 0 <= k < |inv| :: Stops(hs1, valid, inv, inv[k])
    requires |hs| == |hs1| && forall k | 0 <= k < |hs| :: hs[k].next == hs1[k].next
    requires forall y :: y in r <==> y in inv
    ensures forall k | 0 <= k < |invalid| :: invalid[k] in r
    ensures forall x | x in r :: (x < |hs| && hs[x].next.Some? && (hs[x].next.value in valid || hs[x].next.value in r))
    ensures forall x | x in r && x !in invalid :: x !in valid && Reaches(hs, r, x)
    ensures forall x | x in r :: FromInvalid(hs, invalid, x)
  {
    forall k | 0 <= k < |invalid| ensures invalid[k] in r {
      assert inv[k] == invalid[k];
    }
    forall x | x in r
      ensures x < |hs| && hs[x].next.Some? && (hs[x].next.value in valid || hs[x].next.value in r)
      ensures x !in invalid ==> x !in valid && Reaches(hs, r, x)
      ensures FromInvalid(hs, invalid, x)
    {
      ChainMeans(hs1, hs, valid, invalid, inv, s, r, x);
    }
  }

  /** Every half-edge of `edges` has a `next` among them; every other keeps its `next`. */
  ghost predicate Relinked(hs0: seq<HalfEdge>, hs: seq<HalfEdge>, edges: seq<HalfEdgeId>)
  {
    && |hs| == |hs0|
    && (forall k | 0 <= k < |hs| && k in edges :: hs[k].next.Some? && hs[k].next.value in edges)
    && (forall k | 0 <= k < |hs| && k !in edges :: hs[k].next == hs0[k].next)
  }

  /** The half-edges keep their edge, vertices and manifold, and those of `result` move to loop `outer`. */
  ghost predicate Moved(hs0: seq<HalfEdge>, hs: seq<HalfEdge>, result: seq<HalfEdgeId>, outer: LoopId)
  {
    && |hs| == |hs0|
    && forall k | 0 <= k < |hs| ::
         && hs[k].edge == hs0[k].edge && hs[k].vertexA == hs0[k].vertexA && hs[k].vertexB == hs0[k].vertexB
         && hs[k].manifold == hs0[k].manifold
         && hs[k].loop == if k in result then Some(outer) else hs0[k].loop
  }

  /** Linking, then moving the result to the destination loop and recording solve data. */
  lemma LinkedThenMoved(hs0: seq<HalfEdge>, hs1: seq<HalfEdge>, hs: seq<HalfEdge>, edges: seq<HalfEdgeId>,
                        result: seq<HalfEdgeId>, outer: LoopId)
    requires SameButNext(hs0, hs1)
    requires forall k | 0 <= k < |hs1| && k in edges :: hs1[k].next.Some? && hs1[k].next.value in edges
    requires forall k | 0 <= k < |hs1| && k !in edges :: hs1[k] == hs0[k]
    requires |hs| == |hs1| && forall k | 0 <= k < |hs| ::
      hs[k] == hs1[k].(loop := if k in result then Some(outer) else hs1[k].loop, solve := hs[k].solve)
    ensures Relinked(hs0, hs, edges) && Moved(hs0, hs, result, outer)
    ensures forall k | 0 <= k < |hs| :: hs[k].next == hs1[k].next
  {
    forall k | 0 <= k < |hs| ensures hs[k].loop == if k in result then Some(outer) else hs0[k].loop {
      assert hs1[k] == hs0[k].(next := hs1[k].next);
    }
  }

  /**
   * The first half of `mergeFaces`: every loop of the faces is linked, then
   * the invalid half-edges are extended along `next`. `edges` is the faces'
   * enumeration; the invalid half-edges are among them.
   */
  method LinkAndChain(t: Topology, all: seq<FaceId>, edges: seq<HalfEdgeId>, valid: set<HalfEdgeId>, invalid: seq<HalfEdgeId>)
    returns (inv: seq<HalfEdgeId>)
    requires t.Valid() && forall i | 0 <= i < |all| :: all[i] < |t.faces|
    requires edges == EdgesOfFaces(t, all)
    requires NoRepeats(invalid) && forall k | 0 <= k < |invalid| :: invalid[k] in edges
    modifies t
    ensures t.Valid() && SameButNext(old(t.halfEdges), t.halfEdges)
    ensures t.edges == old(t.edges) && t.loops == old(t.loops) && t.faces == old(t.faces) && t.solveData == old(t.solveData)
    ensures forall k | 0 <= k < |t.halfEdges| && k in edges :: t.halfEdges[k].next.Some? && t.halfEdges[k].next.value in edges
    ensures forall k | 0 <= k < |t.halfEdges| && k !in edges :: t.halfEdges[k] == old(t.halfEdges[k])
    ensures Chained(t.halfEdges, valid, invalid, inv, Members(edges))
    ensures forall k | 0 <= k < |inv| :: Stops(t.halfEdges, valid, inv, inv[k])
  {
    var lps := LoopsOfFaces(t, all);
    EdgesOfFacesMember(t, all);
    LinkLoops(t, lps);
    forall k | k in Members(edges) ensures k < |t.halfEdges| && t.halfEdges[k].next.Some? && t.halfEdges[k].next.value in Members(edges) {
      assert NextInLoops(t.halfEdges, t.loops, lps, k);
    }
    inv := ChainInvalid(t.halfEdges, valid, invalid, Members(edges));
  }

  /**
   * `mergeFaces` after `invalidate`: links every loop of the merged faces,
   * extends the invalid half-edges along `next`, makes the destination
   * face's outer loop (`faces1[0]`) the invalid half-edges in face order,
   * clears the other faces and records the transfer. `invalid` is the
   * insertion order of the invalid Set; `result` is `resultEdges`.
   */
  method MergeFaces(t: Topology, faces1: seq<FaceId>, faces2: seq<FaceId>, valid: set<HalfEdgeId>, invalid: seq<HalfEdgeId>)
    returns (result: seq<HalfEdgeId>)
    requires t.Valid() && |faces1| > 0
    requires (forall i | 0 <= i < |faces1| :: faces1[i] < |t.faces|) && forall i | 0 <= i < |faces2| :: faces2[i] < |t.faces|
    requires NoRepeats(invalid) && forall k | 0 <= k < |invalid| :: InFaces(t, faces2, invalid[k])
    modifies t
    ensures t.Valid() && |t.halfEdges| == |old(t.halfEdges)| && |t.loops| == |old(t.loops)| && |t.faces| == |old(t.faces)|
    ensures t.edges == old(t.edges)
    // the merged outer loop: the chosen half-edges in the faces' enumeration order
    ensures result == FilterIn(old(EdgesOfFaces(t, Dedup(faces1 + faces2))), result)
    ensures forall k | 0 <= k < |invalid| :: invalid[k] in result
    ensures forall x | x in result ::
      (x < |t.halfEdges| && t.halfEdges[x].next.Some? && (t.halfEdges[x].next.value in valid || t.halfEdges[x].next.value in result))
    ensures forall x | x in result && x !in invalid :: x !in valid && Reaches(t.halfEdges, result, x)
    ensures forall x | x in result :: FromInvalid(t.halfEdges, invalid, x)
    ensures Relinked(old(t.halfEdges), t.halfEdges, old(EdgesOfFaces(t, Dedup(faces1 + faces2))))
    ensures Moved(old(t.halfEdges), t.halfEdges, result, old(t.faces[faces1[0]].outerLoop))
    ensures FacesCleared(old(t.faces), t.faces, Dedup(faces1 + faces2), faces1[0])
    ensures LoopsRebuilt(old(t.loops), t.loops, old(t.faces), Dedup(faces1 + faces2), faces1[0], result)
    ensures forall x | x in result ::
      (x < |t.halfEdges| && GetTransferredFaces(t, x).Some? && forall f | f in Dedup(faces1 + faces2) :: f in GetTransferredFaces(t, x).value)
  {
    var dest := faces1[0];
    var all := Dedup(faces1 + faces2);
    ghost var hs0 := t.halfEdges;
    var edges := EdgesOfFaces(t, all);
    assert edges == old(EdgesOfFaces(t, Dedup(faces1 + faces2)));
    InvalidInEdges(t, faces2, all, invalid);
    var inv := LinkAndChain(t, all, edges, valid, invalid);
    result := FinishMerge(t, hs0, edges, inv, all, dest, valid, invalid);
  }

  /**
   * The second half of `mergeFaces` with what it makes of the first: `inv`
   * is the chained invalid list over the linked half-edges, and the result
   * is its members in enumeration order, linked among themselves or into
   * the valid half-edges.
   */
  method FinishMerge(t: Topology, ghost hs0: seq<HalfEdge>, edges: seq<HalfEdgeId>, inv: seq<HalfEdgeId>,
                     all: seq<FaceId>, dest: FaceId, ghost valid: set<HalfEdgeId>, ghost invalid: seq<HalfEdgeId>)
    returns (result: seq<HalfEdgeId>)
    requires t.Valid() && dest < |t.faces|
    requires forall i | 0 <= i < |edges| :: edges[i] < |t.halfEdges|
    requires forall i | 0 <= i < |all| :: all[i] < |t.faces|
    requires SameButNext(hs0, t.halfEdges)
    requires forall k | 0 <= k < |t.halfEdges| && k in edges :: t.halfEdges[k].next.Some? && t.halfEdges[k].next.value in edges
    requires forall k | 0 <= k < |t.halfEdges| && k !in edges :: t.halfEdges[k] == hs0[k]
    requires Chained(t.halfEdges, valid, invalid, inv, Members(edges))
    requires forall k | 0 <= k < |inv| :: Stops(t.halfEdges, valid, inv, inv[k])
    modifies t
    ensures t.Valid() && |t.halfEdges| == |old(t.halfEdges)| && |t.loops| == |old(t.loops)| && |t.faces| == |old(t.faces)|
    ensures t.edges == old(t.edges)
    ensures result == FilterIn(edges, result)
    ensures forall k | 0 <= k < |invalid| :: invalid[k] in result
    ensures forall x | x in result ::
      (x < |t.halfEdges| && t.halfEdges[x].next.Some? && (t.halfEdges[x].next.value in valid || t.halfEdges[x].next.value in result))
    ensures forall x | x in result && x !in invalid :: x !in valid && Reaches(t.halfEdges, result, x)
    ensures forall x | x in result :: FromInvalid(t.halfEdges, invalid, x)
    ensures Relinked(hs0, t.halfEdges, edges)
    ensures Moved(hs0, t.halfEdges, result, old(t.faces[dest].outerLoop))
    ensures FacesCleared(old(t.faces), t.faces, all, dest)
    ensures LoopsRebuilt(old(t.loops), t.loops, old(t.faces), all, dest, result)
    ensures forall x | x in result ::
      (x < |t.halfEdges| && GetTransferredFaces(t, x).Some? && forall f | f in all :: f in GetTransferredFaces(t, x).value)
  {
    ghost var hs1 := t.halfEdges;
    result := Rebuild(t, edges, inv, all, dest);
    assert forall x :: x in result <==> x in inv;
    FilterInSame(edges, inv, result);
    LinkedThenMoved(hs0, hs1, t.halfEdges, edges, result, old(t.faces[dest].outerLoop));
    ResultMeans(hs1, t.halfEdges, valid, invalid, inv, Members(edges), result);
  }
}
