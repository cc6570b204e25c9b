/**
 * Shell inversion (`invert` and `checkShellForErrors` in
 * web/app/brep/operations/boolean.js), used by `subtract` on its second
 * operand. For each face of the shell, in order: the surface is replaced by
 * its inversion, EVERY edge of the shell is inverted (the edge loop sits
 * inside the face loop), and every loop of the face has its half-edges
 * replaced by their twins, reversed in place and re-linked. Then the
 * shell's `inverted` flag is toggled and the external validator is run.
 *
 * `surface.invert()`, `edge.invert()` and `BREPValidator.validate` are not
 * part of this model; they are passed in as functions. Of `edge.invert()`
 * the model only assumes that the edge keeps its own two half-edges.
 */
module Invert {
  import opened Wrappers
  import opened Geometry
  import opened Topology
  import opened Faces
  import opened Errors
  import LoopDetect
  import MergeFaces

  /** The shell's lists and the `data.inverted` flag `invert` toggles. */
  class Shell {
    var faces: seq<FaceId>
    var edges: seq<EdgeId>
    var inverted: bool
  }

  /** `s` read back to front. */
  function Reversed<T>(s: seq<T>): (r: seq<T>)
    ensures |r| == |s|
    ensures forall i | 0 <= i < |s| :: r[i] == s[|s| - 1 - i]
  {
    if s == [] then [] else Reversed(s[1..]) + [s[0]]
  }

  /** Reading back to front twice gives the sequence back. */
  lemma ReversedTwice<T>(s: seq<T>)
    ensures Reversed(Reversed(s)) == s
  {
    var r := Reversed(Reversed(s));
    forall i | 0 <= i < |s| ensures r[i] == s[i] {
      assert r[i] == Reversed(s)[|s| - 1 - i];
    }
  }

  // ---------------------------------------------------------------------
  // Twins on values
  // ---------------------------------------------------------------------

  /** `twin()` read off a half-edge list and an edge list (the half-edge itself when its handles are out of range). */
  function TwinIn(hs: seq<HalfEdge>, es: seq<Edge>, h: HalfEdgeId): HalfEdgeId
  {
    if h < |hs| && hs[h].edge < |es| then
      var e := es[hs[h].edge];
      if e.halfEdge1 == h then e.halfEdge2 else e.halfEdge1
    else h
  }

  /** The twin of every half-edge, as a table indexed by half-edge handle. */
  function TwinTable(hs: seq<HalfEdge>, es: seq<Edge>): (tt: seq<HalfEdgeId>)
    ensures |tt| == |hs|
    ensures forall h | 0 <= h < |hs| :: tt[h] == TwinIn(hs, es, h)
  {
    seq(|hs|, h requires 0 <= h < |hs| => TwinIn(hs, es, h))
  }

  /** A table lookup that leaves handles outside the table alone. */
  function Look(tt: seq<HalfEdgeId>, h: HalfEdgeId): HalfEdgeId
  {
    if h < |tt| then tt[h] else h
  }

  /** Every half-edge of `ws` replaced by its twin, in place. */
  function TwinsOf(tt: seq<HalfEdgeId>, ws: seq<HalfEdgeId>): (r: seq<HalfEdgeId>)
    ensures |r| == |ws|
    ensures forall i | 0 <= i < |ws| :: r[i] == Look(tt, ws[i])
  {
    seq(|ws|, i requires 0 <= i < |ws| => Look(tt, ws[i]))
  }

  /** The half-edge list of an inverted loop: the twins, in reverse order. */
  function Inverted(tt: seq<HalfEdgeId>, ws: seq<HalfEdgeId>): (r: seq<HalfEdgeId>)
  {
    Reversed(TwinsOf(tt, ws))
  }

  /** Each half-edge's twin is another half-edge of the same edge, and twin is an involution. */
  lemma TwinTableMeans(hs: seq<HalfEdge>, es: seq<Edge>, ls: seq<Loop>, fs: seq<Face>, ss: seq<EdgeSolveData>)
    requires Wf(hs, es, ls, fs, ss)
    ensures forall h | 0 <= h < |hs| ::
      TwinTable(hs, es)[h] < |hs| && TwinTable(hs, es)[h] != h &&
      hs[TwinTable(hs, es)[h]].edge == hs[h].edge &&
      TwinTable(hs, es)[TwinTable(hs, es)[h]] == h
  {
    var tt := TwinTable(hs, es);
    forall h | 0 <= h < |hs|
      ensures tt[h] < |hs| && tt[h] != h && hs[tt[h]].edge == hs[h].edge && tt[tt[h]] == h
    {
      assert HalfEdgeWf(hs, es, |ls|, |ss|, h);
      assert EdgeWf(hs, es, hs[h].edge);
    }
  }

  /**
   * Inverting a loop twice gives its half-edge list back: the twin of the
   * twin is the half-edge itself, and reversing twice restores the order.
   */
  lemma InvertedTwice(hs: seq<HalfEdge>, es: seq<Edge>, ls: seq<Loop>, fs: seq<Face>, ss: seq<EdgeSolveData>,
                      ws: seq<HalfEdgeId>)
    requires Wf(hs, es, ls, fs, ss)
    requires forall i | 0 <= i < |ws| :: ws[i] < |hs|
    ensures Inverted(TwinTable(hs, es), Inverted(TwinTable(hs, es), ws)) == ws
  {
    var tt := TwinTable(hs, es);
    TwinTableMeans(hs, es, ls, fs, ss);
    var n := |ws|;
    var once := Inverted(tt, ws);
    var twice := Inverted(tt, once);
    forall i | 0 <= i < n ensures twice[i] == ws[i] {
      calc {
        twice[i];
        TwinsOf(tt, once)[n - 1 - i];
        Look(tt, once[n - 1 - i]);
        Look(tt, TwinsOf(tt, ws)[i]);
        Look(tt, Look(tt, ws[i]));
      }
    }
  }

  /** An inverted loop holds exactly the twins of the original loop's half-edges. */
  lemma InvertedMembers(hs: seq<HalfEdge>, es: seq<Edge>, ls: seq<Loop>, fs: seq<Face>, ss: seq<EdgeSolveData>,
                        ws: seq<HalfEdgeId>)
    requires Wf(hs, es, ls, fs, ss)
    requires forall i | 0 <= i < |ws| :: ws[i] < |hs|
    ensures forall h | 0 <= h < |hs| :: h in Inverted(TwinTable(hs, es), ws) <==> TwinIn(hs, es, h) in ws
  {
    var tt := TwinTable(hs, es);
    TwinTableMeans(hs, es, ls, fs, ss);
    var r := Inverted(tt, ws);
    var n := |ws|;
    forall h | 0 <= h < |hs| ensures h in r <==> tt[h] in ws {
      if h in r {
        var i :| 0 <= i < n && r[i] == h;
        assert h == tt[ws[n - 1 - i]];
        assert tt[h] == ws[n - 1 - i];
      }
      if tt[h] in ws {
        var j :| 0 <= j < n && ws[j] == tt[h];
        assert r[n - 1 - j] == tt[ws[j]];
      }
    }
  }

  // ---------------------------------------------------------------------
  // What edge inversion may and may not change
  // ---------------------------------------------------------------------

  /** `y` owns the same two half-edges as `x`, possibly swapped. */
  predicate SamePair(x: Edge, y: Edge)
  {
    || (y.halfEdge1 == x.halfEdge1 && y.halfEdge2 == x.halfEdge2)
    || (y.halfEdge1 == x.halfEdge2 && y.halfEdge2 == x.halfEdge1)
  }

  /** `edge.invert()` keeps the edge's own two half-edges. */
  ghost predicate KeepsHalfEdges(edgeInvert: Edge -> Edge)
  {
    forall x: Edge :: SamePair(x, edgeInvert(x))
  }

  /** Every edge of `es'` owns the same half-edges as in `es`. */
  ghost predicate PairsKept(es: seq<Edge>, es': seq<Edge>)
  {
    |es'| == |es| && forall e | 0 <= e < |es| :: SamePair(es[e], es'[e])
  }

  lemma PairsKeptTrans(es0: seq<Edge>, es1: seq<Edge>, es2: seq<Edge>)
    requires PairsKept(es0, es1) && PairsKept(es1, es2)
    ensures PairsKept(es0, es2)
  {
  }

  /** Replacing an edge by one that owns the same half-edges keeps the arena well formed. */
  lemma SetEdgeKeepsWf(hs: seq<HalfEdge>, es: seq<Edge>, ls: seq<Loop>, fs: seq<Face>, ss: seq<EdgeSolveData>,
                       e: EdgeId, ed: Edge)
    requires Wf(hs, es, ls, fs, ss)
    requires e < |es| && SamePair(es[e], ed)
    ensures Wf(hs, es[e := ed], ls, fs, ss)
  {
    var es' := es[e := ed];
    forall k | 0 <= k < |hs| ensures HalfEdgeWf(hs, es', |ls|, |ss|, k) {
      assert HalfEdgeWf(hs, es, |ls|, |ss|, k);
    }
    forall k | 0 <= k < |es'| ensures EdgeWf(hs, es', k) {
      assert EdgeWf(hs, es, k);
    }
  }

  /**
   * Inverting edges and re-linking half-edges do not change which half-edge
   * is whose twin.
   */
  lemma TwinTableStable(hs0: seq<HalfEdge>, es0: seq<Edge>, ls: seq<Loop>, fs: seq<Face>, ss: seq<EdgeSolveData>,
                        hs: seq<HalfEdge>, es: seq<Edge>)
    requires Wf(hs0, es0, ls, fs, ss)
    requires LoopDetect.SameButNext(hs0, hs) && PairsKept(es0, es)
    ensures TwinTable(hs, es) == TwinTable(hs0, es0)
  {
    forall h | 0 <= h < |hs| ensures TwinIn(hs, es, h) == TwinIn(hs0, es0, h) {
      assert HalfEdgeWf(hs0, es0, |ls|, |ss|, h);
      assert EdgeWf(hs0, es0, hs0[h].edge);
      assert hs[h].edge == hs0[h].edge;
    }
  }

  // ---------------------------------------------------------------------
  // The new state, as functions of the old one
  // ---------------------------------------------------------------------

  /** One pass of `for (let edge of shell.edges) edge.invert()`. */
  function InvertEdgesIn(es: seq<Edge>, ids: seq<EdgeId>, edgeInvert: Edge -> Edge): (r: seq<Edge>)
    ensures |r| == |es|
    decreases |ids|
  {
    if ids == [] then es
    else InvertEdgesIn(if ids[0] < |es| then es[ids[0] := edgeInvert(es[ids[0]])] else es, ids[1..], edgeInvert)
  }

  /** `n` such passes, one per face of the shell. */
  function EdgeRounds(es: seq<Edge>, ids: seq<EdgeId>, edgeInvert: Edge -> Edge, n: nat): (r: seq<Edge>)
    ensures |r| == |es|
    decreases n
  {
    if n == 0 then es else EdgeRounds(InvertEdgesIn(es, ids, edgeInvert), ids, edgeInvert, n - 1)
  }

  /** `f` applied `n` times. */
  function Iterate<T>(f: T -> T, n: nat, x: T): T
  {
    if n == 0 then x else Iterate(f, n - 1, f(x))
  }

  /** The surface of each listed face replaced by its inversion, face by face. */
  function InvertSurfacesIn(fs: seq<Face>, ids: seq<FaceId>, surfaceInvert: SurfaceId -> SurfaceId): (r: seq<Face>)
    ensures |r| == |fs|
    decreases |ids|
  {
    if ids == [] then fs
    else
      var fs' := if ids[0] < |fs| then fs[ids[0] := fs[ids[0]].(surface := surfaceInvert(fs[ids[0]].surface))] else fs;
      InvertSurfacesIn(fs', ids[1..], surfaceInvert)
  }

  /** `face.loops` of each listed face, face by face: outer loop first, then the inner loops. */
  function LoopIdsOfFaces(fs: seq<Face>, ids: seq<FaceId>): (r: seq<LoopId>)
    decreases |ids|
  {
    if ids == [] then []
    else (if ids[0] < |fs| then [fs[ids[0]].outerLoop] + fs[ids[0]].innerLoops else []) + LoopIdsOfFaces(fs, ids[1..])
  }

  /** Each listed loop inverted, in list order (a loop listed twice is inverted twice). */
  function InvertLoopsIn(tt: seq<HalfEdgeId>, ls: seq<Loop>, ids: seq<LoopId>): (r: seq<Loop>)
    ensures |r| == |ls|
    decreases |ids|
  {
    if ids == [] then ls
    else
      var ls' := if ids[0] < |ls| then ls[ids[0] := ls[ids[0]].(halfEdges := Inverted(tt, ls[ids[0]].halfEdges))] else ls;
      InvertLoopsIn(tt, ls', ids[1..])
  }

  lemma {:induction false} InvertLoopsInAppend(tt: seq<HalfEdgeId>, ls: seq<Loop>, a: seq<LoopId>, b: seq<LoopId>)
    ensures InvertLoopsIn(tt, ls, a + b) == InvertLoopsIn(tt, InvertLoopsIn(tt, ls, a), b)
    decreases |a|
  {
    if a != [] {
      assert (a + b)[0] == a[0];
      assert (a + b)[1..] == a[1..] + b;
      var ls' := if a[0] < |ls| then ls[a[0] := ls[a[0]].(halfEdges := Inverted(tt, ls[a[0]].halfEdges))] else ls;
      InvertLoopsInAppend(tt, ls', a[1..], b);
    } else {
      assert a + b == b;
    }
  }

  lemma LoopIdsOfFacesUnfold(fs: seq<Face>, ids: seq<FaceId>, i: nat)
    requires i < |ids| && ids[i] < |fs|
    ensures LoopIdsOfFaces(fs, ids[i..]) == ([fs[ids[i]].outerLoop] + fs[ids[i]].innerLoops) + LoopIdsOfFaces(fs, ids[i + 1..])
  {
    assert ids[i..][1..] == ids[i + 1..];
  }

  /**
   * With no loop listed twice, each listed loop ends up inverted once and
   * every other loop is unchanged.
   */
  lemma {:induction false} InvertLoopsInDistinct(tt: seq<HalfEdgeId>, ls: seq<Loop>, ids: seq<LoopId>)
    requires MergeFaces.NoRepeats(ids)
    ensures forall l | 0 <= l < |ls| ::
      InvertLoopsIn(tt, ls, ids)[l] == if l in ids then ls[l].(halfEdges := Inverted(tt, ls[l].halfEdges)) else ls[l]
    decreases |ids|
  {
    if ids != [] {
      var ls' := if ids[0] < |ls| then ls[ids[0] := ls[ids[0]].(halfEdges := Inverted(tt, ls[ids[0]].halfEdges))] else ls;
      assert MergeFaces.NoRepeats(ids[1..]) by {
        forall i, j | 0 <= i < j < |ids[1..]| ensures ids[1..][i] != ids[1..][j] {
          assert ids[1..][i] == ids[i + 1] && ids[1..][j] == ids[j + 1];
        }
      }
      InvertLoopsInDistinct(tt, ls', ids[1..]);
      forall l | 0 <= l < |ls|
        ensures InvertLoopsIn(tt, ls, ids)[l] == if l in ids then ls[l].(halfEdges := Inverted(tt, ls[l].halfEdges)) else ls[l]
      {
        assert l in ids <==> l == ids[0] || l in ids[1..] by {
          assert ids == [ids[0]] + ids[1..];
        }
        if l == ids[0] {
          assert l !in ids[1..] by {
            forall j | 0 <= j < |ids[1..]| ensures ids[1..][j] != l {
              assert ids[1..][j] == ids[j + 1];
            }
          }
        }
      }
    }
  }

  /**
   * Inverting the same distinct loops twice with the same twins restores
   * every loop.
   */
  lemma InvertLoopsTwice(hs: seq<HalfEdge>, es: seq<Edge>, ls: seq<Loop>, fs: seq<Face>, ss: seq<EdgeSolveData>,
                         ids: seq<LoopId>)
    requires Wf(hs, es, ls, fs, ss)
    requires MergeFaces.NoRepeats(ids)
    ensures InvertLoopsIn(TwinTable(hs, es), InvertLoopsIn(TwinTable(hs, es), ls, ids), ids) == ls
  {
    var tt := TwinTable(hs, es);
    var once := InvertLoopsIn(tt, ls, ids);
    var twice := InvertLoopsIn(tt, once, ids);
    InvertLoopsInDistinct(tt, ls, ids);
    InvertLoopsInDistinct(tt, once, ids);
    forall l | 0 <= l < |ls| ensures twice[l] == ls[l] {
      if l in ids {
        assert LoopWf(ls[l], |hs|, |fs|);
        InvertedTwice(hs, es, ls, fs, ss, ls[l].halfEdges);
      }
    }
  }

  /**
   * With no edge listed twice, `n` passes apply `edge.invert()` exactly `n`
   * times to each listed edge and leave every other edge alone.
   */
  lemma {:induction false} InvertEdgesInDistinct(es: seq<Edge>, ids: seq<EdgeId>, edgeInvert: Edge -> Edge)
    requires MergeFaces.NoRepeats(ids)
    ensures forall e | 0 <= e < |es| ::
      InvertEdgesIn(es, ids, edgeInvert)[e] == if e in ids then edgeInvert(es[e]) else es[e]
    decreases |ids|
  {
    if ids != [] {
      var es' := if ids[0] < |es| then es[ids[0] := edgeInvert(es[ids[0]])] else es;
      assert MergeFaces.NoRepeats(ids[1..]) by {
        forall i, j | 0 <= i < j < |ids[1..]| ensures ids[1..][i] != ids[1..][j] {
          assert ids[1..][i] == ids[i + 1] && ids[1..][j] == ids[j + 1];
        }
      }
      InvertEdgesInDistinct(es', ids[1..], edgeInvert);
      forall e | 0 <= e < |es|
        ensures InvertEdgesIn(es, ids, edgeInvert)[e] == if e in ids then edgeInvert(es[e]) else es[e]
      {
        assert e in ids <==> e == ids[0] || e in ids[1..] by {
          assert ids == [ids[0]] + ids[1..];
        }
        if e == ids[0] {
          assert e !in ids[1..] by {
            forall j | 0 <= j < |ids[1..]| ensures ids[1..][j] != e {
              assert ids[1..][j] == ids[j + 1];
            }
          }
        }
      }
    }
  }

  lemma {:induction false} EdgeRoundsDistinct(es: seq<Edge>, ids: seq<EdgeId>, edgeInvert: Edge -> Edge, n: nat)
    requires MergeFaces.NoRepeats(ids)
    ensures forall e | 0 <= e < |es| ::
      EdgeRounds(es, ids, edgeInvert, n)[e] == if e in ids then Iterate(edgeInvert, n, es[e]) else es[e]
    decreases n
  {
    if n > 0 {
      var es' := InvertEdgesIn(es, ids, edgeInvert);
      InvertEdgesInDistinct(es, ids, edgeInvert);
      EdgeRoundsDistinct(es', ids, edgeInvert, n - 1);
    }
  }

  /** An involution applied an even number of times is the identity. */
  lemma {:induction false} IterateInvolutionEven<T>(f: T -> T, m: nat, x: T)
    requires forall y: T :: f(f(y)) == y
    ensures Iterate(f, 2 * m, x) == x
  {
    if m > 0 {
      calc {
        Iterate(f, 2 * m, x);
        Iterate(f, 2 * m - 1, f(x));
        Iterate(f, 2 * (m - 1), f(f(x)));
        { IterateInvolutionEven(f, m - 1, f(f(x))); }
        f(f(x));
      }
    }
  }

  /**
   * Because every edge is inverted once per face, a shell with an even
   * number of faces and an involutive `edge.invert()` ends with its edges
   * as they were.
   */
  lemma EvenFacesLeaveEdges(es: seq<Edge>, ids: seq<EdgeId>, edgeInvert: Edge -> Edge, m: nat)
    requires MergeFaces.NoRepeats(ids)
    requires forall y: Edge :: edgeInvert(edgeInvert(y)) == y
    ensures EdgeRounds(es, ids, edgeInvert, 2 * m) == es
  {
    EdgeRoundsDistinct(es, ids, edgeInvert, 2 * m);
    forall e | 0 <= e < |es| && e in ids ensures Iterate(edgeInvert, 2 * m, es[e]) == es[e] {
      IterateInvolutionEven(edgeInvert, m, es[e]);
    }
  }

  /** With no face listed twice, each listed face's surface is inverted once and nothing else changes. */
  lemma {:induction false} InvertSurfacesInDistinct(fs: seq<Face>, ids: seq<FaceId>, surfaceInvert: SurfaceId -> SurfaceId)
    requires MergeFaces.NoRepeats(ids)
    ensures forall f | 0 <= f < |fs| ::
      InvertSurfacesIn(fs, ids, surfaceInvert)[f] ==
        if f in ids then fs[f].(surface := surfaceInvert(fs[f].surface)) else fs[f]
    decreases |ids|
  {
    if ids != [] {
      var fs' := if ids[0] < |fs| then fs[ids[0] := fs[ids[0]].(surface := surfaceInvert(fs[ids[0]].surface))] else fs;
      assert MergeFaces.NoRepeats(ids[1..]) by {
        forall i, j | 0 <= i < j < |ids[1..]| ensures ids[1..][i] != ids[1..][j] {
          assert ids[1..][i] == ids[i + 1] && ids[1..][j] == ids[j + 1];
        }
      }
      InvertSurfacesInDistinct(fs', ids[1..], surfaceInvert);
      forall f | 0 <= f < |fs|
        ensures InvertSurfacesIn(fs, ids, surfaceInvert)[f] ==
          if f in ids then fs[f].(surface := surfaceInvert(fs[f].surface)) else fs[f]
      {
        assert f in ids <==> f == ids[0] || f in ids[1..] by {
          assert ids == [ids[0]] + ids[1..];
        }
        if f == ids[0] {
          assert f !in ids[1..] by {
            forall j | 0 <= j < |ids[1..]| ensures ids[1..][j] != f {
              assert ids[1..][j] == ids[j + 1];
            }
          }
        }
      }
    }
  }

  // ---------------------------------------------------------------------
  // checkShellForErrors
  // ---------------------------------------------------------------------

  /**
   * `checkShellForErrors(shell, code)` on the validator's error list: it
   * throws exactly when the list is non-empty, and the positional
   * constructor call leaves the error with neither the code nor the list.
   */
  function CheckShellForErrors<E>(code: string, errors: seq<E>): (r: Outcome<CadError<seq<E>>>)
    ensures r.Fail? <==> errors != []
    ensures r.Fail? ==> r.error == CadError(INTERNAL_ERROR, None, None, None)
  {
    if errors != [] then
      PositionalCallLosesCodeAndPayload(code, errors);
      Fail(PositionalCadError(code, errors))
    else Pass
  }

  // ---------------------------------------------------------------------
  // The operation
  // ---------------------------------------------------------------------

  /** `array.reverse()`, in place. */
  method ReverseInPlace(a: array<HalfEdgeId>)
    modifies a
    ensures a[..] == Reversed(old(a[..]))
  {
    var n := a.Length;
    var i := 0;
    while i < n / 2
      invariant 0 <= i <= n / 2
      invariant forall k | 0 <= k < i :: a[k] == old(a[n - 1 - k]) && a[n - 1 - k] == old(a[k])
      invariant forall k | i <= k < n - i :: a[k] == old(a[k])
    {
      a[i], a[n - 1 - i] := a[n - 1 - i], a[i];
      i := i + 1;
    }
  }

  /** `loop.halfEdges.map(he => he.twin())` into a new array. */
  method TwinArray(t: Topology, ws: seq<HalfEdgeId>) returns (a: array<HalfEdgeId>)
    requires t.Valid() && forall i | 0 <= i < |ws| :: ws[i] < |t.halfEdges|
    ensures fresh(a) && a[..] == TwinsOf(TwinTable(t.halfEdges, t.edges), ws)
  {
    ghost var tt := TwinTable(t.halfEdges, t.edges);
    a := new HalfEdgeId[|ws|](i requires 0 <= i < |ws| => ws[i]);
    var i := 0;
    while i < a.Length
      modifies a
      invariant 0 <= i <= a.Length
      invariant forall j | 0 <= j < i :: a[j] == Look(tt, ws[j])
      invariant forall j | i <= j < a.Length :: a[j] == ws[j]
    {
      assert HalfEdgeWf(t.halfEdges, t.edges, |t.loops|, |t.solveData|, ws[i]);
      assert t.Twin(a[i]) == Look(tt, ws[i]);
      a[i] := t.Twin(a[i]);
      i := i + 1;
    }
    assert a[..] == TwinsOf(tt, ws);
  }

  /**
   * One loop of a face: each half-edge is replaced by its twin, the list is
   * reversed and the loop is re-linked.
   */
  method InvertLoop(t: Topology, l: LoopId)
    requires t.Valid() && l < |t.loops|
    modifies t
    ensures t.Valid()
    ensures t.loops == old(t.loops[l := t.loops[l].(halfEdges := Inverted(TwinTable(t.halfEdges, t.edges), t.loops[l].halfEdges))])
    ensures t.edges == old(t.edges) && t.faces == old(t.faces) && t.solveData == old(t.solveData)
    ensures LoopDetect.SameButNext(old(t.halfEdges), t.halfEdges)
    ensures forall k | 0 <= k < |t.halfEdges| && k !in t.loops[l].halfEdges :: t.halfEdges[k] == old(t.halfEdges[k])
    ensures forall i | 0 <= i < |t.loops[l].halfEdges| && t.loops[l].halfEdges[i] !in t.loops[l].halfEdges[i + 1..] ::
      t.halfEdges[t.loops[l].halfEdges[i]].next == Some(t.loops[l].halfEdges[(i + 1) % |t.loops[l].halfEdges|])
  {
    var ws := t.loops[l].halfEdges;
    ghost var tt := TwinTable(t.halfEdges, t.edges);
    assert LoopWf(t.loops[l], |t.halfEdges|, |t.faces|);
    var a := TwinArray(t, ws);
    ReverseInPlace(a);
    assert forall j | 0 <= j < a.Length :: a[j] < |t.halfEdges| by {
      TwinTableMeans(t.halfEdges, t.edges, t.loops, t.faces, t.solveData);
    }
    SetLoopKeepsWf(t.halfEdges, t.edges, t.loops, t.faces, t.solveData, l, t.loops[l].(halfEdges := a[..]));
    t.loops := t.loops[l := t.loops[l].(halfEdges := a[..])];
    t.Link(l);
  }

  /** `for (let loop of face.loops)`: each listed loop inverted in turn. */
  method InvertLoops(t: Topology, ids: seq<LoopId>)
    requires t.Valid() && forall i | 0 <= i < |ids| :: ids[i] < |t.loops|
    modifies t
    ensures t.Valid()
    ensures t.loops == InvertLoopsIn(TwinTable(old(t.halfEdges), old(t.edges)), old(t.loops), ids)
    ensures t.edges == old(t.edges) && t.faces == old(t.faces) && t.solveData == old(t.solveData)
    ensures LoopDetect.SameButNext(old(t.halfEdges), t.halfEdges)
  {
    ghost var tt := TwinTable(t.halfEdges, t.edges);
    ghost var target := InvertLoopsIn(tt, t.loops, ids);
    var j := 0;
    while j < |ids|
      invariant 0 <= j <= |ids| && t.Valid()
      invariant |t.loops| == |old(t.loops)|
      invariant InvertLoopsIn(tt, t.loops, ids[j..]) == target
      invariant t.edges == old(t.edges) && t.faces == old(t.faces) && t.solveData == old(t.solveData)
      invariant LoopDetect.SameButNext(old(t.halfEdges), t.halfEdges)
    {
      TwinTableStable(old(t.halfEdges), old(t.edges), old(t.loops), old(t.faces), old(t.solveData), t.halfEdges, t.edges);
      assert ids[j..][1..] == ids[j + 1..];
      InvertLoop(t, ids[j]);
      j := j + 1;
    }
  }

  /** `for (let edge of shell.edges) edge.invert()`. */
  method InvertEdges(t: Topology, ids: seq<EdgeId>, edgeInvert: Edge -> Edge)
    requires t.Valid() && forall i | 0 <= i < |ids| :: ids[i] < |t.edges|
    requires KeepsHalfEdges(edgeInvert)
    modifies t
    ensures t.Valid()
    ensures t.edges == InvertEdgesIn(old(t.edges), ids, edgeInvert)
    ensures PairsKept(old(t.edges), t.edges)
    ensures t.halfEdges == old(t.halfEdges) && t.loops == old(t.loops)
    ensures t.faces == old(t.faces) && t.solveData == old(t.solveData)
  {
    var j := 0;
    while j < |ids|
      invariant 0 <= j <= |ids| && t.Valid()
      invariant InvertEdgesIn(t.edges, ids[j..], edgeInvert) == InvertEdgesIn(old(t.edges), ids, edgeInvert)
      invariant PairsKept(old(t.edges), t.edges)
      invariant t.halfEdges == old(t.halfEdges) && t.loops == old(t.loops)
      invariant t.faces == old(t.faces) && t.solveData == old(t.solveData)
    {
      var e := ids[j];
      assert SamePair(t.edges[e], edgeInvert(t.edges[e]));
      SetEdgeKeepsWf(t.halfEdges, t.edges, t.loops, t.faces, t.solveData, e, edgeInvert(t.edges[e]));
      assert ids[j..][1..] == ids[j + 1..];
      t.edges := t.edges[e := edgeInvert(t.edges[e])];
      j := j + 1;
    }
  }

  /** The body of the face loop of `invert` for one face. */
  method InvertFace(t: Topology, f: FaceId, shellEdges: seq<EdgeId>,
                    surfaceInvert: SurfaceId -> SurfaceId, edgeInvert: Edge -> Edge)
    requires t.Valid() && f < |t.faces|
    requires forall i | 0 <= i < |shellEdges| :: shellEdges[i] < |t.edges|
    requires KeepsHalfEdges(edgeInvert)
    modifies t
    ensures t.Valid()
    ensures t.faces == old(t.faces[f := t.faces[f].(surface := surfaceInvert(t.faces[f].surface))])
    ensures t.edges == InvertEdgesIn(old(t.edges), shellEdges, edgeInvert)
    ensures PairsKept(old(t.edges), t.edges)
    ensures t.loops == InvertLoopsIn(TwinTable(old(t.halfEdges), old(t.edges)), old(t.loops),
                                     [old(t.faces[f].outerLoop)] + old(t.faces[f].innerLoops))
    ensures t.solveData == old(t.solveData)
    ensures LoopDetect.SameButNext(old(t.halfEdges), t.halfEdges)
  {
    ghost var hs0, es0, ls0, fs0, ss0 := t.halfEdges, t.edges, t.loops, t.faces, t.solveData;
    assert FaceWf(t.faces[f], |t.loops|);
    SetFaceKeepsWf(t.halfEdges, t.edges, t.loops, t.faces, t.solveData, f,
                   t.faces[f].(surface := surfaceInvert(t.faces[f].surface)));
    t.faces := t.faces[f := t.faces[f].(surface := surfaceInvert(t.faces[f].surface))];
    InvertEdges(t, shellEdges, edgeInvert);
    TwinTableStable(hs0, es0, ls0, fs0, ss0, t.halfEdges, t.edges);
    var ids := LoopsOf(t, f);
    InvertLoops(t, ids);
  }

  /**
   * The face loop of `invert` after `i` faces: the faces differ from the
   * original ones only in their surfaces, and finishing the remaining faces
   * yields the whole run's surfaces, edges and loops.
   */
  ghost predicate Inverting(fs0: seq<Face>, es0: seq<Edge>, ls0: seq<Loop>, tt: seq<HalfEdgeId>,
                            faces: seq<FaceId>, shellEdges: seq<EdgeId>,
                            surfaceInvert: SurfaceId -> SurfaceId, edgeInvert: Edge -> Edge,
                            i: nat, fs: seq<Face>, es: seq<Edge>, ls: seq<Loop>)
  {
    && i <= |faces|
    && |fs| == |fs0| && |es| == |es0| && |ls| == |ls0|
    && (forall k | 0 <= k < |fs0| :: fs[k] == fs0[k].(surface := fs[k].surface))
    && InvertSurfacesIn(fs, faces[i..], surfaceInvert) == InvertSurfacesIn(fs0, faces, surfaceInvert)
    && EdgeRounds(es, shellEdges, edgeInvert, |faces| - i) == EdgeRounds(es0, shellEdges, edgeInvert, |faces|)
    && InvertLoopsIn(tt, ls, LoopIdsOfFaces(fs0, faces[i..])) == InvertLoopsIn(tt, ls0, LoopIdsOfFaces(fs0, faces))
  }

  lemma InvertingStep(fs0: seq<Face>, es0: seq<Edge>, ls0: seq<Loop>, tt: seq<HalfEdgeId>,
                      faces: seq<FaceId>, shellEdges: seq<EdgeId>,
                      surfaceInvert: SurfaceId -> SurfaceId, edgeInvert: Edge -> Edge,
                      i: nat, fs: seq<Face>, es: seq<Edge>, ls: seq<Loop>,
                      fs': seq<Face>, es': seq<Edge>, ls': seq<Loop>)
    requires Inverting(fs0, es0, ls0, tt, faces, shellEdges, surfaceInvert, edgeInvert, i, fs, es, ls)
    requires i < |faces| && faces[i] < |fs0|
    requires fs' == fs[faces[i] := fs[faces[i]].(surface := surfaceInvert(fs[faces[i]].surface))]
    requires es' == InvertEdgesIn(es, shellEdges, edgeInvert)
    requires ls' == InvertLoopsIn(tt, ls, [fs[faces[i]].outerLoop] + fs[faces[i]].innerLoops)
    ensures Inverting(fs0, es0, ls0, tt, faces, shellEdges, surfaceInvert, edgeInvert, i + 1, fs', es', ls')
  {
    var f := faces[i];
    assert faces[i..][0] == f && faces[i..][1..] == faces[i + 1..];
    assert fs[f].outerLoop == fs0[f].outerLoop && fs[f].innerLoops == fs0[f].innerLoops;
    LoopIdsOfFacesUnfold(fs0, faces, i);
    InvertLoopsInAppend(tt, ls, [fs0[f].outerLoop] + fs0[f].innerLoops, LoopIdsOfFaces(fs0, faces[i + 1..]));
  }

  /**
   * `invert(shell)`. The new state is the old one with every face's surface
   * inverted, `edge.invert()` applied once per face to every shell edge,
   * and every loop of every face inverted, face by face; half-edges change
   * only in `next`; the flag is toggled, and the result is the validator's
   * verdict on the new state.
   */
  method Invert<E>(t: Topology, shell: Shell,
                   surfaceInvert: SurfaceId -> SurfaceId, edgeInvert: Edge -> Edge,
                   validate: (seq<HalfEdge>, seq<Edge>, seq<Loop>, seq<Face>) -> seq<E>)
    returns (r: Outcome<CadError<seq<E>>>)
    requires t.Valid()
    requires forall i | 0 <= i < |shell.faces| :: shell.faces[i] < |t.faces|
    requires forall i | 0 <= i < |shell.edges| :: shell.edges[i] < |t.edges|
    requires KeepsHalfEdges(edgeInvert)
    modifies t, shell`inverted
    ensures t.Valid()
    ensures t.faces == InvertSurfacesIn(old(t.faces), shell.faces, surfaceInvert)
    ensures t.edges == EdgeRounds(old(t.edges), shell.edges, edgeInvert, |shell.faces|)
    ensures t.loops == InvertLoopsIn(TwinTable(old(t.halfEdges), old(t.edges)), old(t.loops),
                                     LoopIdsOfFaces(old(t.faces), shell.faces))
    ensures LoopDetect.SameButNext(old(t.halfEdges), t.halfEdges)
    ensures t.solveData == old(t.solveData)
    ensures shell.inverted == !old(shell.inverted)
    ensures r == CheckShellForErrors(UNABLE_BOOLEAN_OPERAND_INVERSION, validate(t.halfEdges, t.edges, t.loops, t.faces))
  {
    ghost var hs0, es0, ls0, fs0, ss0 := t.halfEdges, t.edges, t.loops, t.faces, t.solveData;
    ghost var tt := TwinTable(hs0, es0);
    var faces := shell.faces;
    var n := |faces|;
    var i := 0;
    while i < n
      invariant 0 <= i <= n && t.Valid()
      invariant Inverting(fs0, es0, ls0, tt, faces, shell.edges, surfaceInvert, edgeInvert, i, t.faces, t.edges, t.loops)
      invariant PairsKept(es0, t.edges) && LoopDetect.SameButNext(hs0, t.halfEdges)
      invariant t.solveData == ss0 && shell.faces == faces && shell.inverted == old(shell.inverted)
    {
      var f := faces[i];
      ghost var fs1, es1, ls1 := t.faces, t.edges, t.loops;
      TwinTableStable(hs0, es0, ls0, fs0, ss0, t.halfEdges, t.edges);
      InvertFace(t, f, shell.edges, surfaceInvert, edgeInvert);
      InvertingStep(fs0, es0, ls0, tt, faces, shell.edges, surfaceInvert, edgeInvert, i, fs1, es1, ls1,
                    t.faces, t.edges, t.loops);
      PairsKeptTrans(es0, es1, t.edges);
      i := i + 1;
    }
    assert faces[n..] == [];
    shell.inverted := !shell.inverted;
    r := CheckShellForErrors(UNABLE_BOOLEAN_OPERAND_INVERSION, validate(t.halfEdges, t.edges, t.loops, t.faces));
  }
}
