/**
 * The per-face graph of a Boolean run (`FaceSolveData`, boolean.js): a map
 * from each vertex to the half-edges that start there, the list of graph
 * edges loop detection pops from, and the edge collisions found while the
 * graph is built. `checkFaceDataForError` reports the collisions of all faces
 * in one batch.
 */
module FaceGraph {
  import opened Wrappers
  import opened Geometry
  import opened Topology
  import opened Faces
  import opened ListMaps
  import opened Errors
  import SolveData

  /** `isSameEdge(e1, e2)`: a geometric test on two half-edges, given by the caller. */
  type SameEdgeTest = (HalfEdgeId, HalfEdgeId) -> bool

  /** The three mutable parts of a `FaceSolveData`, as a value. */
  datatype Graph = Graph(
    vertexToEdge: map<Vertex, seq<HalfEdgeId>>,
    graphEdges: seq<HalfEdgeId>,
    errors: seq<EdgeCollision>)

  /** Every half-edge of `list` is in the arena and starts at `v`. */
  ghost predicate ListWf(hs: seq<HalfEdge>, list: seq<HalfEdgeId>, v: Vertex)
  {
    forall i | 0 <= i < |list| :: list[i] < |hs| && hs[list[i]].vertexA == v
  }

  /** Every listed half-edge is in the arena and starts at the vertex it is listed under. */
  ghost predicate MapWf(hs: seq<HalfEdge>, m: map<Vertex, seq<HalfEdgeId>>)
  {
    forall v | v in m :: ListWf(hs, m[v], v)
  }

  /** The map is well formed and the graph edges are in the arena. */
  ghost predicate GraphWf(hs: seq<HalfEdge>, g: Graph)
  {
    MapWf(hs, g.vertexToEdge) && InArena(hs, g.graphEdges)
  }

  /** Well-formedness depends only on the number of half-edges and where each starts. */
  lemma GraphWfSameStarts(hs: seq<HalfEdge>, hs': seq<HalfEdge>, g: Graph)
    requires GraphWf(hs, g) && |hs'| == |hs|
    requires forall k | 0 <= k < |hs| :: hs'[k].vertexA == hs[k].vertexA
    ensures GraphWf(hs', g)
  {
    forall v | v in g.vertexToEdge ensures ListWf(hs', g.vertexToEdge[v], v) {
      assert ListWf(hs, g.vertexToEdge[v], v);
    }
  }

  /** The list under any vertex of a well-formed graph is well formed, present or not. */
  lemma ListAtWf(hs: seq<HalfEdge>, g: Graph, v: Vertex)
    requires GraphWf(hs, g)
    ensures ListWf(hs, ListAt(g.vertexToEdge, v), v) && InArena(hs, ListAt(g.vertexToEdge, v))
  {
  }

  /** Every half-edge of the list is in the arena. */
  ghost predicate InArena(hs: seq<HalfEdge>, s: seq<HalfEdgeId>)
  {
    forall i | 0 <= i < |s| :: s[i] < |hs|
  }

  /** `e2` runs opposite to `e1` along the same curve piece (the test of `findOppositeEdge`). */
  predicate Opposite(hs: seq<HalfEdge>, same: SameEdgeTest, e1: HalfEdgeId, e2: HalfEdgeId)
  {
    e1 < |hs| && e2 < |hs| && hs[e1].vertexA == hs[e2].vertexB && same(e1, e2)
  }

  /** `ex` runs the same way as `he` along the same curve piece (the test in `addToGraph`). */
  predicate Parallel(hs: seq<HalfEdge>, same: SameEdgeTest, he: HalfEdgeId, ex: HalfEdgeId)
  {
    he < |hs| && ex < |hs| && hs[he].vertexB == hs[ex].vertexB && same(he, ex)
  }

  /** The first half-edge of `others` opposite to `e1`, or `None`. */
  function FirstOpposite(hs: seq<HalfEdge>, same: SameEdgeTest, others: seq<HalfEdgeId>, e1: HalfEdgeId): Option<HalfEdgeId>
  {
    if others == [] then None
    else if Opposite(hs, same, e1, others[0]) then Some(others[0])
    else FirstOpposite(hs, same, others[1..], e1)
  }

  /** `findOppositeEdge` finds an opposite half-edge exactly when there is one, and the first one. */
  lemma {:induction false} FirstOppositeIsFirst(hs: seq<HalfEdge>, same: SameEdgeTest, others: seq<HalfEdgeId>, e1: HalfEdgeId)
    ensures FirstOpposite(hs, same, others, e1).None? <==> forall i | 0 <= i < |others| :: !Opposite(hs, same, e1, others[i])
    ensures FirstOpposite(hs, same, others, e1).Some? ==>
      exists i :: 0 <= i < |others| && others[i] == FirstOpposite(hs, same, others, e1).value
                  && Opposite(hs, same, e1, others[i])
                  && forall j | 0 <= j < i :: !Opposite(hs, same, e1, others[j])
  {
    if others != [] && !Opposite(hs, same, e1, others[0]) {
      FirstOppositeIsFirst(hs, same, others[1..], e1);
      assert forall i | 1 <= i < |others| :: others[i] == others[1..][i - 1];
      var r := FirstOpposite(hs, same, others[1..], e1);
      if r.Some? {
        var i :| 0 <= i < |others[1..]| && others[1..][i] == r.value && Opposite(hs, same, e1, others[1..][i])
                 && forall j | 0 <= j < i :: !Opposite(hs, same, e1, others[1..][j]);
        assert others[i + 1] == r.value;
      }
    }
  }

  /** The collision records `addToGraph` pushes for the half-edges of `list` parallel to `he`, in list order. */
  function Parallels(hs: seq<HalfEdge>, same: SameEdgeTest, list: seq<HalfEdgeId>, he: HalfEdgeId): seq<EdgeCollision>
  {
    if list == [] then []
    else
      var last := list[|list| - 1];
      Parallels(hs, same, list[..|list| - 1], he) + (if Parallel(hs, same, he, last) then [EdgeCollision(last, he)] else [])
  }

  /**
   * One record per parallel copy of `he` in `list`: there are records exactly
   * when there is such a copy, each names a copy first and `he` second, and
   * every copy gets its record.
   */
  lemma {:induction false} ParallelsSound(hs: seq<HalfEdge>, same: SameEdgeTest, list: seq<HalfEdgeId>, he: HalfEdgeId)
    ensures |Parallels(hs, same, list, he)| <= |list|
    ensures Parallels(hs, same, list, he) == [] <==> forall i | 0 <= i < |list| :: !Parallel(hs, same, he, list[i])
    ensures forall k | 0 <= k < |Parallels(hs, same, list, he)| ::
      Parallels(hs, same, list, he)[k].e2 == he && Parallels(hs, same, list, he)[k].e1 in list
      && Parallel(hs, same, he, Parallels(hs, same, list, he)[k].e1)
    ensures forall i | 0 <= i < |list| && Parallel(hs, same, he, list[i]) ::
      EdgeCollision(list[i], he) in Parallels(hs, same, list, he)
  {
    if list != [] {
      var init := list[..|list| - 1];
      ParallelsSound(hs, same, init, he);
      assert list == init + [list[|list| - 1]];
    }
  }

  /**
   * What `addToGraph(he)` does to the graph: an opposite half-edge already
   * listed under `he`'s end is reported first, then every listed half-edge
   * from `he`'s start to its end that is the same edge; `he` is then listed
   * under its start and appended to the graph edges.
   */
  function AddStep(hs: seq<HalfEdge>, same: SameEdgeTest, g: Graph, he: HalfEdgeId): (r: Graph)
    requires he < |hs|
  {
    var a, b := hs[he].vertexA, hs[he].vertexB;
    var m := AddToListInMap(g.vertexToEdge, a, he);
    var opp := FirstOpposite(hs, same, ListAt(g.vertexToEdge, b), he);
    var errs := g.errors + (if opp.Some? then [EdgeCollision(opp.value, he)] else [])
                         + Parallels(hs, same, ListAt(g.vertexToEdge, a), he);
    Graph(m, g.graphEdges + [he], errs)
  }

  /** One `addToGraph` step lists `he` under its start and nowhere else. */
  lemma AddStepLists(hs: seq<HalfEdge>, same: SameEdgeTest, g: Graph, he: HalfEdgeId, v: Vertex)
    requires he < |hs|
    ensures ListAt(AddStep(hs, same, g, he).vertexToEdge, v) ==
            ListAt(g.vertexToEdge, v) + (if hs[he].vertexA == v then [he] else [])
    ensures AddStep(hs, same, g, he).graphEdges == g.graphEdges + [he]
    ensures g.errors <= AddStep(hs, same, g, he).errors
  {
  }

  /** `addToGraph` applied to each half-edge of `hs` in order. */
  function AddAll(hs: seq<HalfEdge>, same: SameEdgeTest, g: Graph, add: seq<HalfEdgeId>): (r: Graph)
    requires InArena(hs, add)
  {
    if add == [] then g
    else AddStep(hs, same, AddAll(hs, same, g, add[..|add| - 1]), add[|add| - 1])
  }

  /** Adding the first `i + 1` half-edges is adding the first `i` and then entry `i`. */
  lemma AddAllPrefix(hs: seq<HalfEdge>, same: SameEdgeTest, g: Graph, add: seq<HalfEdgeId>, i: nat)
    requires InArena(hs, add) && i <= |add|
    ensures InArena(hs, add[..i])
    ensures i == |add| ==> add[..i] == add
    ensures i < |add| ==>
      && InArena(hs, add[..i + 1])
      && AddAll(hs, same, g, add[..i + 1]) == AddStep(hs, same, AddAll(hs, same, g, add[..i]), add[i])
  {
    if i < |add| {
      assert add[..i + 1][..i] == add[..i];
    }
  }

  /** The half-edges of `add` that start at `v`, in order. */
  function StartingAt(hs: seq<HalfEdge>, add: seq<HalfEdgeId>, v: Vertex): seq<HalfEdgeId>
  {
    if add == [] then []
    else
      var last := add[|add| - 1];
      StartingAt(hs, add[..|add| - 1], v) + (if last < |hs| && hs[last].vertexA == v then [last] else [])
  }

  /** `StartingAt` keeps exactly the half-edges of the arena that start at `v`. */
  lemma {:induction false} StartingAtMembers(hs: seq<HalfEdge>, add: seq<HalfEdgeId>, v: Vertex, x: HalfEdgeId)
    ensures x in StartingAt(hs, add, v) <==> x in add && x < |hs| && hs[x].vertexA == v
  {
    if add != [] {
      StartingAtMembers(hs, add[..|add| - 1], v, x);
      assert add == add[..|add| - 1] + [add[|add| - 1]];
    }
  }

  /** Adding a half-edge of the arena keeps the graph well formed. */
  lemma AddStepWf(hs: seq<HalfEdge>, same: SameEdgeTest, g: Graph, he: HalfEdgeId)
    requires GraphWf(hs, g) && he < |hs|
    ensures GraphWf(hs, AddStep(hs, same, g, he))
  {
    var a := hs[he].vertexA;
    var m := AddStep(hs, same, g, he).vertexToEdge;
    forall v | v in m ensures ListWf(hs, m[v], v) {
      assert MapWf(hs, g.vertexToEdge);
      if v != a {
        assert ListWf(hs, g.vertexToEdge[v], v);
      } else {
        ListAtWf(hs, g, a);
        assert m[v] == ListAt(g.vertexToEdge, a) + [he];
      }
    }
  }

  /**
   * One `addToGraph` step: a record is pushed exactly when an opposite or a
   * parallel copy of `he` is already in the graph; every new record names
   * such a copy first and `he` second, and the old records are kept.
   */
  lemma AddStepCollisions(hs: seq<HalfEdge>, same: SameEdgeTest, g: Graph, he: HalfEdgeId)
    requires he < |hs|
    ensures g.errors <= AddStep(hs, same, g, he).errors
    ensures |AddStep(hs, same, g, he).errors| > |g.errors| <==>
      || (exists i :: 0 <= i < |ListAt(g.vertexToEdge, hs[he].vertexB)| &&
            Opposite(hs, same, he, ListAt(g.vertexToEdge, hs[he].vertexB)[i]))
      || (exists i :: 0 <= i < |ListAt(g.vertexToEdge, hs[he].vertexA)| &&
            Parallel(hs, same, he, ListAt(g.vertexToEdge, hs[he].vertexA)[i]))
    ensures forall k | |g.errors| <= k < |AddStep(hs, same, g, he).errors| ::
      var c := AddStep(hs, same, g, he).errors[k];
      && c.e2 == he
      && ((c.e1 in ListAt(g.vertexToEdge, hs[he].vertexB) && Opposite(hs, same, he, c.e1))
          || (c.e1 in ListAt(g.vertexToEdge, hs[he].vertexA) && Parallel(hs, same, he, c.e1)))
    ensures forall i | 0 <= i < |ListAt(g.vertexToEdge, hs[he].vertexA)| &&
                       Parallel(hs, same, he, ListAt(g.vertexToEdge, hs[he].vertexA)[i]) ::
      EdgeCollision(ListAt(g.vertexToEdge, hs[he].vertexA)[i], he) in AddStep(hs, same, g, he).errors[|g.errors|..]
  {
    var a, b := hs[he].vertexA, hs[he].vertexB;
    var opp := FirstOpposite(hs, same, ListAt(g.vertexToEdge, b), he);
    var oppErrs := if opp.Some? then [EdgeCollision(opp.value, he)] else [];
    var par := Parallels(hs, same, ListAt(g.vertexToEdge, a), he);
    FirstOppositeIsFirst(hs, same, ListAt(g.vertexToEdge, b), he);
    ParallelsSound(hs, same, ListAt(g.vertexToEdge, a), he);
    var r := AddStep(hs, same, g, he);
    assert r.errors == g.errors + oppErrs + par;
    assert r.errors[|g.errors|..] == oppErrs + par;
    forall k | |g.errors| <= k < |r.errors|
      ensures r.errors[k].e2 == he
      ensures (r.errors[k].e1 in ListAt(g.vertexToEdge, b) && Opposite(hs, same, he, r.errors[k].e1))
              || (r.errors[k].e1 in ListAt(g.vertexToEdge, a) && Parallel(hs, same, he, r.errors[k].e1))
    {
      if k < |g.errors| + |oppErrs| {
        assert r.errors[k] == oppErrs[0];
      } else {
        assert r.errors[k] == par[k - |g.errors| - |oppErrs|];
      }
    }
  }

  /** Building the graph from `add` appends `add` to the graph edges, in order. */
  lemma {:induction false} AddAllGraphEdges(hs: seq<HalfEdge>, same: SameEdgeTest, g: Graph, add: seq<HalfEdgeId>)
    requires InArena(hs, add)
    ensures AddAll(hs, same, g, add).graphEdges == g.graphEdges + add
  {
    if add != [] {
      var init, last := add[..|add| - 1], add[|add| - 1];
      AddAllGraphEdges(hs, same, g, init);
      var g1 := AddAll(hs, same, g, init);
      assert AddAll(hs, same, g, add) == AddStep(hs, same, g1, last);
      AddStepLists(hs, same, g1, last, hs[last].vertexA);
      assert add == init + [last];
      assert (g.graphEdges + init) + [last] == g.graphEdges + add;
    }
  }

  /**
   * Building the graph from `add`: the list under each vertex gains exactly
   * the half-edges of `add` that start there, in order.
   */
  lemma {:induction false} AddAllLists(hs: seq<HalfEdge>, same: SameEdgeTest, g: Graph, add: seq<HalfEdgeId>, v: Vertex)
    requires InArena(hs, add)
    ensures ListAt(AddAll(hs, same, g, add).vertexToEdge, v) == ListAt(g.vertexToEdge, v) + StartingAt(hs, add, v)
  {
    if add != [] {
      var init, last := add[..|add| - 1], add[|add| - 1];
      AddAllLists(hs, same, g, init, v);
      var g1 := AddAll(hs, same, g, init);
      assert AddAll(hs, same, g, add) == AddStep(hs, same, g1, last);
      AddStepLists(hs, same, g1, last, v);
    }
  }

  /** Building the graph never drops a collision record. */
  lemma {:induction false} AddAllKeepsErrors(hs: seq<HalfEdge>, same: SameEdgeTest, g: Graph, add: seq<HalfEdgeId>)
    requires InArena(hs, add)
    ensures g.errors <= AddAll(hs, same, g, add).errors
  {
    if add != [] {
      var init, last := add[..|add| - 1], add[|add| - 1];
      AddAllKeepsErrors(hs, same, g, init);
      var g1 := AddAll(hs, same, g, init);
      assert AddAll(hs, same, g, add) == AddStep(hs, same, g1, last);
      AddStepLists(hs, same, g1, last, hs[last].vertexA);
      PrefixTrans(g.errors, g1.errors, AddAll(hs, same, g, add).errors);
    }
  }

  /**
   * `FaceSolveData`: the face's graph, the loop that collects the face's new
   * edges, and the collisions found while the graph is built.
   */
  class FaceSolveData {
    const face: FaceId
    /** The loop `addNewEdge` puts new half-edges in; it is one of the face's inner loops. */
    const loopOfNew: LoopId
    var vertexToEdge: map<Vertex, seq<HalfEdgeId>>
    var graphEdges: seq<HalfEdgeId>
    var errors: seq<EdgeCollision>

    function Snapshot(): Graph
      reads this
    {
      Graph(vertexToEdge, graphEdges, errors)
    }

    ghost predicate Valid(t: Topology)
      reads this, t
    {
      GraphWf(t.halfEdges, Snapshot())
    }

    /**
     * `new FaceSolveData(face)`: an empty graph and a new empty loop owned by
     * the face, appended to the face's inner loops.
     */
    constructor (t: Topology, face: FaceId)
      requires t.Valid() && face < |t.faces|
      modifies t
      ensures t.Valid() && Valid(t)
      ensures this.face == face && loopOfNew == |old(t.loops)|
      ensures t.loops == old(t.loops) + [Loop(Some(face), [])]
      ensures t.faces == old(t.faces)[face := old(t.faces[face]).(innerLoops := old(t.faces[face].innerLoops) + [loopOfNew])]
      ensures t.halfEdges == old(t.halfEdges) && t.edges == old(t.edges) && t.solveData == old(t.solveData)
      ensures vertexToEdge == map[] && graphEdges == [] && errors == []
    {
      var l := t.NewLoop(Some(face));
      var fc := t.faces[face].(innerLoops := t.faces[face].innerLoops + [l]);
      assert FaceWf(t.faces[face], |t.loops|);
      SetFaceKeepsWf(t.halfEdges, t.edges, t.loops, t.faces, t.solveData, face, fc);
      t.faces := t.faces[face := fc];
      this.face := face;
      loopOfNew := l;
      vertexToEdge := map[];
      graphEdges := [];
      errors := [];
    }

    /** `findOppositeEdge(e1)`: the first half-edge listed under `e1`'s end that runs back along it. */
    method FindOppositeEdge(t: Topology, same: SameEdgeTest, e1: HalfEdgeId) returns (r: Option<HalfEdgeId>)
      requires Valid(t) && e1 < |t.halfEdges|
      ensures r == FirstOpposite(t.halfEdges, same, ListAt(vertexToEdge, t.halfEdges[e1].vertexB), e1)
    {
      var b := t.halfEdges[e1].vertexB;
      if b !in vertexToEdge {
        return None;
      }
      var others := vertexToEdge[b];
      var i := 0;
      while i < |others|
        invariant 0 <= i <= |others|
        invariant FirstOpposite(t.halfEdges, same, others, e1) == FirstOpposite(t.halfEdges, same, others[i..], e1)
      {
        if t.halfEdges[e1].vertexA == t.halfEdges[others[i]].vertexB && same(e1, others[i]) {
          return Some(others[i]);
        }
        assert others[i..][1..] == others[i + 1..];
        i := i + 1;
      }
      return None;
    }

    /** `addToGraph(he)`. */
    method AddToGraph(t: Topology, same: SameEdgeTest, he: HalfEdgeId)
      requires Valid(t) && he < |t.halfEdges|
      modifies this
      ensures Valid(t)
      ensures Snapshot() == AddStep(t.halfEdges, same, old(Snapshot()), he)
    {
      var opp := FindOppositeEdge(t, same, he);
      var a := t.halfEdges[he].vertexA;
      var par: seq<EdgeCollision> := [];
      if a in vertexToEdge {
        par := ParallelCollisions(t, same, vertexToEdge[a], he);
      }
      AddStepWf(t.halfEdges, same, Snapshot(), he);
      errors := errors + (if opp.Some? then [EdgeCollision(opp.value, he)] else []) + par;
      vertexToEdge := AddToListInMap(vertexToEdge, a, he);
      graphEdges := graphEdges + [he];
    }

    /** `initGraph`: the map is cleared and every half-edge of the face is added in enumeration order. */
    method InitGraph(t: Topology, same: SameEdgeTest)
      requires t.Valid() && face < |t.faces| && Valid(t)
      modifies this
      ensures Valid(t)
      ensures Snapshot() == AddAll(t.halfEdges, same, Graph(map[], old(graphEdges), old(errors)), HalfEdgesOf(t, face))
    {
      var hs := HalfEdgesOf(t, face);
      vertexToEdge := map[];
      assert GraphWf(t.halfEdges, Snapshot());
      AddEach(t, same, hs);
    }

    /** The loop of `initGraph`: `addToGraph` for each half-edge of `hs` in order. */
    method AddEach(t: Topology, same: SameEdgeTest, hs: seq<HalfEdgeId>)
      requires Valid(t) && InArena(t.halfEdges, hs)
      modifies this
      ensures Valid(t)
      ensures Snapshot() == AddAll(t.halfEdges, same, old(Snapshot()), hs)
    {
      ghost var g0 := Snapshot();
      AddAllPrefix(t.halfEdges, same, g0, hs, 0);
      for i := 0 to |hs|
        invariant Valid(t)
        invariant InArena(t.halfEdges, hs[..i])
        invariant Snapshot() == AddAll(t.halfEdges, same, g0, hs[..i])
      {
        AddAllPrefix(t.halfEdges, same, g0, hs, i);
        AddToGraph(t, same, hs[i]);
      }
      AddAllPrefix(t.halfEdges, same, g0, hs, |hs|);
    }
  }

  /** The loop over the list under `he`'s start in `addToGraph`. */
  method ParallelCollisions(t: Topology, same: SameEdgeTest, list: seq<HalfEdgeId>, he: HalfEdgeId) returns (r: seq<EdgeCollision>)
    requires he < |t.halfEdges| && InArena(t.halfEdges, list)
    ensures r == Parallels(t.halfEdges, same, list, he)
  {
    r := [];
    var i := 0;
    while i < |list|
      invariant 0 <= i <= |list|
      invariant r == Parallels(t.halfEdges, same, list[..i], he)
    {
      assert list[..i + 1][..i] == list[..i];
      if t.halfEdges[he].vertexB == t.halfEdges[list[i]].vertexB && same(he, list[i]) {
        r := r + [EdgeCollision(list[i], he)];
      }
      i := i + 1;
    }
    assert list[..i] == list;
  }

  /**
   * `addNewEdge(face, halfEdge)`: the half-edge joins the face's loop of new
   * edges, now belongs to that loop, and it and every half-edge sharing its
   * solve data are new.
   */
  method AddNewEdge(t: Topology, data: FaceSolveData, h: HalfEdgeId)
    requires t.Valid() && data.loopOfNew < |t.loops| && h < |t.halfEdges|
    modifies t
    ensures t.Valid() && |t.halfEdges| == |old(t.halfEdges)|
    ensures t.loops == old(t.loops)[data.loopOfNew := old(t.loops[data.loopOfNew]).(halfEdges := old(t.loops[data.loopOfNew].halfEdges) + [h])]
    ensures t.halfEdges[h].loop == Some(data.loopOfNew)
    ensures forall k | 0 <= k < |t.halfEdges| && k != h :: t.halfEdges[k].loop == old(t.halfEdges[k].loop)
    ensures forall k | 0 <= k < |t.halfEdges| ::
      t.halfEdges[k] == old(t.halfEdges[k]).(loop := t.halfEdges[k].loop, solve := t.halfEdges[k].solve)
    ensures forall k | 0 <= k < |t.halfEdges| && t.halfEdges[k].solve == t.halfEdges[h].solve :: SolveData.IsNew(t, k)
    ensures forall k | 0 <= k < |t.halfEdges| && t.halfEdges[k].solve != t.halfEdges[h].solve ::
      t.halfEdges[k].solve == old(t.halfEdges[k].solve) && SolveData.Get(t, k) == old(SolveData.Get(t, k))
    ensures t.edges == old(t.edges) && t.faces == old(t.faces)
  {
    var l := data.loopOfNew;
    var lp := t.loops[l].(halfEdges := t.loops[l].halfEdges + [h]);
    assert LoopWf(t.loops[l], |t.halfEdges|, |t.faces|);
    SetLoopKeepsWf(t.halfEdges, t.edges, t.loops, t.faces, t.solveData, l, lp);
    t.loops := t.loops[l := lp];
    var he := t.halfEdges[h].(loop := Some(l));
    assert HalfEdgeWf(t.halfEdges, t.edges, |t.loops|, |t.solveData|, h);
    SetHalfEdgeKeepsWf(t.halfEdges, t.edges, t.loops, t.faces, t.solveData, h, he);
    t.halfEdges := t.halfEdges[h := he];
    forall k | 0 <= k < |t.halfEdges| ensures SolveData.Get(t, k) == old(SolveData.Get(t, k)) {
      assert t.halfEdges[k].solve == old(t.halfEdges[k].solve);
    }
    label Linked:
    SolveData.MarkNew(t, h);
    forall k | 0 <= k < |t.halfEdges| && t.halfEdges[k].solve != t.halfEdges[h].solve
      ensures SolveData.Get(t, k) == old(SolveData.Get(t, k))
    {
      assert k != h;
      assert SolveData.Get(t, k) == old@Linked(SolveData.Get(t, k));
    }
  }

  /** An error list is truthy in JavaScript whatever its length. */
  predicate Truthy(errs: seq<EdgeCollision>)
  {
    true
  }

  /** All faces' collision records, face by face. */
  function Concat(errs: seq<seq<EdgeCollision>>): (r: seq<EdgeCollision>)
    ensures |r| == 0 <==> forall i | 0 <= i < |errs| :: errs[i] == []
  {
    if errs == [] then [] else Concat(errs[..|errs| - 1]) + errs[|errs| - 1]
  }

  /** `facesData.find(f => f.errors)` succeeds. */
  predicate ThrowsAsWritten(errs: seq<seq<EdgeCollision>>)
  {
    exists i :: 0 <= i < |errs| && Truthy(errs[i])
  }

  /** What the test evidently means: some face recorded a collision. */
  predicate ThrowsIntended(errs: seq<seq<EdgeCollision>>)
  {
    exists i :: 0 <= i < |errs| && errs[i] != []
  }

  /** As written, the error test fires for every non-empty list of faces. */
  lemma ThrowsAsWrittenIffFaces(errs: seq<seq<EdgeCollision>>)
    ensures ThrowsAsWritten(errs) <==> |errs| > 0
  {
    if |errs| > 0 {
      assert Truthy(errs[0]);
    }
  }

  /** One face without collisions: the error test as written throws, the intended one does not. */
  lemma CleanFaceStillThrows()
    ensures ThrowsAsWritten([[]]) && !ThrowsIntended([[]])
  {
    assert Truthy([[]][0]);
  }

  /** The intended check throws exactly when the batch of records is non-empty. */
  lemma ThrowsIntendedIffRecords(errs: seq<seq<EdgeCollision>>)
    ensures ThrowsIntended(errs) <==> Concat(errs) != []
  {
  }

  /** The payload loop: every face's records, face by face. */
  method CollectPayload(errs: seq<seq<EdgeCollision>>) returns (payload: seq<EdgeCollision>)
    ensures payload == Concat(errs)
  {
    payload := [];
    var i := 0;
    while i < |errs|
      invariant 0 <= i <= |errs|
      invariant payload == Concat(errs[..i])
    {
      assert errs[..i + 1][..i] == errs[..i];
      var j := 0;
      ghost var p0 := payload;
      while j < |errs[i]|
        invariant 0 <= j <= |errs[i]|
        invariant payload == p0 + errs[i][..j]
      {
        assert errs[i][..j + 1] == errs[i][..j] + [errs[i][j]];
        payload := payload + [errs[i][j]];
        j := j + 1;
      }
      assert errs[i][..j] == errs[i];
      i := i + 1;
    }
    assert errs[..i] == errs;
  }

  /**
   * `checkFaceDataForError`, as written, on the faces' error lists in
   * `facesData` order: it throws for any non-empty list of faces, and the
   * positional constructor call drops the code and the payload.
   */
  method CheckFaceDataForError(errs: seq<seq<EdgeCollision>>) returns (r: Outcome<CadError<seq<EdgeCollision>>>)
    ensures r.Fail? <==> ThrowsAsWritten(errs)
    ensures r.Fail? ==> r.error == PositionalCadError(BOOLEAN_INVALID_RESULT, Concat(errs))
    ensures r.Fail? ==> r.error == CadError(INTERNAL_ERROR, None, None, None)
  {
    if ThrowsAsWritten(errs) {
      var payload := CollectPayload(errs);
      PositionalCallLosesCodeAndPayload(BOOLEAN_INVALID_RESULT, payload);
      return Fail(PositionalCadError(BOOLEAN_INVALID_RESULT, payload));
    }
    return Pass;
  }

  /**
   * The error test as evidently intended: it throws exactly when some face
   * recorded a collision, and the error carries the code and all records.
   */
  method CheckFaceDataForErrorIntended(errs: seq<seq<EdgeCollision>>) returns (r: Outcome<CadError<seq<EdgeCollision>>>)
    ensures r.Fail? <==> ThrowsIntended(errs)
    ensures r.Fail? ==> r.error.code == Some(BOOLEAN_INVALID_RESULT)
    ensures r.Fail? ==> r.error.relatedTopoObjects == Some(Concat(errs)) && Concat(errs) != []
  {
    if ThrowsIntended(errs) {
      var payload := CollectPayload(errs);
      CodedCallKeepsCodeAndPayload(BOOLEAN_INVALID_RESULT, payload);
      return Fail(CodedCadError(BOOLEAN_INVALID_RESULT, payload));
    }
    return Pass;
  }
}
