/**
 * The crossing nodes of an intersection curve with face boundaries, and
 * `nullifyDegradedNodes` / `filterAndSortNodes`
 * (web/app/brep/operations/boolean.js).
 */
module Nodes {
  import opened Geometry
  import opened Wrappers
  import opened Topology

  /**
   * `new Node(vertex, edge, curve, u)`: where the curve crosses half-edge
   * `edge`, at curve parameter `u`; `normal` is the crossing's sign, -1, 0
   * or 1 (0 for a new edge or a tangential touch).
   */
  datatype Node = Node(vertex: Vertex, edge: HalfEdgeId, u: real, normal: int)

  /**
   * The dedup test of `filterAndSortNodes`: `other` is dropped against a
   * surviving `keeper` when their parameters are `ueq` and their signs do
   * not cancel.
   */
  predicate Clash(ueq: (real, real) -> bool, keeper: Node, other: Node)
  {
    ueq(other.u, keeper.u) && keeper.normal + other.normal != 0
  }

  /** No two entries at different positions clash, in either role. */
  predicate NoClash(ueq: (real, real) -> bool, s: seq<Node>)
  {
    forall p, q | 0 <= p < |s| && 0 <= q < |s| && p != q :: !Clash(ueq, s[p], s[q])
  }

  /** `NoClash` of a list with a head: the tail has none and the head clashes with no tail entry. */
  lemma NoClashCons(ueq: (real, real) -> bool, x: Node, s: seq<Node>)
    ensures NoClash(ueq, [x] + s) <==>
      NoClash(ueq, s) && forall y | y in s :: !Clash(ueq, x, y) && !Clash(ueq, y, x)
  {
    var xs := [x] + s;
    if NoClash(ueq, xs) {
      forall p, q | 0 <= p < |s| && 0 <= q < |s| && p != q ensures !Clash(ueq, s[p], s[q]) {
        assert xs[p + 1] == s[p] && xs[q + 1] == s[q];
      }
      forall y | y in s ensures !Clash(ueq, x, y) && !Clash(ueq, y, x) {
        var k :| 0 <= k < |s| && s[k] == y;
        assert xs[0] == x && xs[k + 1] == y;
        assert !Clash(ueq, xs[0], xs[k + 1]) && !Clash(ueq, xs[k + 1], xs[0]);
      }
    }
    if NoClash(ueq, s) && forall y | y in s :: !Clash(ueq, x, y) && !Clash(ueq, y, x) {
      forall p, q | 0 <= p < |xs| && 0 <= q < |xs| && p != q ensures !Clash(ueq, xs[p], xs[q]) {
        if p > 0 { assert xs[p] == s[p - 1]; }
        if q > 0 { assert xs[q] == s[q - 1]; }
      }
    }
  }

  /** `nodes.filter(n => n !== null)`. */
  function Alive(s: seq<Option<Node>>): (r: seq<Node>)
    ensures |r| <= |s|
    ensures forall x | x in r :: Some(x) in s
  {
    if s == [] then []
    else (if s[0].Some? then [s[0].value] else []) + Alive(s[1..])
  }

  /** Every entry that is not null survives the filter. */
  lemma {:induction false} AliveKeeps(s: seq<Option<Node>>, k: nat)
    requires k < |s| && s[k].Some?
    ensures s[k].value in Alive(s)
  {
    if k > 0 {
      assert s[1..][k - 1] == s[k];
      AliveKeeps(s[1..], k - 1);
    }
  }

  /** Nulling entries only removes nodes from the filtered list. */
  lemma {:induction false} AliveShrinks(s: seq<Option<Node>>, s': seq<Option<Node>>)
    requires |s'| == |s|
    requires forall k | 0 <= k < |s| :: s'[k].None? || s'[k] == s[k]
    ensures multiset(Alive(s')) <= multiset(Alive(s))
  {
    if s != [] {
      AliveShrinks(s[1..], s'[1..]);
    }
  }

  /** Clash-freedom of the non-null entries, by position. */
  predicate NoClashAt(ueq: (real, real) -> bool, s: seq<Option<Node>>)
  {
    forall p, q | 0 <= p < |s| && 0 <= q < |s| && p != q && s[p].Some? && s[q].Some? ::
      !Clash(ueq, s[p].value, s[q].value)
  }

  /** Filtering keeps clash-freedom. */
  lemma {:induction false} AliveNoClash(ueq: (real, real) -> bool, s: seq<Option<Node>>)
    requires NoClashAt(ueq, s)
    ensures NoClash(ueq, Alive(s))
  {
    if s != [] {
      var t := s[1..];
      assert NoClashAt(ueq, t) by {
        forall p, q | 0 <= p < |t| && 0 <= q < |t| && p != q && t[p].Some? && t[q].Some?
          ensures !Clash(ueq, t[p].value, t[q].value)
        {
          assert t[p] == s[p + 1] && t[q] == s[q + 1];
        }
      }
      AliveNoClash(ueq, t);
      if s[0].Some? {
        forall y | y in Alive(t) ensures !Clash(ueq, s[0].value, y) && !Clash(ueq, y, s[0].value) {
          var k :| 0 <= k < |t| && t[k] == Some(y);
          assert s[k + 1] == Some(y);
        }
        NoClashCons(ueq, s[0].value, Alive(t));
      }
    }
  }

  /** The comparator handed to `nodes.sort`: by parameter, and by sign when the parameters are `ueq`. */
  function Compare(ueq: (real, real) -> bool, a: Node, b: Node): real
  {
    if ueq(a.u, b.u) then (a.normal - b.normal) as real else a.u - b.u
  }

  /** `a` may precede `b`: ascending parameter, ties (`ueq` parameters) by ascending sign. */
  predicate InOrder(ueq: (real, real) -> bool, a: Node, b: Node)
  {
    if ueq(a.u, b.u) then a.normal <= b.normal else a.u <= b.u
  }

  /** Every neighbouring pair is in order. */
  predicate Ordered(ueq: (real, real) -> bool, s: seq<Node>)
  {
    forall k | 0 <= k < |s| - 1 :: InOrder(ueq, s[k], s[k + 1])
  }

  /** Inserts `x` before the first entry it does not compare above (so equal entries keep their order). */
  function Insert(ueq: (real, real) -> bool, x: Node, s: seq<Node>): (r: seq<Node>)
    ensures multiset(r) == multiset(s) + multiset{x}
    ensures r[0] == x || r[0] == s[0]
  {
    if s == [] || Compare(ueq, x, s[0]) <= 0.0 then [x] + s
    else
      assert s == [s[0]] + s[1..];
      [s[0]] + Insert(ueq, x, s[1..])
  }

  /**
   * `nodes.sort(comparator)`, as a stable insertion sort. The result holds
   * the same nodes as the input.
   */
  function SortNodes(ueq: (real, real) -> bool, s: seq<Node>): (r: seq<Node>)
    ensures multiset(r) == multiset(s)
  {
    if s == [] then []
    else
      assert s == [s[0]] + s[1..];
      Insert(ueq, s[0], SortNodes(ueq, s[1..]))
  }

  /** With a symmetric `ueq`, insertion keeps neighbouring pairs in order. */
  lemma {:induction false} InsertOrdered(ueq: (real, real) -> bool, x: Node, s: seq<Node>)
    requires SymmetricParamTest(ueq) && Ordered(ueq, s)
    ensures Ordered(ueq, Insert(ueq, x, s))
  {
    if s != [] && Compare(ueq, x, s[0]) > 0.0 {
      var t := s[1..];
      assert Ordered(ueq, t) by {
        forall k | 0 <= k < |t| - 1 ensures InOrder(ueq, t[k], t[k + 1]) {
          assert t[k] == s[k + 1] && t[k + 1] == s[k + 2];
        }
      }
      InsertOrdered(ueq, x, t);
      var r := [s[0]] + Insert(ueq, x, t);
      assert ueq(x.u, s[0].u) == ueq(s[0].u, x.u);
      forall k | 0 <= k < |r| - 1 ensures InOrder(ueq, r[k], r[k + 1]) {
        if k > 0 {
          assert r[k] == Insert(ueq, x, t)[k - 1] && r[k + 1] == Insert(ueq, x, t)[k];
        }
      }
    }
  }

  /** With a symmetric `ueq`, the sorted list has every neighbouring pair in order. */
  lemma {:induction false} SortNodesOrdered(ueq: (real, real) -> bool, s: seq<Node>)
    requires SymmetricParamTest(ueq)
    ensures Ordered(ueq, SortNodes(ueq, s))
  {
    if s != [] {
      SortNodesOrdered(ueq, s[1..]);
      InsertOrdered(ueq, s[0], SortNodes(ueq, s[1..]));
    }
  }

  /** Insertion keeps clash-freedom. */
  lemma {:induction false} InsertNoClash(ueq: (real, real) -> bool, x: Node, s: seq<Node>)
    requires NoClash(ueq, [x] + s)
    ensures NoClash(ueq, Insert(ueq, x, s))
  {
    NoClashCons(ueq, x, s);
    if s != [] && Compare(ueq, x, s[0]) > 0.0 {
      var t := s[1..];
      assert s == [s[0]] + t;
      NoClashCons(ueq, s[0], t);
      NoClashCons(ueq, x, t);
      InsertNoClash(ueq, x, t);
      var i := Insert(ueq, x, t);
      forall y | y in i ensures !Clash(ueq, s[0], y) && !Clash(ueq, y, s[0]) {
        assert y in multiset(i);
      }
      NoClashCons(ueq, s[0], i);
    }
  }

  /** Sorting keeps clash-freedom. */
  lemma {:induction false} SortNodesNoClash(ueq: (real, real) -> bool, s: seq<Node>)
    requires NoClash(ueq, s)
    ensures NoClash(ueq, SortNodes(ueq, s))
  {
    if s != [] {
      assert s == [s[0]] + s[1..];
      NoClashCons(ueq, s[0], s[1..]);
      SortNodesNoClash(ueq, s[1..]);
      var r := SortNodes(ueq, s[1..]);
      forall y | y in r ensures !Clash(ueq, s[0], y) && !Clash(ueq, y, s[0]) {
        assert y in multiset(r);
      }
      NoClashCons(ueq, s[0], r);
      InsertNoClash(ueq, s[0], r);
    }
  }

  /** `nullifyDegradedNodes`: every sign-0 node is replaced by null in place. */
  method NullifyDegradedNodes(nodes: array<Option<Node>>)
    modifies nodes
    ensures forall k | 0 <= k < nodes.Length ::
      nodes[k] == if old(nodes[k]).Some? && old(nodes[k]).value.normal == 0 then None else old(nodes[k])
  {
    var i := 0;
    while i < nodes.Length
      invariant 0 <= i <= nodes.Length
      invariant forall k | 0 <= k < i ::
        nodes[k] == if old(nodes[k]).Some? && old(nodes[k]).value.normal == 0 then None else old(nodes[k])
      invariant forall k | i <= k < nodes.Length :: nodes[k] == old(nodes[k])
    {
      var n := nodes[i];
      if n.Some? {
        if n.value.normal == 0 {
          nodes[i] := None;
        }
      }
      i := i + 1;
    }
  }

  /**
   * A node no dedup step can remove: non-null, of non-zero sign, and
   * clashing with no other node of non-zero sign.
   */
  ghost predicate Lonely(ueq: (real, real) -> bool, s: seq<Option<Node>>, k: int)
  {
    && 0 <= k < |s| && s[k].Some? && s[k].value.normal != 0
    && forall p | 0 <= p < |s| && p != k && s[p].Some? && s[p].value.normal != 0 :: !Clash(ueq, s[p].value, s[k].value)
  }

  /**
   * The inner loop of the dedup in `filterAndSortNodes`: every other
   * non-null node clashing with the node at `i` is nulled.
   */
  method DropClashesWith(ueq: (real, real) -> bool, nodes: array<Option<Node>>, i: nat)
    requires i < nodes.Length && nodes[i].Some?
    modifies nodes
    ensures nodes[i] == old(nodes[i])
    ensures forall k | 0 <= k < nodes.Length ::
      nodes[k] == if k != i && old(nodes[k]).Some? && Clash(ueq, nodes[i].value, old(nodes[k]).value)
                  then None else old(nodes[k])
  {
    var node1 := nodes[i];
    var j := 0;
    while j < nodes.Length
      invariant 0 <= j <= nodes.Length
      invariant nodes[i] == node1
      invariant forall k | 0 <= k < j ::
        nodes[k] == if k != i && old(nodes[k]).Some? && Clash(ueq, node1.value, old(nodes[k]).value)
                    then None else old(nodes[k])
      invariant forall k | j <= k < nodes.Length :: nodes[k] == old(nodes[k])
    {
      if i != j {
        var node2 := nodes[j];
        if node2.Some? {
          if ueq(node2.value.u, node1.value.u) {
            if node1.value.normal + node2.value.normal != 0 {
              nodes[j] := None;
            }
          }
        }
      }
      j := j + 1;
    }
  }

  /**
   * What the outer dedup loop keeps after its first `i` turns over the list
   * `a0` it started with: entries are only nulled; a node that clashes with
   * no other node is alive; no node whose turn has come clashes with another
   * live node; every nulled node clashes with some other node of `a0`; and,
   * with a symmetric `ueq`, with a live node before it whose turn has come.
   */
  ghost predicate DedupDone(ueq: (real, real) -> bool, a0: seq<Option<Node>>, s: seq<Option<Node>>, i: nat)
  {
    && |s| == |a0| && i <= |s|
    && (forall k | 0 <= k < |s| :: s[k].None? || s[k] == a0[k])
    && (forall k | 0 <= k < |s| && a0[k].Some? &&
          (forall p | 0 <= p < |s| && p != k && a0[p].Some? :: !Clash(ueq, a0[p].value, a0[k].value))
          :: s[k].Some?)
    && (forall p, q | 0 <= p < i && 0 <= q < |s| && p != q && s[p].Some? && s[q].Some? ::
          !Clash(ueq, s[p].value, s[q].value))
    && (forall k | 0 <= k < |s| && a0[k].Some? && s[k].None? ::
          exists p | 0 <= p < |s| && p != k && a0[p].Some? :: Clash(ueq, a0[p].value, a0[k].value))
    && (SymmetricParamTest(ueq) ==>
          forall k | 0 <= k < |s| && a0[k].Some? && s[k].None? ::
            exists p | 0 <= p < k && p < i && s[p].Some? :: Clash(ueq, s[p].value, a0[k].value))
  }

  /** One turn of the outer dedup loop keeps `DedupDone`. */
  lemma DedupStep(ueq: (real, real) -> bool, a0: seq<Option<Node>>, s: seq<Option<Node>>, s': seq<Option<Node>>, i: nat)
    requires DedupDone(ueq, a0, s, i) && i < |s| && |s'| == |s|
    requires s[i].None? ==> s' == s
    requires s[i].Some? ==> s'[i] == s[i] && forall k | 0 <= k < |s| ::
      s'[k] == if k != i && s[k].Some? && Clash(ueq, s[i].value, s[k].value) then None else s[k]
    ensures DedupDone(ueq, a0, s', i + 1)
  {
    if s[i].Some? {
      forall k | 0 <= k < |s| && a0[k].Some? && s'[k].None?
        ensures exists p | 0 <= p < |s| && p != k && a0[p].Some? :: Clash(ueq, a0[p].value, a0[k].value)
      {
        if s[k].Some? {
          assert s[k] == a0[k] && s[i] == a0[i];
        }
      }
      forall k | 0 <= k < |s| && a0[k].Some? &&
          (forall p | 0 <= p < |s| && p != k && a0[p].Some? :: !Clash(ueq, a0[p].value, a0[k].value))
        ensures s'[k].Some?
      {
        assert s[k].Some? && s[i] == a0[i];
      }
      forall p, q | 0 <= p < i + 1 && 0 <= q < |s| && p != q && s'[p].Some? && s'[q].Some?
        ensures !Clash(ueq, s'[p].value, s'[q].value)
      {
        assert s'[p] == s[p] && s'[q] == s[q];
      }
      if SymmetricParamTest(ueq) {
        DedupStepEarlier(ueq, a0, s, s', i);
      }
    }
  }

  /** With a symmetric `ueq`, one turn keeps every nulled node behind a live earlier node it clashes with. */
  lemma DedupStepEarlier(ueq: (real, real) -> bool, a0: seq<Option<Node>>, s: seq<Option<Node>>, s': seq<Option<Node>>, i: nat)
    requires DedupDone(ueq, a0, s, i) && i < |s| && |s'| == |s| && SymmetricParamTest(ueq)
    requires s[i].Some? && s'[i] == s[i] && forall k | 0 <= k < |s| ::
      s'[k] == if k != i && s[k].Some? && Clash(ueq, s[i].value, s[k].value) then None else s[k]
    ensures forall k | 0 <= k < |s| && a0[k].Some? && s'[k].None? ::
      exists p | 0 <= p < k && p < i + 1 && s'[p].Some? :: Clash(ueq, s'[p].value, a0[k].value)
  {
    forall k | 0 <= k < |s| && a0[k].Some? && s'[k].None?
      ensures exists p | 0 <= p < k && p < i + 1 && s'[p].Some? :: Clash(ueq, s'[p].value, a0[k].value)
    {
      if s[k].Some? {
        assert s[k] == a0[k];
        assert s'[i] == s[i];
      } else {
        var p :| 0 <= p < k && p < i && s[p].Some? && Clash(ueq, s[p].value, a0[k].value);
        assert !Clash(ueq, s[p].value, s[i].value);
        assert ueq(s[p].value.u, s[i].value.u) == ueq(s[i].value.u, s[p].value.u);
        assert s'[p] == s[p];
      }
    }
  }

  /**
   * The outer loop of the dedup: each node still alive when its turn comes
   * nulls every other node it clashes with. No two survivors clash, every
   * node that clashes with no other node survives, and a node is nulled only
   * when another node clashes with it; with a symmetric `ueq`, that node is
   * an earlier one that survives.
   */
  method DropClashingNodes(ueq: (real, real) -> bool, nodes: array<Option<Node>>)
    modifies nodes
    ensures forall k | 0 <= k < nodes.Length :: nodes[k].None? || nodes[k] == old(nodes[k])
    ensures NoClashAt(ueq, nodes[..])
    ensures forall k | 0 <= k < nodes.Length && old(nodes[k]).Some? &&
      (forall p | 0 <= p < nodes.Length && p != k && old(nodes[p]).Some? :: !Clash(ueq, old(nodes[p]).value, old(nodes[k]).value))
      :: nodes[k].Some?
    ensures forall k | 0 <= k < nodes.Length && old(nodes[k]).Some? && nodes[k].None? ::
      exists p | 0 <= p < nodes.Length && p != k && old(nodes[p]).Some? :: Clash(ueq, old(nodes[p]).value, old(nodes[k]).value)
    ensures SymmetricParamTest(ueq) ==>
      forall k | 0 <= k < nodes.Length && old(nodes[k]).Some? && nodes[k].None? ::
        exists p | 0 <= p < k && nodes[p].Some? :: Clash(ueq, nodes[p].value, old(nodes[k]).value)
  {
    ghost var a0 := nodes[..];
    var i := 0;
    while i < nodes.Length
      invariant DedupDone(ueq, a0, nodes[..], i)
    {
      ghost var s := nodes[..];
      if nodes[i].Some? {
        DropClashesWith(ueq, nodes, i);
      }
      DedupStep(ueq, a0, s, nodes[..], i);
      i := i + 1;
    }
  }

  /**
   * Every node of `a0` of non-zero sign that is missing from `r` clashes
   * with another node of `a0` of non-zero sign: nothing is dropped without
   * a clash.
   */
  ghost predicate DroppedForClash(ueq: (real, real) -> bool, a0: seq<Option<Node>>, r: seq<Node>)
  {
    forall k | 0 <= k < |a0| && a0[k].Some? && a0[k].value.normal != 0 && a0[k].value !in r ::
      exists p | 0 <= p < |a0| && p != k && a0[p].Some? && a0[p].value.normal != 0 :: Clash(ueq, a0[p].value, a0[k].value)
  }

  /** Every node of `a0` of non-zero sign is in `r` or clashes with a member of `r` that keeps it out. */
  ghost predicate Represented(ueq: (real, real) -> bool, a0: seq<Option<Node>>, r: seq<Node>)
  {
    forall k | 0 <= k < |a0| && a0[k].Some? && a0[k].value.normal != 0 ::
      a0[k].value in r || exists x | x in r :: Clash(ueq, x, a0[k].value)
  }

  /** What sorting the survivors of both nulling passes yields, stated on the list before and after. */
  lemma SurvivorsSorted(ueq: (real, real) -> bool, a0: seq<Option<Node>>, a2: seq<Option<Node>>)
    requires |a2| == |a0|
    requires forall k | 0 <= k < |a2| :: a2[k].None? || (a2[k] == a0[k] && a2[k].value.normal != 0)
    requires NoClashAt(ueq, a2)
    requires forall k | Lonely(ueq, a0, k) :: a2[k].Some?
    ensures var r := SortNodes(ueq, Alive(a2));
      && (forall k | 0 <= k < |r| :: r[k].normal != 0)
      && NoClash(ueq, r)
      && (SymmetricParamTest(ueq) ==> Ordered(ueq, r))
      && multiset(r) <= multiset(Alive(a0))
      && forall k | Lonely(ueq, a0, k) :: a0[k].value in r
  {
    var alive := Alive(a2);
    var r := SortNodes(ueq, alive);
    AliveNoClash(ueq, a2);
    SortNodesNoClash(ueq, alive);
    if SymmetricParamTest(ueq) {
      SortNodesOrdered(ueq, alive);
    }
    AliveShrinks(a0, a2);
    forall k | 0 <= k < |r| ensures r[k].normal != 0 {
      assert r[k] in multiset(alive);
      assert Some(r[k]) in a2;
    }
    forall k | Lonely(ueq, a0, k) ensures a0[k].value in r {
      AliveKeeps(a2, k);
      assert a0[k].value in multiset(alive);
    }
  }

  /**
   * Sorting the survivors drops no node of non-zero sign without a clash,
   * and with a symmetric `ueq` every node of non-zero sign is sorted in or
   * clashes with a sorted survivor.
   */
  lemma SurvivorsRepresent(ueq: (real, real) -> bool, a0: seq<Option<Node>>, a2: seq<Option<Node>>)
    requires |a2| == |a0|
    requires forall k | 0 <= k < |a2| :: a2[k].None? || a2[k] == a0[k]
    requires forall k | 0 <= k < |a0| && a0[k].Some? && a0[k].value.normal != 0 && a2[k].None? ::
      exists p | 0 <= p < |a0| && p != k && a0[p].Some? && a0[p].value.normal != 0 :: Clash(ueq, a0[p].value, a0[k].value)
    requires SymmetricParamTest(ueq) ==>
      forall k | 0 <= k < |a0| && a0[k].Some? && a0[k].value.normal != 0 && a2[k].None? ::
        exists p | 0 <= p < k && a2[p].Some? :: Clash(ueq, a2[p].value, a0[k].value)
    ensures DroppedForClash(ueq, a0, SortNodes(ueq, Alive(a2)))
    ensures SymmetricParamTest(ueq) ==> Represented(ueq, a0, SortNodes(ueq, Alive(a2)))
  {
    var alive := Alive(a2);
    var r := SortNodes(ueq, alive);
    forall k | 0 <= k < |a0| && a0[k].Some? && a0[k].value.normal != 0 && a0[k].value !in r
      ensures a2[k].None?
    {
      if a2[k].Some? {
        SortedKeeps(ueq, a2, k);
      }
    }
    if SymmetricParamTest(ueq) {
      forall k | 0 <= k < |a0| && a0[k].Some? && a0[k].value.normal != 0 && a0[k].value !in r
        ensures exists x | x in r :: Clash(ueq, x, a0[k].value)
      {
        var p :| 0 <= p < k && a2[p].Some? && Clash(ueq, a2[p].value, a0[k].value);
        SortedKeeps(ueq, a2, p);
      }
    }
  }

  /** A live entry is among the sorted survivors. */
  lemma SortedKeeps(ueq: (real, real) -> bool, a: seq<Option<Node>>, k: nat)
    requires k < |a| && a[k].Some?
    ensures a[k].value in SortNodes(ueq, Alive(a))
  {
    AliveKeeps(a, k);
    assert a[k].value in multiset(Alive(a));
  }

  /**
   * The two nulling passes of `filterAndSortNodes` in sequence terms:
   * `a1` nulls the sign-0 nodes of `a0`, `a2` is what the dedup leaves of
   * `a1`. Every node nulled between `a0` and `a2` that had non-zero sign
   * clashes with another node of non-zero sign, and a node that clashes
   * with nothing is kept.
   */
  lemma BothPasses(ueq: (real, real) -> bool, a0: seq<Option<Node>>, a1: seq<Option<Node>>, a2: seq<Option<Node>>)
    requires |a1| == |a0| && |a2| == |a1|
    requires forall k | 0 <= k < |a0| :: a1[k] == if a0[k].Some? && a0[k].value.normal == 0 then None else a0[k]
    requires forall k | 0 <= k < |a1| :: a2[k].None? || a2[k] == a1[k]
    requires forall k | 0 <= k < |a1| && a1[k].Some? &&
      (forall p | 0 <= p < |a1| && p != k && a1[p].Some? :: !Clash(ueq, a1[p].value, a1[k].value))
      :: a2[k].Some?
    requires forall k | 0 <= k < |a1| && a1[k].Some? && a2[k].None? ::
      exists p | 0 <= p < |a1| && p != k && a1[p].Some? :: Clash(ueq, a1[p].value, a1[k].value)
    requires SymmetricParamTest(ueq) ==>
      forall k | 0 <= k < |a1| && a1[k].Some? && a2[k].None? ::
        exists p | 0 <= p < k && a2[p].Some? :: Clash(ueq, a2[p].value, a1[k].value)
    ensures forall k | 0 <= k < |a2| :: a2[k].None? || (a2[k] == a0[k] && a2[k].value.normal != 0)
    ensures forall k | Lonely(ueq, a0, k) :: a2[k].Some?
    ensures forall k | 0 <= k < |a0| && a0[k].Some? && a0[k].value.normal != 0 && a2[k].None? ::
      exists p | 0 <= p < |a0| && p != k && a0[p].Some? && a0[p].value.normal != 0 :: Clash(ueq, a0[p].value, a0[k].value)
    ensures SymmetricParamTest(ueq) ==>
      forall k | 0 <= k < |a0| && a0[k].Some? && a0[k].value.normal != 0 && a2[k].None? ::
        exists p | 0 <= p < k && a2[p].Some? :: Clash(ueq, a2[p].value, a0[k].value)
  {
    forall k | Lonely(ueq, a0, k) ensures a2[k].Some? {
      assert a1[k] == a0[k];
      forall p | 0 <= p < |a1| && p != k && a1[p].Some? ensures !Clash(ueq, a1[p].value, a1[k].value) {
        assert a1[p] == a0[p];
      }
    }
    forall k | 0 <= k < |a0| && a0[k].Some? && a0[k].value.normal != 0 && a2[k].None?
      ensures exists p | 0 <= p < |a0| && p != k && a0[p].Some? && a0[p].value.normal != 0 :: Clash(ueq, a0[p].value, a0[k].value)
    {
      assert a1[k] == a0[k];
      var p :| 0 <= p < |a1| && p != k && a1[p].Some? && Clash(ueq, a1[p].value, a1[k].value);
      assert a1[p] == a0[p];
    }
    if SymmetricParamTest(ueq) {
      forall k | 0 <= k < |a0| && a0[k].Some? && a0[k].value.normal != 0 && a2[k].None?
        ensures exists p | 0 <= p < k && a2[p].Some? :: Clash(ueq, a2[p].value, a0[k].value)
      {
        assert a1[k] == a0[k];
      }
    }
  }

  /**
   * `filterAndSortNodes(nodes)`: sign-0 nodes and nodes clashing with an
   * earlier survivor are nulled in `nodes`, and the sorted survivors are
   * returned. No survivor has sign 0, no two survivors clash, every node
   * that clashes with nothing survives, and with a symmetric `ueq` the
   * result is ordered.
   */
  method FilterAndSortNodes(ueq: (real, real) -> bool, nodes: array<Option<Node>>) returns (r: seq<Node>)
    modifies nodes
    ensures forall k | 0 <= k < nodes.Length :: nodes[k].None? || nodes[k] == old(nodes[k])
    ensures r == SortNodes(ueq, Alive(nodes[..]))
    ensures forall k | 0 <= k < |r| :: r[k].normal != 0
    ensures NoClash(ueq, r)
    ensures SymmetricParamTest(ueq) ==> Ordered(ueq, r)
    ensures multiset(r) <= multiset(Alive(old(nodes[..])))
    ensures forall k | Lonely(ueq, old(nodes[..]), k) :: old(nodes[k]).value in r
    ensures DroppedForClash(ueq, old(nodes[..]), r)
    ensures SymmetricParamTest(ueq) ==> Represented(ueq, old(nodes[..]), r)
  {
    ghost var a0 := nodes[..];
    NullifyDegradedNodes(nodes);
    ghost var a1 := nodes[..];
    DropClashingNodes(ueq, nodes);
    ghost var a2 := nodes[..];
    BothPasses(ueq, a0, a1, a2);
    SurvivorsSorted(ueq, a0, a2);
    SurvivorsRepresent(ueq, a0, a2);
    r := SortNodes(ueq, Alive(nodes[..]));
  }
}
