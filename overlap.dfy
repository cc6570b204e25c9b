/**
 * The grouping in `findOverlappingFaces` (boolean.js): every overlapping
 * (shell-1 face, shell-2 face) pair is put into the first group that already
 * holds the shell-1 face on its first side or the shell-2 face on its second
 * side, or into a new group. The coplanarity and point-in-polygon test is a
 * given oracle.
 */
module Overlap {
  import opened Topology
  import opened ListMaps

  /** `overlaps(face1, face2)`, a geometric test given by the caller. */
  type Overlaps = (FaceId, FaceId) -> bool

  /** An entry of `overlapGroups`: `[Set of shell-1 faces, Set of shell-2 faces]`, each set in insertion order. */
  datatype Group = Group(faces1: seq<FaceId>, faces2: seq<FaceId>)

  predicate NoDup(s: seq<FaceId>)
  {
    forall i, j | 0 <= i < j < |s| :: s[i] != s[j]
  }

  /** `set.add(x)` on a set kept in insertion order. */
  function SetAdd(s: seq<FaceId>, x: FaceId): (r: seq<FaceId>)
    ensures s <= r && x in r
    ensures forall y :: y in r <==> y in s || y == x
    ensures NoDup(s) ==> NoDup(r)
  {
    if x in s then s else s + [x]
  }

  /** The test `g => g[0].has(face1) || g[1].has(face2)`. */
  predicate Touches(g: Group, f1: FaceId, f2: FaceId)
  {
    f1 in g.faces1 || f2 in g.faces2
  }

  /** `overlapGroups.find(...)` as an index: the first touched group, or the number of groups when none is. */
  function FindGroup(gs: seq<Group>, f1: FaceId, f2: FaceId): (k: nat)
    ensures k <= |gs|
    ensures k < |gs| ==> Touches(gs[k], f1, f2)
    ensures forall j | 0 <= j < k :: !Touches(gs[j], f1, f2)
  {
    if gs == [] then 0
    else if Touches(gs[0], f1, f2) then 0
    else 1 + FindGroup(gs[1..], f1, f2)
  }

  /** The body for an overlapping pair: add both faces to the found group, or push a new one. */
  function Place(gs: seq<Group>, f1: FaceId, f2: FaceId): seq<Group>
  {
    var k := FindGroup(gs, f1, f2);
    if k == |gs| then gs + [Group([f1], [f2])]
    else gs[k := Group(SetAdd(gs[k].faces1, f1), SetAdd(gs[k].faces2, f2))]
  }

  /** The inner loop for one shell-1 face over the shell-2 faces. */
  function Row(gs: seq<Group>, f1: FaceId, fs2: seq<FaceId>, overlaps: Overlaps): seq<Group>
  {
    if fs2 == [] then gs
    else
      var prev := Row(gs, f1, fs2[..|fs2| - 1], overlaps);
      if overlaps(f1, fs2[|fs2| - 1]) then Place(prev, f1, fs2[|fs2| - 1]) else prev
  }

  /** The groups after both loops, as written. */
  function Grouped(fs1: seq<FaceId>, fs2: seq<FaceId>, overlaps: Overlaps): seq<Group>
  {
    if fs1 == [] then []
    else Row(Grouped(fs1[..|fs1| - 1], fs2, overlaps), fs1[|fs1| - 1], fs2, overlaps)
  }

  /** `findOverlappingFaces(shell1, shell2)` over the two shells' face lists. */
  method FindOverlappingFaces(fs1: seq<FaceId>, fs2: seq<FaceId>, overlaps: Overlaps) returns (groups: seq<Group>)
    ensures groups == Grouped(fs1, fs2, overlaps)
    ensures forall i, j | 0 <= i < |fs1| && 0 <= j < |fs2| && overlaps(fs1[i], fs2[j]) ::
      Held(groups, fs1[i], fs2[j])
    ensures forall k | 0 <= k < |groups| :: GroupWf(groups[k], fs1, fs2, overlaps)
  {
    groups := [];
    for i := 0 to |fs1|
      invariant groups == Grouped(fs1[..i], fs2, overlaps)
    {
      var face1 := fs1[i];
      ghost var before := groups;
      for j := 0 to |fs2|
        invariant groups == Row(before, face1, fs2[..j], overlaps)
      {
        assert fs2[..j + 1][..j] == fs2[..j];
        if overlaps(face1, fs2[j]) {
          groups := Place(groups, face1, fs2[j]);
        }
      }
      assert fs2[..|fs2|] == fs2;
      assert fs1[..i + 1][..i] == fs1[..i];
    }
    assert fs1[..|fs1|] == fs1;
    GroupedCovers(fs1, fs2, overlaps);
    GroupedWf(fs1, fs2, overlaps);
  }

  /** The group holds the shell-1 face on its first side and the shell-2 face on its second. */
  predicate Holds(g: Group, f1: FaceId, f2: FaceId)
  {
    f1 in g.faces1 && f2 in g.faces2
  }

  /** Some group holds the pair. */
  ghost predicate Held(gs: seq<Group>, f1: FaceId, f2: FaceId)
  {
    exists k | 0 <= k < |gs| :: Holds(gs[k], f1, f2)
  }

  /** Each group of `b` extends the group at the same index of `a`; `b` may have more groups. */
  ghost predicate Grows(a: seq<Group>, b: seq<Group>)
  {
    |a| <= |b| && forall k | 0 <= k < |a| :: a[k].faces1 <= b[k].faces1 && a[k].faces2 <= b[k].faces2
  }

  lemma GrowsTrans(a: seq<Group>, b: seq<Group>, c: seq<Group>)
    requires Grows(a, b) && Grows(b, c)
    ensures Grows(a, c)
  {
    forall k | 0 <= k < |a| ensures a[k].faces1 <= c[k].faces1 && a[k].faces2 <= c[k].faces2 {
      PrefixTrans(a[k].faces1, b[k].faces1, c[k].faces1);
      PrefixTrans(a[k].faces2, b[k].faces2, c[k].faces2);
    }
  }

  /** A pair held by a group stays held as the groups grow. */
  lemma GrowsHolds(a: seq<Group>, b: seq<Group>, f1: FaceId, f2: FaceId)
    requires Grows(a, b)
    requires Held(a, f1, f2)
    ensures Held(b, f1, f2)
  {
    var k :| 0 <= k < |a| && Holds(a[k], f1, f2);
    assert f1 in b[k].faces1 by { assert a[k].faces1 <= b[k].faces1; }
    assert f2 in b[k].faces2 by { assert a[k].faces2 <= b[k].faces2; }
    assert Holds(b[k], f1, f2);
  }

  /** Placing a pair only grows the groups, and some group then holds the pair. */
  lemma PlaceHolds(gs: seq<Group>, f1: FaceId, f2: FaceId)
    ensures Grows(gs, Place(gs, f1, f2))
    ensures Held(Place(gs, f1, f2), f1, f2)
  {
    var k := FindGroup(gs, f1, f2);
    var r := Place(gs, f1, f2);
    assert Holds(r[k], f1, f2);
  }

  lemma {:induction false} RowCovers(gs: seq<Group>, f1: FaceId, fs2: seq<FaceId>, overlaps: Overlaps)
    ensures Grows(gs, Row(gs, f1, fs2, overlaps))
    ensures forall j | 0 <= j < |fs2| && overlaps(f1, fs2[j]) ::
      Held(Row(gs, f1, fs2, overlaps), f1, fs2[j])
  {
    if fs2 != [] {
      var init := fs2[..|fs2| - 1];
      var last := fs2[|fs2| - 1];
      var prev := Row(gs, f1, init, overlaps);
      var r := Row(gs, f1, fs2, overlaps);
      RowCovers(gs, f1, init, overlaps);
      if overlaps(f1, last) {
        PlaceHolds(prev, f1, last);
        GrowsTrans(gs, prev, r);
      }
      forall j | 0 <= j < |fs2| && overlaps(f1, fs2[j]) ensures Held(r, f1, fs2[j]) {
        if j < |init| {
          assert fs2[j] == init[j];
          GrowsHolds(prev, r, f1, fs2[j]);
        }
      }
    }
  }

  /** Every overlapping pair ends up held by one group: both faces are in it, each on its own side. */
  lemma {:induction false} GroupedCovers(fs1: seq<FaceId>, fs2: seq<FaceId>, overlaps: Overlaps)
    ensures forall i, j | 0 <= i < |fs1| && 0 <= j < |fs2| && overlaps(fs1[i], fs2[j]) ::
      Held(Grouped(fs1, fs2, overlaps), fs1[i], fs2[j])
  {
    if fs1 != [] {
      var init := fs1[..|fs1| - 1];
      var prev := Grouped(init, fs2, overlaps);
      var r := Grouped(fs1, fs2, overlaps);
      GroupedCovers(init, fs2, overlaps);
      RowCovers(prev, fs1[|fs1| - 1], fs2, overlaps);
      forall i, j | 0 <= i < |fs1| && 0 <= j < |fs2| && overlaps(fs1[i], fs2[j])
        ensures Held(r, fs1[i], fs2[j])
      {
        if i < |init| {
          assert fs1[i] == init[i];
          GrowsHolds(prev, r, fs1[i], fs2[j]);
        } else {
          assert r == Row(prev, fs1[|fs1| - 1], fs2, overlaps);
        }
      }
    }
  }

  /** Each side of the group is a set of faces of its own shell. */
  ghost predicate Sides(g: Group, fs1: seq<FaceId>, fs2: seq<FaceId>)
  {
    && NoDup(g.faces1) && NoDup(g.faces2)
    && (forall x | x in g.faces1 :: x in fs1)
    && (forall y | y in g.faces2 :: y in fs2)
  }

  /** Every face on one side of the group overlaps some face on its other side. */
  ghost predicate Partnered(g: Group, overlaps: Overlaps)
  {
    && (forall x | x in g.faces1 :: PartnerIn2(g, x, overlaps))
    && (forall y | y in g.faces2 :: PartnerIn1(g, y, overlaps))
  }

  /** Some face on the group's second side overlaps `x`. */
  ghost predicate PartnerIn2(g: Group, x: FaceId, overlaps: Overlaps)
  {
    exists y | y in g.faces2 :: overlaps(x, y)
  }

  /** Some face on the group's first side overlaps `y`. */
  ghost predicate PartnerIn1(g: Group, y: FaceId, overlaps: Overlaps)
  {
    exists x | x in g.faces1 :: overlaps(x, y)
  }

  /** A group as the loops build it. */
  ghost predicate GroupWf(g: Group, fs1: seq<FaceId>, fs2: seq<FaceId>, overlaps: Overlaps)
  {
    Sides(g, fs1, fs2) && Partnered(g, overlaps)
  }

  /** Adding an overlapping pair to a partnered group keeps it partnered. */
  lemma AddPairPartnered(g: Group, f1: FaceId, f2: FaceId, overlaps: Overlaps)
    requires Partnered(g, overlaps) && overlaps(f1, f2)
    ensures Partnered(Group(SetAdd(g.faces1, f1), SetAdd(g.faces2, f2)), overlaps)
  {
    var h := Group(SetAdd(g.faces1, f1), SetAdd(g.faces2, f2));
    forall x | x in h.faces1 ensures PartnerIn2(h, x, overlaps) {
      if x == f1 {
        assert f2 in h.faces2;
      } else {
        var y :| y in g.faces2 && overlaps(x, y);
        assert y in h.faces2;
      }
    }
    forall y | y in h.faces2 ensures PartnerIn1(h, y, overlaps) {
      if y == f2 {
        assert f1 in h.faces1;
      } else {
        var x :| x in g.faces1 && overlaps(x, y);
        assert x in h.faces1;
      }
    }
  }

  /** Adding a face of each shell keeps the sides sets of their shells. */
  lemma AddPairSides(g: Group, f1: FaceId, f2: FaceId, fs1: seq<FaceId>, fs2: seq<FaceId>)
    requires Sides(g, fs1, fs2) && f1 in fs1 && f2 in fs2
    ensures Sides(Group(SetAdd(g.faces1, f1), SetAdd(g.faces2, f2)), fs1, fs2)
  {
  }

  lemma PlaceWf(gs: seq<Group>, f1: FaceId, f2: FaceId, fs1: seq<FaceId>, fs2: seq<FaceId>, overlaps: Overlaps)
    requires forall k | 0 <= k < |gs| :: GroupWf(gs[k], fs1, fs2, overlaps)
    requires f1 in fs1 && f2 in fs2 && overlaps(f1, f2)
    ensures forall k | 0 <= k < |Place(gs, f1, f2)| :: GroupWf(Place(gs, f1, f2)[k], fs1, fs2, overlaps)
  {
    var k := FindGroup(gs, f1, f2);
    var r := Place(gs, f1, f2);
    var h := if k < |gs| then Group(SetAdd(gs[k].faces1, f1), SetAdd(gs[k].faces2, f2)) else Group([f1], [f2]);
    if k < |gs| {
      assert GroupWf(gs[k], fs1, fs2, overlaps);
      AddPairPartnered(gs[k], f1, f2, overlaps);
      AddPairSides(gs[k], f1, f2, fs1, fs2);
    } else {
      assert f2 in h.faces2 && f1 in h.faces1;
      assert PartnerIn2(h, f1, overlaps) && PartnerIn1(h, f2, overlaps);
    }
    assert r == (if k < |gs| then gs[k := h] else gs + [h]);
    forall i | 0 <= i < |r| ensures GroupWf(r[i], fs1, fs2, overlaps) {
      if i != k {
        assert r[i] == gs[i];
      }
    }
  }

  lemma {:induction false} RowWf(gs: seq<Group>, f1: FaceId, fs2: seq<FaceId>, fs1: seq<FaceId>, all2: seq<FaceId>,
                                 overlaps: Overlaps)
    requires forall k | 0 <= k < |gs| :: GroupWf(gs[k], fs1, all2, overlaps)
    requires f1 in fs1 && forall j | 0 <= j < |fs2| :: fs2[j] in all2
    ensures forall k | 0 <= k < |Row(gs, f1, fs2, overlaps)| :: GroupWf(Row(gs, f1, fs2, overlaps)[k], fs1, all2, overlaps)
  {
    if fs2 != [] {
      var init := fs2[..|fs2| - 1];
      RowWf(gs, f1, init, fs1, all2, overlaps);
      if overlaps(f1, fs2[|fs2| - 1]) {
        PlaceWf(Row(gs, f1, init, overlaps), f1, fs2[|fs2| - 1], fs1, all2, overlaps);
      }
    }
  }

  /** Each side of each group is a set of faces of its own shell, and each face in it overlaps one on the other side. */
  lemma {:induction false} GroupedWf(fs1: seq<FaceId>, fs2: seq<FaceId>, overlaps: Overlaps)
    ensures forall k | 0 <= k < |Grouped(fs1, fs2, overlaps)| :: GroupWf(Grouped(fs1, fs2, overlaps)[k], fs1, fs2, overlaps)
  {
    if fs1 != [] {
      var init := fs1[..|fs1| - 1];
      GroupedWf(init, fs2, overlaps);
      var prev := Grouped(init, fs2, overlaps);
      forall k | 0 <= k < |prev| ensures GroupWf(prev[k], fs1, fs2, overlaps) {
        assert GroupWf(prev[k], init, fs2, overlaps);
        forall x | x in prev[k].faces1 ensures x in fs1 {
          assert x in init;
        }
      }
      RowWf(prev, fs1[|fs1| - 1], fs2, fs1, fs2, overlaps);
    }
  }

  /** No face is on the same side of two groups: the groups partition the faces they hold. */
  ghost predicate Disjoint(gs: seq<Group>)
  {
    forall a, b | 0 <= a < b < |gs| :: Separate(gs[a], gs[b])
  }

  predicate Separate(g: Group, h: Group)
  {
    (forall x | x in g.faces1 :: x !in h.faces1) && (forall y | y in g.faces2 :: y !in h.faces2)
  }

  /** The overlaps (0, 2), (1, 3) and (1, 2) over shells with faces [0, 1] and [3, 2]. */
  function TwoGroupOverlaps(): Overlaps
  {
    (a: FaceId, b: FaceId) => (a == 0 && b == 2) || (a == 1 && b == 3) || (a == 1 && b == 2)
  }

  /**
   * As written, a face can land in two groups: (0, 2) opens the first group,
   * (1, 3) a second one, and (1, 2) joins face 1 to the first group while it
   * stays in the second, so `mergeFaces` is run on face 1 twice.
   */
  lemma FaceInTwoGroups()
    ensures Grouped([0, 1], [3, 2], TwoGroupOverlaps()) == [Group([0, 1], [2]), Group([1], [3])]
    ensures !Disjoint(Grouped([0, 1], [3, 2], TwoGroupOverlaps()))
  {
    var ov := TwoGroupOverlaps();
    assert ov(0, 2) && !ov(0, 3) && ov(1, 3) && ov(1, 2);
    assert [3, 2][..1] == [3] && [3][..0] == [];
    assert [0, 1][..1] == [0] && [0][..0] == [];
    var g0 := [Group([0], [2])];
    assert Row([], 0, [3], ov) == [];
    assert Row([], 0, [3, 2], ov) == Place([], 0, 2) == g0;
    assert Grouped([0], [3, 2], ov) == g0;
    var g1 := g0 + [Group([1], [3])];
    assert FindGroup(g0, 1, 3) == 1 by {
      assert !Touches(g0[0], 1, 3);
      assert g0[1..] == [];
    }
    assert Row(g0, 1, [3], ov) == Place(g0, 1, 3) == g1;
    assert FindGroup(g1, 1, 2) == 0 by {
      assert Touches(g1[0], 1, 2);
    }
    var r := Grouped([0, 1], [3, 2], ov);
    assert r == Row(g0, 1, [3, 2], ov) == Place(g1, 1, 2);
    assert SetAdd([0], 1) == [0, 1] && SetAdd([2], 2) == [2];
    assert r == [Group([0, 1], [2]), Group([1], [3])];
    assert 1 in r[0].faces1 && 1 in r[1].faces1;
    assert !Separate(r[0], r[1]);
  }

  /* The grouping as evidently intended: an overlapping pair merges every group it touches. */

  /** `g` is one of the groups the pair does not touch. */
  ghost predicate UntouchedIn(gs: seq<Group>, g: Group, f1: FaceId, f2: FaceId)
  {
    exists k | 0 <= k < |gs| :: g == gs[k] && !Touches(gs[k], f1, f2)
  }

  /** The groups the pair does not touch, in order. */
  function Untouched(gs: seq<Group>, f1: FaceId, f2: FaceId): (r: seq<Group>)
    ensures forall i | 0 <= i < |r| :: UntouchedIn(gs, r[i], f1, f2)
    ensures forall k | 0 <= k < |gs| && !Touches(gs[k], f1, f2) :: gs[k] in r
  {
    if gs == [] then []
    else
      var init := Untouched(gs[..|gs| - 1], f1, f2);
      assert forall k | 0 <= k < |gs| - 1 :: gs[..|gs| - 1][k] == gs[k];
      if Touches(gs[|gs| - 1], f1, f2) then init else init + [gs[|gs| - 1]]
  }

  /** The shell-1 faces of the touched groups. */
  function Union1(gs: seq<Group>, f1: FaceId, f2: FaceId): (r: seq<FaceId>)
    ensures forall x :: x in r <==> exists k | 0 <= k < |gs| :: Touches(gs[k], f1, f2) && x in gs[k].faces1
  {
    if gs == [] then []
    else
      var init := Union1(gs[..|gs| - 1], f1, f2);
      assert forall k | 0 <= k < |gs| - 1 :: gs[..|gs| - 1][k] == gs[k];
      init + (if Touches(gs[|gs| - 1], f1, f2) then gs[|gs| - 1].faces1 else [])
  }

  /** The shell-2 faces of the touched groups. */
  function Union2(gs: seq<Group>, f1: FaceId, f2: FaceId): (r: seq<FaceId>)
    ensures forall y :: y in r <==> exists k | 0 <= k < |gs| :: Touches(gs[k], f1, f2) && y in gs[k].faces2
  {
    if gs == [] then []
    else
      var init := Union2(gs[..|gs| - 1], f1, f2);
      assert forall k | 0 <= k < |gs| - 1 :: gs[..|gs| - 1][k] == gs[k];
      init + (if Touches(gs[|gs| - 1], f1, f2) then gs[|gs| - 1].faces2 else [])
  }

  /** The body for an overlapping pair, as intended: the touched groups and the pair become one group. */
  function Merge(gs: seq<Group>, f1: FaceId, f2: FaceId): seq<Group>
  {
    Untouched(gs, f1, f2) + [Merged(gs, f1, f2)]
  }

  function RowIntended(gs: seq<Group>, f1: FaceId, fs2: seq<FaceId>, overlaps: Overlaps): seq<Group>
  {
    if fs2 == [] then gs
    else
      var prev := RowIntended(gs, f1, fs2[..|fs2| - 1], overlaps);
      if overlaps(f1, fs2[|fs2| - 1]) then Merge(prev, f1, fs2[|fs2| - 1]) else prev
  }

  /** The groups as intended: the connected components of the overlap relation. */
  function GroupedIntended(fs1: seq<FaceId>, fs2: seq<FaceId>, overlaps: Overlaps): seq<Group>
  {
    if fs1 == [] then []
    else RowIntended(GroupedIntended(fs1[..|fs1| - 1], fs2, overlaps), fs1[|fs1| - 1], fs2, overlaps)
  }

  /** Every face of `g` is on the same side of `h`. */
  predicate Within(g: Group, h: Group)
  {
    (forall x | x in g.faces1 :: x in h.faces1) && (forall y | y in g.faces2 :: y in h.faces2)
  }

  lemma WithinTrans(g: Group, h: Group, i: Group)
    requires Within(g, h) && Within(h, i)
    ensures Within(g, i)
  {
  }

  /** The group lies within some group of `b`. */
  ghost predicate WithinSome(g: Group, b: seq<Group>)
  {
    exists k | 0 <= k < |b| :: Within(g, b[k])
  }

  /** Every group of `a` lies within some group of `b`. */
  ghost predicate Coarsens(a: seq<Group>, b: seq<Group>)
  {
    forall k | 0 <= k < |a| :: WithinSome(a[k], b)
  }

  lemma CoarsensTrans(a: seq<Group>, b: seq<Group>, c: seq<Group>)
    requires Coarsens(a, b) && Coarsens(b, c)
    ensures Coarsens(a, c)
  {
    forall k | 0 <= k < |a| ensures WithinSome(a[k], c) {
      var k' :| 0 <= k' < |b| && Within(a[k], b[k']);
      var k'' :| 0 <= k'' < |c| && Within(b[k'], c[k'']);
      WithinTrans(a[k], b[k'], c[k'']);
    }
  }

  lemma CoarsensHolds(a: seq<Group>, b: seq<Group>, f1: FaceId, f2: FaceId)
    requires Coarsens(a, b)
    requires Held(a, f1, f2)
    ensures Held(b, f1, f2)
  {
    var k :| 0 <= k < |a| && Holds(a[k], f1, f2);
    var k' :| 0 <= k' < |b| && Within(a[k], b[k']);
    assert Holds(b[k'], f1, f2);
  }

  /** The group a pair merges into: every touched group's faces and the pair. */
  function Merged(gs: seq<Group>, f1: FaceId, f2: FaceId): Group
  {
    Group(SetAdd(Union1(gs, f1, f2), f1), SetAdd(Union2(gs, f1, f2), f2))
  }

  /** Merging keeps every old group within a new one and holds the pair in the last. */
  lemma MergeCoarsens(gs: seq<Group>, f1: FaceId, f2: FaceId)
    ensures Merge(gs, f1, f2) == Untouched(gs, f1, f2) + [Merged(gs, f1, f2)]
    ensures Coarsens(gs, Merge(gs, f1, f2))
    ensures Holds(Merge(gs, f1, f2)[|Merge(gs, f1, f2)| - 1], f1, f2)
  {
    var u := Untouched(gs, f1, f2);
    var r := Merge(gs, f1, f2);
    forall k | 0 <= k < |gs| ensures WithinSome(gs[k], r) {
      if Touches(gs[k], f1, f2) {
        assert Within(gs[k], r[|r| - 1]);
      } else {
        var i :| 0 <= i < |u| && u[i] == gs[k];
        assert r[i] == gs[k];
        assert Within(gs[k], r[i]);
      }
    }
  }

  /** An untouched group shares no face with the merged group. */
  lemma UntouchedSeparate(gs: seq<Group>, f1: FaceId, f2: FaceId, ka: nat)
    requires Disjoint(gs) && ka < |gs| && !Touches(gs[ka], f1, f2)
    ensures Separate(gs[ka], Merged(gs, f1, f2))
  {
    var m := Merged(gs, f1, f2);
    forall x | x in gs[ka].faces1 ensures x !in m.faces1 {
      if x in m.faces1 {
        var k :| 0 <= k < |gs| && Touches(gs[k], f1, f2) && x in gs[k].faces1;
        SeparateAt(gs, ka, k);
      }
    }
    forall y | y in gs[ka].faces2 ensures y !in m.faces2 {
      if y in m.faces2 {
        var k :| 0 <= k < |gs| && Touches(gs[k], f1, f2) && y in gs[k].faces2;
        SeparateAt(gs, ka, k);
      }
    }
  }

  /** Merging keeps the groups disjoint. */
  lemma MergeDisjoint(gs: seq<Group>, f1: FaceId, f2: FaceId)
    requires Disjoint(gs)
    ensures Disjoint(Merge(gs, f1, f2))
  {
    var u := Untouched(gs, f1, f2);
    var r := Merge(gs, f1, f2);
    assert r == u + [Merged(gs, f1, f2)];
    forall a, b | 0 <= a < b < |r| ensures Separate(r[a], r[b]) {
      var ka :| 0 <= ka < |gs| && u[a] == gs[ka] && !Touches(gs[ka], f1, f2);
      assert r[a] == gs[ka];
      if b < |u| {
        UntouchedDistinct(gs, f1, f2, a, b);
        var ka', kb :| 0 <= ka' < kb < |gs| && u[a] == gs[ka'] && u[b] == gs[kb];
        assert r[a] == gs[ka'] && r[b] == gs[kb];
      } else {
        UntouchedSeparate(gs, f1, f2, ka);
      }
    }
  }

  /** Two different positions of disjoint groups are separate, in either order. */
  lemma SeparateAt(gs: seq<Group>, a: nat, b: nat)
    requires Disjoint(gs) && a < |gs| && b < |gs| && a != b
    ensures Separate(gs[a], gs[b])
  {
    if b < a {
      assert Separate(gs[b], gs[a]);
    }
  }

  /** `g` and `h` are at two positions of `gs`, `g` first. */
  ghost predicate InOrder(gs: seq<Group>, g: Group, h: Group)
  {
    exists ka, kb | 0 <= ka < kb < |gs| :: g == gs[ka] && h == gs[kb]
  }

  /** Two positions of the untouched groups come from two positions of the groups. */
  lemma {:induction false} UntouchedDistinct(gs: seq<Group>, f1: FaceId, f2: FaceId, a: nat, b: nat)
    requires a < b < |Untouched(gs, f1, f2)|
    ensures InOrder(gs, Untouched(gs, f1, f2)[a], Untouched(gs, f1, f2)[b])
  {
    var init := gs[..|gs| - 1];
    var ui := Untouched(init, f1, f2);
    var u := Untouched(gs, f1, f2);
    assert forall k | 0 <= k < |init| :: init[k] == gs[k];
    if b < |ui| {
      UntouchedDistinct(init, f1, f2, a, b);
      var ka, kb :| 0 <= ka < kb < |init| && ui[a] == init[ka] && ui[b] == init[kb];
      assert u[a] == gs[ka] && u[b] == gs[kb];
    } else {
      var ka :| 0 <= ka < |init| && ui[a] == init[ka] && !Touches(init[ka], f1, f2);
      assert u[a] == gs[ka] && u[b] == gs[|gs| - 1];
    }
  }

  lemma CoarsensRefl(gs: seq<Group>)
    ensures Coarsens(gs, gs)
  {
    forall k | 0 <= k < |gs| ensures WithinSome(gs[k], gs) {
      assert Within(gs[k], gs[k]);
    }
  }

  lemma {:induction false} RowIntendedProps(gs: seq<Group>, f1: FaceId, fs2: seq<FaceId>, overlaps: Overlaps)
    requires Disjoint(gs)
    ensures Disjoint(RowIntended(gs, f1, fs2, overlaps)) && Coarsens(gs, RowIntended(gs, f1, fs2, overlaps))
    ensures forall j | 0 <= j < |fs2| && overlaps(f1, fs2[j]) ::
      Held(RowIntended(gs, f1, fs2, overlaps), f1, fs2[j])
  {
    if fs2 == [] {
      CoarsensRefl(gs);
    } else {
      var init := fs2[..|fs2| - 1];
      var last := fs2[|fs2| - 1];
      var prev := RowIntended(gs, f1, init, overlaps);
      var r := RowIntended(gs, f1, fs2, overlaps);
      RowIntendedProps(gs, f1, init, overlaps);
      if overlaps(f1, last) {
        MergeCoarsens(prev, f1, last);
        MergeDisjoint(prev, f1, last);
        CoarsensTrans(gs, prev, r);
      } else {
        CoarsensRefl(prev);
      }
      forall j | 0 <= j < |fs2| && overlaps(f1, fs2[j]) ensures Held(r, f1, fs2[j]) {
        if j < |init| {
          assert fs2[j] == init[j];
          CoarsensHolds(prev, r, f1, fs2[j]);
        } else {
          assert Holds(r[|r| - 1], f1, fs2[j]);
        }
      }
    }
  }

  /**
   * The intended grouping: no face is on the same side of two groups, and
   * every overlapping pair is held by one group.
   */
  lemma {:induction false} GroupedIntendedProps(fs1: seq<FaceId>, fs2: seq<FaceId>, overlaps: Overlaps)
    ensures Disjoint(GroupedIntended(fs1, fs2, overlaps))
    ensures forall i, j | 0 <= i < |fs1| && 0 <= j < |fs2| && overlaps(fs1[i], fs2[j]) ::
      Held(GroupedIntended(fs1, fs2, overlaps), fs1[i], fs2[j])
  {
    if fs1 != [] {
      var init := fs1[..|fs1| - 1];
      var prev := GroupedIntended(init, fs2, overlaps);
      var r := GroupedIntended(fs1, fs2, overlaps);
      GroupedIntendedProps(init, fs2, overlaps);
      RowIntendedProps(prev, fs1[|fs1| - 1], fs2, overlaps);
      forall i, j | 0 <= i < |fs1| && 0 <= j < |fs2| && overlaps(fs1[i], fs2[j])
        ensures Held(r, fs1[i], fs2[j])
      {
        if i < |init| {
          assert fs1[i] == init[i];
          CoarsensHolds(prev, r, fs1[i], fs2[j]);
        } else {
          assert r == RowIntended(prev, fs1[|fs1| - 1], fs2, overlaps);
        }
      }
    }
  }
}
