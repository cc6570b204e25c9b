/**
 * The geometric vocabulary the combinatorial core needs. Geometry itself
 * (curves, surfaces, tolerances) is not modelled: curves and surfaces are
 * handles, and every geometric test is an oracle passed in as a function.
 */
module Geometry {

  /** A point of space. Only the tolerance oracles look at its coordinates. */
  datatype Point = Point(x: real, y: real, z: real)

  /**
   * A vertex never changes after creation and is shared by reference, so it
   * is a value whose `id` carries its identity: two vertices are the same
   * object exactly when they are equal.
   */
  datatype Vertex = Vertex(id: nat, point: Point)

  /** Handle of a curve owned by the geometry kernel. */
  type CurveId = nat

  /** Handle of a surface owned by the geometry kernel. */
  type SurfaceId = nat

  /** The point tolerance test `veq` is symmetric. */
  ghost predicate SymmetricPointTest(veq: (Point, Point) -> bool)
  {
    forall p, q :: veq(p, q) == veq(q, p)
  }

  /** The parameter tolerance test `ueq` is symmetric. */
  ghost predicate SymmetricParamTest(ueq: (real, real) -> bool)
  {
    forall u, w :: ueq(u, w) == ueq(w, u)
  }

  /** The parameter tolerance test `ueq` holds of equal parameters. */
  ghost predicate ReflexiveParamTest(ueq: (real, real) -> bool)
  {
    forall u :: ueq(u, u)
  }
}
