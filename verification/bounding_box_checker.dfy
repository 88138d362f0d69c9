// Packages/com.tecmaid.spatialpathfinding/Runtime/Helpers/BoundingBoxChecker.cs:
// inclusive containment of a point in a volume's axis-aligned bounds, and the
// closest point of such a box, which stands in for Collider.ClosestPoint.

module BoundingBoxChecker {
  import opened Vectors
  import PkgCalculationHelper

  /** The world-space bounds of a volume's BoxCollider. */
  datatype Bounds = Bounds(min: Float3, max: Float3)

  predicate InRange(lo: real, v: real, hi: real)
  {
    lo <= v <= hi
  }

  /** Coordinate i of a point: x, y, z for i = 0, 1, 2. */
  function Axis(p: Float3, i: int): real
    requires 0 <= i < 3
  {
    if i == 0 then p.x else if i == 1 then p.y else p.z
  }

  /**
   * The six inclusive comparisons of the bounds: position lies between the
   * corners on every axis, faces included, and only a box whose min does not
   * exceed its max on any axis holds a point.
   */
  predicate IsPositionInsideVolume(position: Float3, bounds: Bounds): (r: bool)
    ensures r <==> forall i :: 0 <= i < 3 ==> InRange(Axis(bounds.min, i), Axis(position, i), Axis(bounds.max, i))
    ensures r ==> WellFormed(bounds)
  {
    assert Axis(position, 0) == position.x && Axis(position, 1) == position.y && Axis(position, 2) == position.z;
    position.x >= bounds.min.x && position.x <= bounds.max.x &&
    position.y >= bounds.min.y && position.y <= bounds.max.y &&
    position.z >= bounds.min.z && position.z <= bounds.max.z
  }

  function Clamp(lo: real, v: real, hi: real): (r: real)
    requires lo <= hi
    ensures InRange(lo, r, hi)
    ensures r == v <==> InRange(lo, v, hi)
  {
    if v < lo then lo else if v > hi then hi else v
  }

  predicate WellFormed(bounds: Bounds)
  {
    bounds.min.x <= bounds.max.x && bounds.min.y <= bounds.max.y && bounds.min.z <= bounds.max.z
  }

  /**
   * The point of the box closest to position (Collider.ClosestPoint for an
   * unrotated box): it lies inside the box, and it is position itself exactly
   * when position is inside.
   */
  function ClosestPoint(bounds: Bounds, position: Float3): (r: Float3)
    requires WellFormed(bounds)
    ensures IsPositionInsideVolume(r, bounds)
    ensures r == position <==> IsPositionInsideVolume(position, bounds)
  {
    Float3(Clamp(bounds.min.x, position.x, bounds.max.x),
           Clamp(bounds.min.y, position.y, bounds.max.y),
           Clamp(bounds.min.z, position.z, bounds.max.z))
  }

  /** Both corners of a well-formed box are inside it. */
  lemma CornersInside(bounds: Bounds)
    requires WellFormed(bounds)
    ensures IsPositionInsideVolume(bounds.min, bounds)
    ensures IsPositionInsideVolume(bounds.max, bounds)
  {
  }

  /** A point on a face (any coordinate equal to the bound) with the others in range counts as inside. */
  lemma FacesInside(bounds: Bounds, position: Float3)
    requires WellFormed(bounds)
    requires position.x == bounds.min.x || position.x == bounds.max.x
    requires InRange(bounds.min.y, position.y, bounds.max.y) && InRange(bounds.min.z, position.z, bounds.max.z)
    ensures IsPositionInsideVolume(position, bounds)
  {
  }

  /** A point is inside exactly when its squared distance to the box is zero. */
  lemma InsideIffZeroDistance(bounds: Bounds, position: Float3)
    requires WellFormed(bounds)
    ensures IsPositionInsideVolume(position, bounds)
        <==> PkgCalculationHelper.CalculateSquaredDistance(ClosestPoint(bounds, position), position) == 0.0
  {
    PkgCalculationHelper.SquaredDistanceZeroIff(ClosestPoint(bounds, position), position);
  }
}
