// Packages/com.tecmaid.spatialpathfinding/Runtime/Helpers/CalculationHelper.cs:
// squared Euclidean distance and the int3 -> float3 -> Vector3 conversions.

module PkgCalculationHelper {
  import opened Vectors

  /** Squared distance between two points; it is never negative. */
  function CalculateSquaredDistance(point1: Float3, point2: Float3): (r: real)
    ensures r >= 0.0
  {
    var dx := point2.x - point1.x;
    var dy := point2.y - point1.y;
    var dz := point2.z - point1.z;
    dx * dx + dy * dy + dz * dz
  }

  /** The squared distance is the sum of the squared coordinate differences. */
  lemma SquaredDistanceAsSquares(point1: Float3, point2: Float3)
    ensures CalculateSquaredDistance(point1, point2)
         == Square(point2.x - point1.x) + Square(point2.y - point1.y) + Square(point2.z - point1.z)
  {
  }

  /** The distance does not depend on the order of the two points. */
  lemma SquaredDistanceSymmetric(point1: Float3, point2: Float3)
    ensures CalculateSquaredDistance(point1, point2) == CalculateSquaredDistance(point2, point1)
  {
    SquaredDistanceAsSquares(point1, point2);
    SquaredDistanceAsSquares(point2, point1);
    SquareNeg(point2.x - point1.x);
    SquareNeg(point2.y - point1.y);
    SquareNeg(point2.z - point1.z);
  }

  /** Over exact arithmetic the squared distance is zero exactly when the points coincide. */
  lemma SquaredDistanceZeroIff(point1: Float3, point2: Float3)
    ensures CalculateSquaredDistance(point1, point2) == 0.0 <==> point1 == point2
  {
    SquaredDistanceAsSquares(point1, point2);
    if point1.x != point2.x {
      assert Square(point2.x - point1.x) > 0.0;
    } else if point1.y != point2.y {
      assert Square(point2.y - point1.y) > 0.0;
    } else if point1.z != point2.z {
      assert Square(point2.z - point1.z) > 0.0;
    }
  }

  /** Converts an integer vector to a float vector, component by component. */
  function Int3ToFloat3(int3Direction: Int3): (r: Float3)
    ensures r.x == int3Direction.x as real && r.y == int3Direction.y as real && r.z == int3Direction.z as real
  {
    Float3(int3Direction.x as real, int3Direction.y as real, int3Direction.z as real)
  }

  /** Converts a float3 to a Vector3, component by component. */
  function Float3ToVector3(floatValue: Float3): (r: Vector3)
    ensures r.x == floatValue.x && r.y == floatValue.y && r.z == floatValue.z
  {
    Vector3(floatValue.x, floatValue.y, floatValue.z)
  }

  /** The conversions lose nothing: distinct vectors stay distinct. */
  lemma ConversionsInjective(a: Int3, b: Int3)
    requires Float3ToVector3(Int3ToFloat3(a)) == Float3ToVector3(Int3ToFloat3(b))
    ensures a == b
  {
    assert Int3ToFloat3(a).x == Int3ToFloat3(b).x;
  }
}
