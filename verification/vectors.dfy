// Value types shared by every version of the pathfinder: Unity's int3,
// float3 and Vector3, with exact integer and real components.

module Vectors {

  /** Unity.Mathematics.int3 */
  datatype Int3 = Int3(x: int, y: int, z: int)

  /** Unity.Mathematics.float3, with exact real components */
  datatype Float3 = Float3(x: real, y: real, z: real)

  /** UnityEngine.Vector3, with exact real components */
  datatype Vector3 = Vector3(x: real, y: real, z: real)

  function AddInt3(a: Int3, b: Int3): Int3
  {
    Int3(a.x + b.x, a.y + b.y, a.z + b.z)
  }

  function NegInt3(a: Int3): Int3
  {
    Int3(-a.x, -a.y, -a.z)
  }

  function ScaleInt3(a: Int3, s: int): Int3
  {
    Int3(a.x * s, a.y * s, a.z * s)
  }

  /** C# integer division, which truncates toward zero (Dafny's / on int is Euclidean). */
  function TruncDiv(a: int, b: int): (q: int)
    requires b > 0
    ensures a >= 0 ==> q == a / b
    ensures a < 0 ==> q == -((-a) / b)
  {
    if a >= 0 then a / b else -((-a) / b)
  }

  /** Moving by a vector and then by its negation returns to the start. */
  lemma AddNegCancel(p: Int3, d: Int3)
    ensures AddInt3(AddInt3(p, d), NegInt3(d)) == p
  {
  }

  function AddFloat3(a: Float3, b: Float3): Float3
  {
    Float3(a.x + b.x, a.y + b.y, a.z + b.z)
  }

  function ScaleFloat3(a: Float3, s: real): Float3
  {
    Float3(a.x * s, a.y * s, a.z * s)
  }

  function IntToReal3(a: Int3): Float3
  {
    Float3(a.x as real, a.y as real, a.z as real)
  }

  /** The identity on reals. */
  function Copy(a: real): real
  {
    a
  }

  /**
   * The square of a real.  It multiplies by a copy of its argument so that
   * the solver treats the square as an ordinary product of two terms.
   */
  function Square(a: real): (r: real)
    ensures r >= 0.0
    ensures a != 0.0 ==> r > 0.0
  {
    a * Copy(a)
  }

  lemma SquareNeg(a: real)
    ensures Square(-a) == Square(a)
  {
  }
}
