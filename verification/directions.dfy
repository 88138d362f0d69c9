// The six axis directions every version initialises, in the order
// +z, -z, +x, -x, +y, -y.

module Directions {
  import opened Vectors

  /** One unit step along exactly one axis. */
  predicate IsUnitAxis(d: Int3)
  {
    || ((d.x == 1 || d.x == -1) && d.y == 0 && d.z == 0)
    || (d.x == 0 && (d.y == 1 || d.y == -1) && d.z == 0)
    || (d.x == 0 && d.y == 0 && (d.z == 1 || d.z == -1))
  }

  /** The slot of the opposite direction: 0 and 1, 2 and 3, 4 and 5 pair up. */
  function Opposite(j: int): (r: int)
    requires 0 <= j < 6
    ensures 0 <= r < 6 && r != j
  {
    if j == 0 then 1 else if j == 1 then 0
    else if j == 2 then 3 else if j == 3 then 2
    else if j == 4 then 5 else 4
  }

  /** The contents of the directions array after InitializeDirections. */
  function AxisDirections(): (r: seq<Int3>)
    ensures |r| == 6
  {
    [Int3(0, 0, 1), Int3(0, 0, -1), Int3(1, 0, 0), Int3(-1, 0, 0), Int3(0, 1, 0), Int3(0, -1, 0)]
  }

  /** Every direction is a unit step along one axis. */
  lemma AxisDirectionsUnit(j: int)
    requires 0 <= j < 6
    ensures IsUnitAxis(AxisDirections()[j])
  {
    var r := AxisDirections();
    if j == 0 { assert r[0] == Int3(0, 0, 1); }
    else if j == 1 { assert r[1] == Int3(0, 0, -1); }
    else if j == 2 { assert r[2] == Int3(1, 0, 0); }
    else if j == 3 { assert r[3] == Int3(-1, 0, 0); }
    else if j == 4 { assert r[4] == Int3(0, 1, 0); }
    else { assert r[5] == Int3(0, -1, 0); }
  }

  /** The opposite slot holds the negated direction, so the set of directions is closed under negation. */
  lemma AxisDirectionsOpposite(j: int)
    requires 0 <= j < 6
    ensures AxisDirections()[Opposite(j)] == NegInt3(AxisDirections()[j])
  {
    var r := AxisDirections();
    var a, b := r[j], r[Opposite(j)];
    if j == 0 { assert a == Int3(0, 0, 1) && b == Int3(0, 0, -1); }
    else if j == 1 { assert a == Int3(0, 0, -1) && b == Int3(0, 0, 1); }
    else if j == 2 { assert a == Int3(1, 0, 0) && b == Int3(-1, 0, 0); }
    else if j == 3 { assert a == Int3(-1, 0, 0) && b == Int3(1, 0, 0); }
    else if j == 4 { assert a == Int3(0, 1, 0) && b == Int3(0, -1, 0); }
    else { assert a == Int3(0, -1, 0) && b == Int3(0, 1, 0); }
    NegComponents(a, b);
  }

  lemma NegComponents(a: Int3, b: Int3)
    requires b.x == -a.x && b.y == -a.y && b.z == -a.z
    ensures NegInt3(a) == b
  {
  }

  /** The six directions are pairwise distinct. */
  lemma AxisDirectionsDistinct(i: int, j: int)
    requires 0 <= i < 6 && 0 <= j < 6 && i != j
    ensures AxisDirections()[i] != AxisDirections()[j]
  {
    var r := AxisDirections();
    assert r == [Int3(0, 0, 1), Int3(0, 0, -1), Int3(1, 0, 0), Int3(-1, 0, 0), Int3(0, 1, 0), Int3(0, -1, 0)];
  }

  /** Writes the six directions into a six-slot array. */
  method FillAxisDirections(directions: array<Int3>)
    requires directions.Length == 6
    modifies directions
    ensures directions[..] == AxisDirections()
  {
    directions[0] := Int3(0, 0, 1);
    directions[1] := Int3(0, 0, -1);
    directions[2] := Int3(1, 0, 0);
    directions[3] := Int3(-1, 0, 0);
    directions[4] := Int3(0, 1, 0);
    directions[5] := Int3(0, -1, 0);
  }
}
