// Assets/SpatialPathfinding/Scripts/Structs/NavigationPath.cs: the older
// path struct over Vector3.  The constructor allocates an array of the
// list's length and fills it with NativeArray.CopyFrom, which demands equal
// lengths; the allocation meets that demand.

module SpNavigationPath {
  import opened Vectors

  /** NativeArray.CopyFrom: element-wise copy into an array of the same length. */
  method CopyFrom(dst: array<Vector3>, src: seq<Vector3>)
    requires dst.Length == |src|
    modifies dst
    ensures dst[..] == src
  {
    var i := 0;
    while i < |src|
      invariant 0 <= i <= |src|
      invariant dst[..i] == src[..i]
    {
      dst[i] := src[i];
      i := i + 1;
    }
  }

  class NavigationPath {
    const Waypoints: array<Vector3>

    constructor(waypoints: seq<Vector3>)
      ensures fresh(Waypoints) && Waypoints[..] == waypoints
    {
      var copy := new Vector3[|waypoints|];
      CopyFrom(copy, waypoints);
      Waypoints := copy;
    }

    /** The first waypoint; the source throws on an empty path. */
    function StartingPoint(): (p: Vector3)
      requires 0 < Waypoints.Length
      reads Waypoints
      ensures p in Waypoints[..] && Waypoints[..] == [p] + Waypoints[1..]
    {
      Waypoints[0]
    }

    /** The last waypoint; the source throws on an empty path. */
    function EndingPoint(): (p: Vector3)
      requires 0 < Waypoints.Length
      reads Waypoints
      ensures p in Waypoints[..] && Waypoints[..] == Waypoints[..Waypoints.Length - 1] + [p]
    {
      Waypoints[Waypoints.Length - 1]
    }
  }
}
