// Packages/com.tecmaid.spatialpathfinding/Runtime/Structs/NavigationPath.cs:
// the waypoints handed to an agent.  The constructor allocates a new array
// of the list's length and copies the list into it one element at a time,
// so clearing the manager's list afterwards leaves the path intact.

module PkgNavigationPath {
  import opened Vectors

  class NavigationPath {
    const Waypoints: array<Float3>

    /** A fresh array holding waypoints element for element. */
    constructor(waypoints: seq<Float3>)
      ensures fresh(Waypoints) && Waypoints[..] == waypoints
    {
      var copy := new Float3[|waypoints|];
      var i := 0;
      while i < |waypoints|
        invariant 0 <= i <= |waypoints|
        invariant copy[..i] == waypoints[..i]
      {
        copy[i] := waypoints[i];
        i := i + 1;
      }
      Waypoints := copy;
    }

    /** The first waypoint; the source throws on an empty path. */
    function StartingPoint(): (p: Float3)
      requires 0 < Waypoints.Length
      reads Waypoints
      ensures p in Waypoints[..] && Waypoints[..] == [p] + Waypoints[1..]
    {
      Waypoints[0]
    }

    /** The last waypoint (index ^1); the source throws on an empty path. */
    function EndingPoint(): (p: Float3)
      requires 0 < Waypoints.Length
      reads Waypoints
      ensures p in Waypoints[..] && Waypoints[..] == Waypoints[..Waypoints.Length - 1] + [p]
    {
      Waypoints[Waypoints.Length - 1]
    }
  }
}
