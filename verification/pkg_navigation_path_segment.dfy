// Packages/com.tecmaid.spatialpathfinding/Runtime/Structs/NavigationPathSegment.cs:
// a path segment owning its own growable list, filled by appending the
// source list's elements in order.  The capacity argument of the new list
// only reserves space and is not modelled.

module PkgNavigationPathSegment {
  import opened Vectors

  class NavigationPathSegment {
    var Waypoints: seq<Float3>

    constructor(waypoints: seq<Float3>)
      ensures Waypoints == waypoints
    {
      var list: seq<Float3> := [];
      var i := 0;
      while i < |waypoints|
        invariant 0 <= i <= |waypoints|
        invariant list == waypoints[..i]
      {
        list := list + [waypoints[i]];
        i := i + 1;
      }
      Waypoints := list;
    }
  }
}
