// Packages/com.tecmaid.spatialpathfinding/Runtime/Volume/NavigationLink.cs:
// a link joins two sub-links standing in two volumes.  Each sub-link learns
// the volume found at the other sub-link's position and the other sub-link
// as its neighbour, and each found volume's Links gains the sub-link that
// stands in it.  The physics lookup (an overlap sphere of radius 1 on the
// volume layer, then the NavigationVolume component of each collider) is
// the parameter lookup: the components found, in the engine's order, null
// where a collider has none.  Exceptions are modelled as early exits: an
// empty lookup (collisions[0] out of range) or a null volume at either Add.

module PkgNavigationLink {
  import opened Vectors
  import opened PkgNavigationVolume

  type Lookup = Float3 -> seq<NavigationVolume?>

  /** The two warnings GenerateLinks can log. */
  datatype Warning = NotInsideVolume | SameVolume

  /** The volume a lookup result hands out, as a frame. */
  function Found(hits: seq<NavigationVolume?>): set<NavigationVolume>
  {
    if 0 < |hits| && hits[0] != null then {hits[0]} else {}
  }

  class NavigationLink {
    const link1: NavigationSubLink
    const link2: NavigationSubLink

    constructor(link1: NavigationSubLink, link2: NavigationSubLink)
      ensures this.link1 == link1 && this.link2 == link2
    {
      this.link1, this.link2 := link1, link2;
    }

    /**
     * What LinkVolumes appends to v.Links, given the volumes v1 and v2 the
     * two sub-links are linked to: link2 when v1 is v, then link1 when v2
     * is v, the second only if the first Add did not throw.
     */
    ghost function Appended(v: NavigationVolume, v1: NavigationVolume?, v2: NavigationVolume?): seq<NavigationSubLink>
    {
      (if v1 == v then [link2] else []) + (if v1 != null && v2 == v then [link1] else [])
    }

    /**
     * Adds link2 to link1's volume and link1 to link2's volume.  A null
     * volume throws at its Add, after any earlier Add.
     */
    method LinkVolumes() returns (thrown: bool)
      modifies Found([link1.LinkedVolume])`Links, Found([link2.LinkedVolume])`Links
      ensures thrown <==> link1.LinkedVolume == null || link2.LinkedVolume == null
      ensures forall v :: v in Found([link1.LinkedVolume]) + Found([link2.LinkedVolume]) ==>
        v.Links == old(v.Links) + Appended(v, link1.LinkedVolume, link2.LinkedVolume)
    {
      if link1.LinkedVolume == null {
        return true;
      }
      link1.LinkedVolume.Links := link1.LinkedVolume.Links + [link2];
      if link2.LinkedVolume == null {
        return true;
      }
      link2.LinkedVolume.Links := link2.LinkedVolume.Links + [link1];
      thrown := false;
    }

    /**
     * Both lookups, the neighbour wiring and LinkVolumes inside the try;
     * the catch logs NotInsideVolume, and equal LinkedVolumes afterwards
     * (including two nulls) log SameVolume.  Whatever was set before an
     * exception stays set.
     */
    method GenerateLinks(lookup: Lookup) returns (warnings: seq<Warning>)
      requires link1 != link2
      modifies link1`LinkedVolume, link1`NeighborLink, link2`LinkedVolume, link2`NeighborLink
      modifies Found(lookup(link1.Position))`Links, Found(lookup(link2.Position))`Links
      ensures var a := lookup(link1.Position);
        if 0 < |a| then link2.LinkedVolume == a[0] && link2.NeighborLink == link1
        else link2.LinkedVolume == old(link2.LinkedVolume) && link2.NeighborLink == old(link2.NeighborLink)
      ensures var a, b := lookup(link1.Position), lookup(link2.Position);
        if 0 < |a| && 0 < |b| then link1.LinkedVolume == b[0] && link1.NeighborLink == link2
        else link1.LinkedVolume == old(link1.LinkedVolume) && link1.NeighborLink == old(link1.NeighborLink)
      ensures var a, b := lookup(link1.Position), lookup(link2.Position);
        forall v :: v in Found(a) + Found(b) ==>
          v.Links == old(v.Links) + (if 0 < |a| && 0 < |b| then Appended(v, b[0], a[0]) else [])
      ensures var a, b := lookup(link1.Position), lookup(link2.Position);
        var thrown := !(0 < |a| && 0 < |b| && a[0] != null && b[0] != null);
        warnings == (if thrown then [NotInsideVolume] else [])
                    + (if link1.LinkedVolume == link2.LinkedVolume then [SameVolume] else [])
    {
      var thrown := true;
      var collisions := lookup(link1.Position);
      if 0 < |collisions| {
        link2.LinkedVolume := collisions[0];
        link2.NeighborLink := link1;
        collisions := lookup(link2.Position);
        if 0 < |collisions| {
          link1.LinkedVolume := collisions[0];
          link1.NeighborLink := link2;
          thrown := LinkVolumes();
        }
      }
      warnings := if thrown then [NotInsideVolume] else [];
      if link1.LinkedVolume == link2.LinkedVolume {
        warnings := warnings + [SameVolume];
      }
    }
  }
}
