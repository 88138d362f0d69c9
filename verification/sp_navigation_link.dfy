// Assets/SpatialPathfinding/Scripts/NavigationLink.cs: the older link.
// Start runs GenerateLinks and then LinkVolumes, with no exception
// handling and no same-volume check.  An empty lookup throws at
// collisions[0] and a missing volume throws at its Add; an exception ends
// Start there, so it is modelled as an early exit that reports thrown and
// leaves whatever was set before it.  The two physics lookups (an overlap
// sphere of radius 1 on the volume layer, then the NavigationVolume
// component of each collider) enter as their results: hits1 at link1's
// position and hits2 at link2's, in the engine's order, null where a
// collider has none.

module SpNavigationLink {
  import opened Vectors
  import opened SpNavigationVolume

  /** The volume a lookup result hands out, as a frame. */
  function Found(hits: seq<NavigationVolume?>): set<NavigationVolume>
  {
    if 0 < |hits| && hits[0] != null then {hits[0]} else {}
  }

  class NavigationLink {
    const link1: NavigationSubLink
    const link2: NavigationSubLink

    constructor(link1: NavigationSubLink, link2: NavigationSubLink)
      ensures this.link1 == link1 && this.link2 == link2
    {
      this.link1, this.link2 := link1, link2;
    }

    /**
     * What LinkVolumes appends to v.Links, given the volumes v1 and v2 the
     * two sub-links are linked to: link2 when v1 is v, then link1 when v2
     * is v, the second only if the first Add did not throw.
     */
    ghost function Appended(v: NavigationVolume, v1: NavigationVolume?, v2: NavigationVolume?): seq<NavigationSubLink>
    {
      (if v1 == v then [link2] else []) + (if v1 != null && v2 == v then [link1] else [])
    }

    /**
     * Each sub-link takes the volume at the other's position and the other
     * as its neighbour.  An empty lookup throws at collisions[0], leaving
     * what the first half already set.
     */
    method GenerateLinks(hits1: seq<NavigationVolume?>, hits2: seq<NavigationVolume?>) returns (thrown: bool)
      requires link1 != link2
      modifies link1`LinkedVolume, link1`NeighborLink, link2`LinkedVolume, link2`NeighborLink
      ensures thrown <==> |hits1| == 0 || |hits2| == 0
      ensures if 0 < |hits1| then link2.LinkedVolume == hits1[0] && link2.NeighborLink == link1
        else link2.LinkedVolume == old(link2.LinkedVolume) && link2.NeighborLink == old(link2.NeighborLink)
      ensures if 0 < |hits1| && 0 < |hits2| then link1.LinkedVolume == hits2[0] && link1.NeighborLink == link2
        else link1.LinkedVolume == old(link1.LinkedVolume) && link1.NeighborLink == old(link1.NeighborLink)
    {
      var collisions := hits1;
      if |collisions| == 0 {
        return true;
      }
      link2.LinkedVolume := collisions[0];
      link2.NeighborLink := link1;
      collisions := hits2;
      if |collisions| == 0 {
        return true;
      }
      link1.LinkedVolume := collisions[0];
      link1.NeighborLink := link2;
      thrown := false;
    }

    /**
     * Adds link2 to link1's volume and link1 to link2's volume.  A null
     * volume throws at its Add, after any earlier Add.
     */
    method LinkVolumes() returns (thrown: bool)
      modifies Found([link1.LinkedVolume])`Links, Found([link2.LinkedVolume])`Links
      ensures thrown <==> link1.LinkedVolume == null || link2.LinkedVolume == null
      ensures forall v :: v in Found([link1.LinkedVolume]) + Found([link2.LinkedVolume]) ==>
        v.Links == old(v.Links) + Appended(v, link1.LinkedVolume, link2.LinkedVolume)
    {
      if link1.LinkedVolume == null {
        return true;
      }
      link1.LinkedVolume.Links := link1.LinkedVolume.Links + [link2];
      if link2.LinkedVolume == null {
        return true;
      }
      link2.LinkedVolume.Links := link2.LinkedVolume.Links + [link1];
      thrown := false;
    }

    /**
     * Start: GenerateLinks, then LinkVolumes unless it threw.  With both
     * lookups finding a volume, the two sub-links are each other's
     * neighbours and each volume lists the sub-link standing in it; an
     * empty lookup or a null volume throws, the link fields keep what
     * GenerateLinks set before the throw, and no volume's Links changes
     * beyond the Add that came before it.
     */
    method Start(hits1: seq<NavigationVolume?>, hits2: seq<NavigationVolume?>) returns (thrown: bool)
      requires link1 != link2
      modifies link1`LinkedVolume, link1`NeighborLink, link2`LinkedVolume, link2`NeighborLink
      modifies Found(hits1)`Links, Found(hits2)`Links
      ensures thrown <==> !(0 < |hits1| && 0 < |hits2| && hits1[0] != null && hits2[0] != null)
      ensures if 0 < |hits1| then link2.LinkedVolume == hits1[0] && link2.NeighborLink == link1
        else link2.LinkedVolume == old(link2.LinkedVolume) && link2.NeighborLink == old(link2.NeighborLink)
      ensures if 0 < |hits1| && 0 < |hits2| then link1.LinkedVolume == hits2[0] && link1.NeighborLink == link2
        else link1.LinkedVolume == old(link1.LinkedVolume) && link1.NeighborLink == old(link1.NeighborLink)
      ensures forall v :: v in Found(hits1) + Found(hits2) ==>
          v.Links == old(v.Links) + (if 0 < |hits1| && 0 < |hits2| then Appended(v, hits2[0], hits1[0]) else [])
    {
      thrown := GenerateLinks(hits1, hits2);
      if !thrown {
        assert Found([link1.LinkedVolume]) == Found(hits2) && Found([link2.LinkedVolume]) == Found(hits1);
        thrown := LinkVolumes();
      }
    }
  }
}
