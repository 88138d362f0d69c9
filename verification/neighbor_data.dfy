// The fixed six-slot neighbour record of a cell.  Slot j holds the flat
// index of the cell reached through direction j, or -1 when there is none.

module NeighborRecord {

  /** Number of slots: one per axis direction. */
  const SlotCount: int := 6

  /** NeighborsCount and the contents of the fixed buffer. */
  datatype NeighborData = NeighborData(NeighborsCount: int, Neighbors: seq<int>)

  predicate WellFormed(data: NeighborData)
  {
    data.NeighborsCount == SlotCount && |data.Neighbors| == SlotCount
  }

  /**
   * The constructor: sets the count to 6 and copies the first six entries of
   * the given array into the record's own buffer.  The record holds a copy,
   * so later writes to the array (the callers reuse it for the next cell) do
   * not reach it.
   */
  method NewNeighborData(size: array<int>) returns (data: NeighborData)
    requires size.Length >= SlotCount
    ensures WellFormed(data)
    ensures data.Neighbors == size[..SlotCount]
  {
    var count := SlotCount;
    var buffer := new int[SlotCount];
    var i := 0;
    while i < count
      invariant 0 <= i <= count == SlotCount
      invariant forall j :: 0 <= j < i ==> buffer[j] == size[j]
    {
      buffer[i] := size[i];
      i := i + 1;
    }
    data := NeighborData(count, buffer[..]);
  }

  /** The Assets/Scripts record: it keeps the whole array and its length. */
  function FromArray(size: seq<int>): (data: NeighborData)
    ensures data.NeighborsCount == |data.Neighbors|
    ensures data.Neighbors == size
  {
    NeighborData(|size|, size)
  }

  /** On six slots the two records agree. */
  lemma FromArraySixSlots(size: seq<int>)
    requires |size| == SlotCount
    ensures WellFormed(FromArray(size))
  {
  }
}
