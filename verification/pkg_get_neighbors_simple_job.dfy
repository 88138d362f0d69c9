// Packages/com.tecmaid.spatialpathfinding/Runtime/Jobs/GetNeighborsSimpleJob.cs:
// the obstacle-flag variant of the com.tecmaid adjacency table.  A slot names
// the cell one step along its direction when that cell is inside the grid
// and not flagged in ObscuredCells, and holds -1 otherwise.

module PkgGetNeighborsSimpleJob {
  import opened Vectors
  import opened CellIndex
  import opened PkgStructs
  import opened NeighborRecord
  import opened Directions

  /** The flag of an in-grid 3D index; only in-grid indices are ever looked up. */
  function ObscuredAt(obscured: seq<bool>, i3: Int3, w: int, h: int, d: int): bool
    requires CheckIfIndexValid(i3, w, h, d) && w * h * d <= |obscured|
  {
    FlattenInRange(i3, w, h, d);
    obscured[FlattenIndex(i3, w, h)]
  }

  /** Slot of one direction: the adjacent cell's flat index if it is in the grid and not obscured, else -1. */
  function SimpleSlot(cell: Cell, direction: Int3, w: int, h: int, d: int, obscured: seq<bool>): int
    requires w * h * d <= |obscured|
  {
    var localIndex3D := AddInt3(cell.Index3D, direction);
    var flattenIndex := FlattenIndex(localIndex3D, w, h);
    if CheckIfIndexValid(localIndex3D, w, h, d) && !ObscuredAt(obscured, localIndex3D, w, h, d) then flattenIndex else -1
  }

  /** The six slots of a cell, in the order of the directions. */
  function SimpleSlots(cell: Cell, directions: seq<Int3>, w: int, h: int, d: int, obscured: seq<bool>): (r: seq<int>)
    requires |directions| >= SlotCount && w * h * d <= |obscured|
    ensures |r| == SlotCount
  {
    seq(SlotCount, j requires 0 <= j < SlotCount => SimpleSlot(cell, directions[j], w, h, d, obscured))
  }

  /**
   * A slot holds the adjacent cell's flat index exactly when that cell is in
   * the grid and not obscured, and -1 otherwise; a non-negative slot is a
   * cell of the grid whose 3D index is the cell's own moved by the direction.
   */
  lemma SimpleSlotSound(cell: Cell, direction: Int3, w: int, h: int, d: int, obscured: seq<bool>)
    requires 0 < w && 0 < h && w * h * d <= |obscured|
    ensures var s := SimpleSlot(cell, direction, w, h, d, obscured);
      var target := AddInt3(cell.Index3D, direction);
      && (s >= 0 <==> CheckIfIndexValid(target, w, h, d) && !ObscuredAt(obscured, target, w, h, d))
      && (s != -1 ==> s == FlattenIndex(target, w, h))
      && (s >= 0 ==> 0 <= s < w * h * d && Unflatten(s, w, h) == target)
  {
    var target := AddInt3(cell.Index3D, direction);
    if CheckIfIndexValid(target, w, h, d) {
      FlattenInRange(target, w, h, d);
      UnflattenFlatten(target, w, h, d);
    }
  }

  /** No slot ever names an obscured cell. */
  lemma NoObscuredNeighbor(cell: Cell, direction: Int3, w: int, h: int, d: int, obscured: seq<bool>)
    requires 0 < w && 0 < h && w * h * d <= |obscured|
    ensures var s := SimpleSlot(cell, direction, w, h, d, obscured);
      s >= 0 ==> s < |obscured| && !obscured[s]
  {
    SimpleSlotSound(cell, direction, w, h, d, obscured);
  }

  /**
   * A cell's own flag does not affect its slots: an obscured cell keeps its
   * outgoing edges.
   */
  lemma OwnFlagIgnored(cell: Cell, direction: Int3, w: int, h: int, d: int, obscured: seq<bool>, flag: bool)
    requires CheckIfIndexValid(cell.Index3D, w, h, d) && w * h * d <= |obscured|
    requires direction != Int3(0, 0, 0)
    ensures FlattenIndex(cell.Index3D, w, h) < |obscured|
    ensures SimpleSlot(cell, direction, w, h, d, obscured) ==
            SimpleSlot(cell, direction, w, h, d, obscured[FlattenIndex(cell.Index3D, w, h) := flag])
  {
    FlattenInRange(cell.Index3D, w, h, d);
    var own := FlattenIndex(cell.Index3D, w, h);
    var target := AddInt3(cell.Index3D, direction);
    if CheckIfIndexValid(target, w, h, d) {
      FlattenInRange(target, w, h, d);
      if FlattenIndex(target, w, h) == own {
        FlattenInjective(target, cell.Index3D, w, h, d);
        assert false;
      }
    }
  }

  /**
   * With the six axis directions, adjacency is symmetric between unobscured
   * cells: if b is in slot j of a and a is not obscured, then a is in the
   * opposite slot of b.
   */
  lemma SimpleSlotSymmetric(a: Cell, b: Cell, j: int, w: int, h: int, d: int, obscured: seq<bool>)
    requires 0 <= j < SlotCount && w * h * d <= |obscured|
    requires CheckIfIndexValid(a.Index3D, w, h, d)
    requires !ObscuredAt(obscured, a.Index3D, w, h, d)
    requires b.Index3D == AddInt3(a.Index3D, AxisDirections()[j])
    requires SimpleSlot(a, AxisDirections()[j], w, h, d, obscured) >= 0
    ensures SimpleSlot(b, AxisDirections()[Opposite(j)], w, h, d, obscured) == FlattenIndex(a.Index3D, w, h)
  {
    var dir := AxisDirections()[j];
    var back := AxisDirections()[Opposite(j)];
    AxisDirectionsOpposite(j);
    AddNegCancel(a.Index3D, dir);
    assert AddInt3(b.Index3D, back) == a.Index3D;
  }

  /** The job's fields. */
  class GetNeighborsSimpleJob {
    var TotalCells: int
    var VolumeWidth: int
    var VolumeHeight: int
    var VolumeDepth: int
    var Cells: array<Cell>
    var ObscuredCells: array<bool>
    var Directions: array<Int3>
    var CellNeighbors: array<NeighborData>
    var TempNeighbors: array<int>

    /** The array sizes the job's reads and writes stay within. */
    ghost predicate Valid()
      reads this
    {
      0 <= TotalCells <= Cells.Length && TotalCells <= CellNeighbors.Length &&
      VolumeWidth * VolumeHeight * VolumeDepth <= ObscuredCells.Length &&
      Directions.Length >= SlotCount && TempNeighbors.Length >= SlotCount
    }

    constructor (totalCells: int, width: int, height: int, depth: int, cells: array<Cell>, obscured: array<bool>,
                 directions: array<Int3>, cellNeighbors: array<NeighborData>, tempNeighbors: array<int>)
      ensures TotalCells == totalCells && VolumeWidth == width && VolumeHeight == height && VolumeDepth == depth
      ensures Cells == cells && ObscuredCells == obscured && Directions == directions
      ensures CellNeighbors == cellNeighbors && TempNeighbors == tempNeighbors
    {
      TotalCells := totalCells;
      VolumeWidth, VolumeHeight, VolumeDepth := width, height, depth;
      Cells, ObscuredCells, Directions := cells, obscured, directions;
      CellNeighbors, TempNeighbors := cellNeighbors, tempNeighbors;
    }

    /** Gives every cell 0 .. TotalCells - 1 the record of its six slots; no other record changes. */
    method Execute()
      requires Valid()
      modifies TempNeighbors, CellNeighbors
      ensures forall i :: 0 <= i < TotalCells ==>
        CellNeighbors[i] == NeighborData(SlotCount,
          SimpleSlots(Cells[i], Directions[..], VolumeWidth, VolumeHeight, VolumeDepth, ObscuredCells[..]))
      ensures forall i :: TotalCells <= i < CellNeighbors.Length ==> CellNeighbors[i] == old(CellNeighbors[i])
    {
      var i := 0;
      while i < TotalCells
        invariant 0 <= i <= TotalCells
        invariant forall k :: 0 <= k < i ==>
          CellNeighbors[k] == NeighborData(SlotCount,
            SimpleSlots(Cells[k], Directions[..], VolumeWidth, VolumeHeight, VolumeDepth, ObscuredCells[..]))
        invariant forall k :: i <= k < CellNeighbors.Length ==> CellNeighbors[k] == old(CellNeighbors[k])
      {
        GetNeighborsSimple(i);
        i := i + 1;
      }
    }

    /** Overwrites TempNeighbors[0 .. 6) with the slots of cell index and stores a copy as its record. */
    method GetNeighborsSimple(index: int)
      requires Valid() && 0 <= index < TotalCells
      modifies TempNeighbors, CellNeighbors
      ensures TempNeighbors[..SlotCount] ==
        SimpleSlots(Cells[index], Directions[..], VolumeWidth, VolumeHeight, VolumeDepth, ObscuredCells[..])
      ensures CellNeighbors[index] == NeighborData(SlotCount, TempNeighbors[..SlotCount])
      ensures forall k :: 0 <= k < CellNeighbors.Length && k != index ==> CellNeighbors[k] == old(CellNeighbors[k])
    {
      var obscured := ObscuredCells[..];
      var j := 0;
      while j < SlotCount
        invariant 0 <= j <= SlotCount
        invariant forall m :: 0 <= m < j ==>
          TempNeighbors[m] == SimpleSlot(Cells[index], Directions[m], VolumeWidth, VolumeHeight, VolumeDepth, obscured)
        invariant forall k :: 0 <= k < CellNeighbors.Length ==> CellNeighbors[k] == old(CellNeighbors[k])
      {
        var localIndex3D := AddInt3(Cells[index].Index3D, Directions[j]);
        var flattenIndex := FlattenIndex(localIndex3D, VolumeWidth, VolumeHeight);
        if CheckIfIndexValid(localIndex3D, VolumeWidth, VolumeHeight, VolumeDepth) &&
           (FlattenInRange(localIndex3D, VolumeWidth, VolumeHeight, VolumeDepth); ObscuredCells[flattenIndex] == false)
        {
          TempNeighbors[j] := flattenIndex;
        } else {
          TempNeighbors[j] := -1;
        }
        j := j + 1;
      }
      var data := NewNeighborData(TempNeighbors);
      CellNeighbors[index] := data;
    }
  }
}
