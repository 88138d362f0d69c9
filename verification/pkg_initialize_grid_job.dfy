// Packages/com.tecmaid.spatialpathfinding/Runtime/Jobs/InitializeGridJob.cs:
// a job that fills the com.tecmaid volume's cell array.  Three nested loops run
// over z, then y, then x with a running index, so x varies fastest.

module PkgInitializeGridJob {
  import opened Vectors
  import opened CellIndex
  import opened PkgStructs

  /** Centre of grid coordinate coord along one axis: origin + (coord - (dim - 1) / 2) * cellSize. */
  function CenterAxis(origin: real, coord: int, dim: int, cellSize: real): real
  {
    origin + (coord as real - (dim as real - 1.0) / 2.0) * cellSize
  }

  /** Centre of the cell with 3D index i3 in a W x H x D grid centred on origin. */
  function CellCenter(origin: Float3, i3: Int3, w: int, h: int, d: int, cellSize: real): Float3
  {
    Float3(CenterAxis(origin.x, i3.x, w, cellSize),
           CenterAxis(origin.y, i3.y, h, cellSize),
           CenterAxis(origin.z, i3.z, d, cellSize))
  }

  /** The cell the builder stores in slot index: its centre, the index itself and its 3D index. */
  function GridCell(index: int, w: int, h: int, d: int, origin: Float3, cellSize: real): Cell
    requires 0 <= index && 0 < w && 0 < h
  {
    var i3 := Unflatten(index, w, h);
    Cell(CellCenter(origin, i3, w, h, d, cellSize), index, i3)
  }

  /**
   * Slot index of the grid holds the cell numbered index whose 3D index is
   * in the grid and flattens back to index.
   */
  lemma GridCellIndex(index: int, w: int, h: int, d: int, origin: Float3, cellSize: real)
    requires 0 <= index < w * h * d && 0 < w && 0 < h
    ensures GridCell(index, w, h, d, origin, cellSize).Index == index
    ensures CheckIfIndexValid(GridCell(index, w, h, d, origin, cellSize).Index3D, w, h, d)
    ensures FlattenIndex(GridCell(index, w, h, d, origin, cellSize).Index3D, w, h) == index
  {
    FlattenUnflatten(index, w, h);
    UnflattenValid(index, w, h, d);
  }

  /** Cells coord and dim - 1 - coord lie symmetrically about the origin. */
  lemma CenterMirror(origin: real, coord: int, dim: int, cellSize: real)
    ensures CenterAxis(origin, coord, dim, cellSize) + CenterAxis(origin, dim - 1 - coord, dim, cellSize) == 2.0 * origin
  {
    var half := (dim as real - 1.0) / 2.0;
    var u := coord as real - half;
    assert (dim - 1 - coord) as real - half == -u;
    assert u * cellSize + (-u) * cellSize == 0.0;
  }

  /** Neighbouring coordinates on an axis are exactly one cellSize apart. */
  lemma CenterStep(origin: real, coord: int, dim: int, cellSize: real)
    ensures CenterAxis(origin, coord + 1, dim, cellSize) - CenterAxis(origin, coord, dim, cellSize) == cellSize
  {
    var half := (dim as real - 1.0) / 2.0;
    var u := coord as real - half;
    assert (coord + 1) as real - half == u + 1.0;
    assert (u + 1.0) * cellSize == u * cellSize + cellSize;
  }

  /** The centre of a cell moved by a whole number of cells is its centre moved by that many cellSizes. */
  lemma CenterShift(origin: real, coord: int, delta: int, dim: int, cellSize: real)
    ensures CenterAxis(origin, coord + delta, dim, cellSize) == CenterAxis(origin, coord, dim, cellSize) + delta as real * cellSize
  {
    var half := (dim as real - 1.0) / 2.0;
    var u := coord as real - half;
    assert (coord + delta) as real - half == u + delta as real;
    assert (u + delta as real) * cellSize == u * cellSize + delta as real * cellSize;
  }

  /** The cell stored for a valid 3D index is the one built from that index. */
  lemma GridCellOf(i3: Int3, w: int, h: int, d: int, origin: Float3, cellSize: real)
    requires CheckIfIndexValid(i3, w, h, d)
    ensures 0 <= FlattenIndex(i3, w, h) < w * h * d
    ensures GridCell(FlattenIndex(i3, w, h), w, h, d, origin, cellSize)
         == Cell(CellCenter(origin, i3, w, h, d, cellSize), FlattenIndex(i3, w, h), i3)
  {
    FlattenInRange(i3, w, h, d);
    UnflattenFlatten(i3, w, h, d);
  }

  /** Slots 0 .. n - 1 of cells hold the grid's cells. */
  ghost predicate Built(cells: array<Cell>, n: int, w: int, h: int, d: int, origin: Float3, cellSize: real)
    reads cells
  {
    0 < w && 0 < h ==> forall k :: 0 <= k < n && k < cells.Length ==> cells[k] == GridCell(k, w, h, d, origin, cellSize)
  }

  /** The job's fields: the cell array it writes and the grid it describes. */
  class InitializeGridJob {
    var Cells: array<Cell>
    var VolumeDepth: int
    var VolumeHeight: int
    var VolumeWidth: int
    var cellSize: real
    var position: Float3

    constructor (cells: array<Cell>, width: int, height: int, depth: int, cellSize: real, position: Float3)
      ensures Cells == cells && VolumeWidth == width && VolumeHeight == height && VolumeDepth == depth
      ensures this.cellSize == cellSize && this.position == position
    {
      Cells := cells;
      VolumeWidth, VolumeHeight, VolumeDepth := width, height, depth;
      this.cellSize := cellSize;
      this.position := position;
    }

    method Execute()
      requires 0 <= VolumeWidth && 0 <= VolumeHeight && 0 <= VolumeDepth
      requires VolumeWidth * VolumeHeight * VolumeDepth <= Cells.Length
      modifies Cells
      ensures 0 < VolumeWidth && 0 < VolumeHeight ==>
        forall i :: 0 <= i < VolumeWidth * VolumeHeight * VolumeDepth ==>
          Cells[i] == GridCell(i, VolumeWidth, VolumeHeight, VolumeDepth, position, cellSize)
      ensures forall i :: VolumeWidth * VolumeHeight * VolumeDepth <= i < Cells.Length ==> Cells[i] == old(Cells[i])
    {
      InitializeGrid();
    }

    /**
     * Writes slot x + W * (y + H * z) for every cell (x, y, z) of the grid:
     * exactly the slots 0 .. W * H * D - 1, each once, each with Index equal
     * to the slot; the rest of the array is left alone.
     */
    method InitializeGrid()
      requires 0 <= VolumeWidth && 0 <= VolumeHeight && 0 <= VolumeDepth
      requires VolumeWidth * VolumeHeight * VolumeDepth <= Cells.Length
      modifies Cells
      ensures 0 < VolumeWidth && 0 < VolumeHeight ==>
        forall i :: 0 <= i < VolumeWidth * VolumeHeight * VolumeDepth ==>
          Cells[i] == GridCell(i, VolumeWidth, VolumeHeight, VolumeDepth, position, cellSize)
      ensures forall i :: VolumeWidth * VolumeHeight * VolumeDepth <= i < Cells.Length ==> Cells[i] == old(Cells[i])
    {
      var index := 0;
      var z := 0;
      while z < VolumeDepth
        invariant 0 <= z <= VolumeDepth
        invariant index == VolumeWidth * (VolumeHeight * z)
        invariant Built(Cells, index, VolumeWidth, VolumeHeight, VolumeDepth, position, cellSize)
        invariant forall k :: index <= k < Cells.Length ==> Cells[k] == old(Cells[k])
      {
        index := InitializeLayer(z, index);
        z := z + 1;
      }
      VolumeEnd(VolumeWidth, VolumeHeight, VolumeDepth);
    }

    /** The y loop for layer z: H rows of W cells, starting at slot index. */
    method InitializeLayer(z: int, index: int) returns (next: int)
      requires 0 <= VolumeWidth && 0 <= VolumeHeight && 0 <= z < VolumeDepth
      requires VolumeWidth * VolumeHeight * VolumeDepth <= Cells.Length
      requires index == VolumeWidth * (VolumeHeight * z)
      requires Built(Cells, index, VolumeWidth, VolumeHeight, VolumeDepth, position, cellSize)
      modifies Cells
      ensures next == VolumeWidth * (VolumeHeight * (z + 1)) && index <= next
      ensures Built(Cells, next, VolumeWidth, VolumeHeight, VolumeDepth, position, cellSize)
      ensures forall k :: next <= k < Cells.Length ==> Cells[k] == old(Cells[k])
    {
      next := index;
      var y := 0;
      while y < VolumeHeight
        invariant 0 <= y <= VolumeHeight
        invariant next == VolumeWidth * (y + VolumeHeight * z) && index <= next
        invariant Built(Cells, next, VolumeWidth, VolumeHeight, VolumeDepth, position, cellSize)
        invariant forall k :: next <= k < Cells.Length ==> Cells[k] == old(Cells[k])
      {
        RowInRange(y, z, VolumeWidth, VolumeHeight, VolumeDepth);
        RowNext(y, z, VolumeWidth, VolumeHeight);
        next := InitializeRow(y, z, next);
        y := y + 1;
      }
      LayerNext(z, VolumeWidth, VolumeHeight);
    }

    /** The innermost x loop: writes the W cells of row (y, z), which start at slot index. */
    method InitializeRow(y: int, z: int, index: int) returns (next: int)
      requires 0 <= VolumeWidth && 0 <= y < VolumeHeight && 0 <= z < VolumeDepth
      requires index == VolumeWidth * (y + VolumeHeight * z) && 0 <= index
      requires index + VolumeWidth <= Cells.Length
      requires Built(Cells, index, VolumeWidth, VolumeHeight, VolumeDepth, position, cellSize)
      modifies Cells
      ensures next == index + VolumeWidth
      ensures Built(Cells, next, VolumeWidth, VolumeHeight, VolumeDepth, position, cellSize)
      ensures forall k :: 0 <= k < index ==> Cells[k] == old(Cells[k])
      ensures forall k :: next <= k < Cells.Length ==> Cells[k] == old(Cells[k])
    {
      var w, h, d := VolumeWidth, VolumeHeight, VolumeDepth;
      next := index;
      var x := 0;
      while x < w
        invariant 0 <= x <= w
        invariant next == index + x
        invariant Built(Cells, next, w, h, d, position, cellSize)
        invariant forall k :: 0 <= k < index ==> Cells[k] == old(Cells[k])
        invariant forall k :: next <= k < Cells.Length ==> Cells[k] == old(Cells[k])
      {
        var i3 := Int3(x, y, z);
        GridCellOf(i3, w, h, d, position, cellSize);
        var mainCellCenter := CellCenter(position, i3, w, h, d, cellSize);
        var cell := Cell(mainCellCenter, next, i3);
        Cells[next] := cell;
        next := next + 1;
        x := x + 1;
      }
    }
  }
}
