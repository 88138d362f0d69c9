// Assets/Scripts/Jobs/InitializeGridJob.cs: a parallel-for job whose
// Execute(index) decodes the flat index into a 3D grid position, x fastest,
// and stores the cell centred at that position.  CellAmount is an int3, so
// the centring offset (CellAmount - 1) / 2 is C# integer division: on an
// axis with an even number of cells the grid sits half a cell off centre.

module ScriptsInitializeGridJob {
  import opened Vectors
  import opened CellIndex
  import opened Structs

  /** Centre along one axis: origin + (coord - (dim - 1) / 2) * cellSize, the division truncating. */
  function CenterAxis(origin: real, coord: int, dim: int, cellSize: real): real
  {
    origin + (coord - TruncDiv(dim - 1, 2)) as real * cellSize
  }

  /** The cell Execute(index) stores. */
  function JobCell(index: int, origin: Float3, amount: Int3, cellSize: real): Cell
    requires 0 <= index && 0 < amount.x && 0 < amount.y
  {
    var cellPos := Unflatten(index, amount.x, amount.y);
    Cell(Float3(CenterAxis(origin.x, cellPos.x, amount.x, cellSize),
                CenterAxis(origin.y, cellPos.y, amount.y, cellSize),
                CenterAxis(origin.z, cellPos.z, amount.z, cellSize)), index)
  }

  /** Neighbouring coordinates on an axis are exactly one cellSize apart. */
  lemma CenterStep(origin: real, coord: int, dim: int, cellSize: real)
    ensures CenterAxis(origin, coord + 1, dim, cellSize) - CenterAxis(origin, coord, dim, cellSize) == cellSize
  {
    var u := coord - TruncDiv(dim - 1, 2);
    assert (u + 1) as real * cellSize == u as real * cellSize + cellSize;
  }

  /**
   * Cells coord and dim - 1 - coord mirror about the origin when dim is odd;
   * when dim is even the pair's midpoint lies half a cell past the origin.
   */
  lemma CenterMirror(origin: real, coord: int, dim: int, cellSize: real)
    requires 1 <= dim
    ensures dim % 2 == 1 ==>
      CenterAxis(origin, coord, dim, cellSize) + CenterAxis(origin, dim - 1 - coord, dim, cellSize) == 2.0 * origin
    ensures dim % 2 == 0 ==>
      CenterAxis(origin, coord, dim, cellSize) + CenterAxis(origin, dim - 1 - coord, dim, cellSize) == 2.0 * origin + cellSize
  {
    var half := TruncDiv(dim - 1, 2);
    var u := coord - half;
    var v := dim - 1 - coord - half;
    assert u + v == (dim - 1) - 2 * half;
    assert u as real * cellSize + v as real * cellSize == (u + v) as real * cellSize;
    if dim % 2 == 1 {
      assert u + v == 0;
    } else {
      assert u + v == 1;
    }
  }

  /** The job's fields. */
  class InitializeGridJob {
    var TransformPosition: Float3
    var CellAmount: Int3
    var CellSize: real
    var Cells: array<Cell>

    constructor (position: Float3, amount: Int3, cellSize: real, cells: array<Cell>)
      ensures TransformPosition == position && CellAmount == amount && CellSize == cellSize && Cells == cells
    {
      TransformPosition, CellAmount, CellSize, Cells := position, amount, cellSize, cells;
    }

    /**
     * Stores in Cells[index] the cell numbered index, centred at the grid
     * position index decodes to; no other slot changes.  The divisions by
     * CellAmount.x and CellAmount.x * CellAmount.y need both to be positive.
     */
    method Execute(index: int)
      requires 0 <= index < Cells.Length && 0 < CellAmount.x && 0 < CellAmount.y
      modifies Cells
      ensures Cells[index] == JobCell(index, TransformPosition, CellAmount, CellSize)
      ensures Cells[index].Index == index
      ensures forall k :: 0 <= k < Cells.Length && k != index ==> Cells[k] == old(Cells[k])
    {
      var cellPos := Int3(index % CellAmount.x, (index / CellAmount.x) % CellAmount.y, index / (CellAmount.x * CellAmount.y));
      assert cellPos == Unflatten(index, CellAmount.x, CellAmount.y);
      var cellCenter := Float3(
        CenterAxis(TransformPosition.x, cellPos.x, CellAmount.x, CellSize),
        CenterAxis(TransformPosition.y, cellPos.y, CellAmount.y, CellSize),
        CenterAxis(TransformPosition.z, cellPos.z, CellAmount.z, CellSize));
      var cell := Cell(cellCenter, index);
      Cells[index] := cell;
    }
  }
}
