// The navigation volume of Assets/SpatialPathfinding/Scripts/Volumes: the
// same two-level grid as the Volume version, but its cells are appended to
// a growing list, its cores array is public, its neighbour directions come
// from the scene's PathingManager, and the obstacle test is a ray cast.

module SpVolumesNavigationVolume {
  import opened Vectors
  import opened CellIndex
  import opened Structs
  import opened CoreGrid
  import opened SpGrid
  import opened NeighborRecord
  import NearestCell
  import SpCalculationHelper

  /**
   * cells[start .. start + n) hold the finished grid's first n cells, in
   * counter order.
   */
  ghost predicate CellsAppended(cells: seq<Cell>, start: int, n: int, origin: Float3, amount: Int3, k: int, cellSize: real)
  {
    && 0 <= start && 0 <= n && |cells| == start + n
    && (0 < amount.y && 0 < amount.z && 0 < k ==>
          forall i :: start <= i < start + n ==> cells[i] == VolumeCell(i - start, origin, amount, k, cellSize))
  }

  class NavigationVolume {
    var cellSize: int
    var amountOfCellsPerMainCell: int
    var cellAmount: Int3
    /** transform.position */
    var position: Float3

    var cores: array<GridCore>
    var cells: seq<Cell>
    var cellNeighbors: array<NeighborData>

    var totalCells: int
    var totalCores: int
    var totalCellsPerCore: int

    /** The sizes Awake establishes; cellSize and k are at least 1, cellAmount is unsigned. */
    ghost predicate Valid()
      reads this
    {
      && 1 <= cellSize && 1 <= amountOfCellsPerMainCell
      && 0 <= cellAmount.x && 0 <= cellAmount.y && 0 <= cellAmount.z
      && cores.Length == cellAmount.x * cellAmount.y * cellAmount.z
      && totalCells == cores.Length * PerCore(amountOfCellsPerMainCell)
      && cellNeighbors.Length == totalCells
    }

    /** cells and cores hold the finished grid. */
    ghost predicate GridBuilt()
      reads this, cores
    {
      && CellsAppended(cells, 0, totalCells, position, cellAmount, amountOfCellsPerMainCell, cellSize as real)
      && CoresBuilt(cores, cores.Length, position, cellAmount, amountOfCellsPerMainCell, cellSize as real)
      && Blocked(cores[..], |cells|, amountOfCellsPerMainCell)
    }

    /** The counts Start sets once the grid is built. */
    ghost predicate Counted()
      reads this
    {
      totalCores == cores.Length && totalCellsPerCore == PerCore(amountOfCellsPerMainCell)
    }

    /** Awake: the cell total, an empty cell list and arrays sized by the totals. */
    constructor(cellSize: int, amountOfCellsPerMainCell: int, cellAmount: Int3, position: Float3)
      requires 1 <= cellSize && 1 <= amountOfCellsPerMainCell
      requires 0 <= cellAmount.x && 0 <= cellAmount.y && 0 <= cellAmount.z
      ensures Valid()
      ensures this.cellSize == cellSize && this.amountOfCellsPerMainCell == amountOfCellsPerMainCell
      ensures this.cellAmount == cellAmount && this.position == position
      ensures totalCells == (cellAmount.x * amountOfCellsPerMainCell) * (cellAmount.y * amountOfCellsPerMainCell)
                            * (cellAmount.z * amountOfCellsPerMainCell)
      ensures cells == [] && totalCores == 0 && totalCellsPerCore == 0
      ensures fresh(cores) && fresh(cellNeighbors)
    {
      this.cellSize := cellSize;
      this.amountOfCellsPerMainCell := amountOfCellsPerMainCell;
      this.cellAmount := cellAmount;
      this.position := position;
      var k := amountOfCellsPerMainCell;
      TotalCellsFactor(cellAmount.x, cellAmount.y, cellAmount.z, k);
      var count := (cellAmount.x * k) * (cellAmount.y * k) * (cellAmount.z * k);
      totalCells := count;
      cells := [];
      cores := new GridCore[cellAmount.x * cellAmount.y * cellAmount.z](_ => GridCore(Float3(0.0, 0.0, 0.0), []));
      cellNeighbors := new NeighborData[count](_ => NeighborData(0, []));
      totalCores := 0;
      totalCellsPerCore := 0;
    }

    /** Start: build the grid, count cores and cells per core, then fill every record. */
    method Start(directions: seq<Int3>, hit: (Float3, Int3) -> bool)
      requires Valid() && cells == []
      modifies this`cells, cores, this`totalCores, this`totalCellsPerCore, cellNeighbors
      ensures Valid() && GridBuilt() && Counted()
      ensures forall i :: 0 <= i < totalCells ==>
        cellNeighbors[i] == FromArray(SnapSlots(cores[..], cells, amountOfCellsPerMainCell, cells[i].CellPos, directions, cellSize, hit))
    {
      InitializeGrid();
      totalCores := cores.Length;
      var k := amountOfCellsPerMainCell;
      totalCellsPerCore := k * k * k;
      GetAllCellNeighbors(directions, hit);
    }

    /** Finished cores hold their blocks. */
    lemma CoresBlocked()
      requires Valid() && |cells| == totalCells
      requires CoresBuilt(cores, cores.Length, position, cellAmount, amountOfCellsPerMainCell, cellSize as real)
      ensures Blocked(cores[..], |cells|, amountOfCellsPerMainCell)
    {
      if 0 < cellAmount.y && 0 < cellAmount.z {
        forall ci | 0 <= ci < cores.Length
          ensures cores[..][ci].SubCells == SubCellsOf(ci, amountOfCellsPerMainCell)
        {
          assert cores[ci] == VolumeCore(ci, position, cellAmount, amountOfCellsPerMainCell, cellSize as real);
        }
      } else {
        assert cores.Length == 0;
      }
    }

    /** Two running minima: the closest core, then the closest of its sub-cells. */
    method FindNearestCell(target: Float3) returns (closestCell: int)
      requires Valid() && GridBuilt() && Counted() && 0 < totalCells
      ensures closestCell == NearestInGrid(cores[..], cells, CellPosOf, amountOfCellsPerMainCell, target,
                                           SpCalculationHelper.CalculateSquaredDistance)
    {
      BlocksReadable(cores[..], cells, amountOfCellsPerMainCell, target, SpCalculationHelper.CalculateSquaredDistance);
      closestCell := NearestCell.FindNearestCell(cores[..], cells, CellPosOf, totalCores, totalCellsPerCore, target,
                                                 SpCalculationHelper.CalculateSquaredDistance);
    }

    /** Fills the record of cell index, one slot per direction of the scene's PathingManager. */
    method GetNeighbours(pos: Float3, index: int, directions: seq<Int3>, hit: (Float3, Int3) -> bool)
      requires Valid() && GridBuilt() && Counted()
      requires 0 <= index < totalCells
      modifies cellNeighbors
      ensures cellNeighbors[index]
           == FromArray(SnapSlots(cores[..], cells, amountOfCellsPerMainCell, pos, directions, cellSize, hit))
      ensures forall i :: 0 <= i < cellNeighbors.Length && i != index ==> cellNeighbors[i] == old(cellNeighbors[i])
    {
      var neighbors := new int[|directions|];
      var i := 0;
      while i < neighbors.Length
        invariant 0 <= i <= neighbors.Length
        invariant unchanged(cellNeighbors)
        invariant forall j :: 0 <= j < i ==>
          neighbors[j] == SnapSlot(cores[..], cells, amountOfCellsPerMainCell, pos, directions[j], cellSize, hit)
      {
        if !hit(pos, directions[i]) {
          var targetCellIndex := FindNearestCell(StepTarget(pos, directions[i], cellSize));
          neighbors[i] := targetCellIndex;
        } else {
          neighbors[i] := -1;
        }
        i := i + 1;
      }
      assert neighbors[..] == SnapSlots(cores[..], cells, amountOfCellsPerMainCell, pos, directions, cellSize, hit);
      cellNeighbors[index] := FromArray(neighbors[..]);
    }

    /** Writes the record of every cell, each from that cell's own centre. */
    method GetAllCellNeighbors(directions: seq<Int3>, hit: (Float3, Int3) -> bool)
      requires Valid() && GridBuilt() && Counted()
      modifies cellNeighbors
      ensures forall i :: 0 <= i < totalCells ==>
        cellNeighbors[i] == FromArray(SnapSlots(cores[..], cells, amountOfCellsPerMainCell, cells[i].CellPos, directions, cellSize, hit))
    {
      var i := 0;
      while i < totalCells
        invariant 0 <= i <= totalCells
        invariant forall j :: 0 <= j < i ==>
          cellNeighbors[j] == FromArray(SnapSlots(cores[..], cells, amountOfCellsPerMainCell, cells[j].CellPos, directions, cellSize, hit))
      {
        GetNeighbours(cells[i].CellPos, i, directions, hit);
        i := i + 1;
      }
    }

    /**
     * Appends every core's block of sub-cells to cells, numbering them with a
     * counter that starts at 0, and stores every core.  On the empty list
     * Awake leaves, cells[i].Index == i.
     */
    method InitializeGrid()
      requires Valid()
      modifies this`cells, cores
      ensures old(cells) <= cells
      ensures CellsAppended(cells, |old(cells)|, totalCells, position, cellAmount, amountOfCellsPerMainCell, cellSize as real)
      ensures CoresBuilt(cores, cores.Length, position, cellAmount, amountOfCellsPerMainCell, cellSize as real)
      ensures old(cells) == [] ==> GridBuilt()
    {
      ghost var start := |cells|;
      var X, Y, Z := cellAmount.x, cellAmount.y, cellAmount.z;
      var index := 0;
      var coreIndex := 0;
      var x := 0;
      while x < X
        invariant 0 <= x <= X
        invariant coreIndex == Z * (Y * x) && index == coreIndex * PerCore(amountOfCellsPerMainCell)
        invariant old(cells) <= cells
        invariant CellsAppended(cells, start, index, position, cellAmount, amountOfCellsPerMainCell, cellSize as real)
        invariant CoresBuilt(cores, coreIndex, position, cellAmount, amountOfCellsPerMainCell, cellSize as real)
      {
        coreIndex, index := InitializeSlice(x, coreIndex, index, start);
        x := x + 1;
      }
      GridFinished(start, index, coreIndex);
    }

    /** At the end of the x loop every core is stored, and on an empty start list the grid is built. */
    lemma GridFinished(start: int, index: int, coreIndex: int)
      requires Valid()
      requires coreIndex == cellAmount.z * (cellAmount.y * cellAmount.x)
      requires index == coreIndex * PerCore(amountOfCellsPerMainCell)
      requires CellsAppended(cells, start, index, position, cellAmount, amountOfCellsPerMainCell, cellSize as real)
      requires CoresBuilt(cores, coreIndex, position, cellAmount, amountOfCellsPerMainCell, cellSize as real)
      ensures index == totalCells
      ensures CoresBuilt(cores, cores.Length, position, cellAmount, amountOfCellsPerMainCell, cellSize as real)
      ensures start == 0 ==> GridBuilt()
    {
      assert coreIndex == cores.Length;
      if start == 0 {
        CoresBlocked();
      }
    }

    /** The y loop at loop position x: Y columns of cores. */
    method InitializeSlice(x: int, coreIndex: int, index: int, ghost start: int) returns (nextCore: int, nextIndex: int)
      requires Valid()
      requires 0 <= x < cellAmount.x
      requires coreIndex == cellAmount.z * (cellAmount.y * x)
      requires index == coreIndex * PerCore(amountOfCellsPerMainCell)
      requires CellsAppended(cells, start, index, position, cellAmount, amountOfCellsPerMainCell, cellSize as real)
      requires CoresBuilt(cores, coreIndex, position, cellAmount, amountOfCellsPerMainCell, cellSize as real)
      modifies this`cells, cores
      ensures nextCore == cellAmount.z * (cellAmount.y * (x + 1)) && nextIndex == nextCore * PerCore(amountOfCellsPerMainCell)
      ensures old(cells) <= cells
      ensures CellsAppended(cells, start, nextIndex, position, cellAmount, amountOfCellsPerMainCell, cellSize as real)
      ensures CoresBuilt(cores, nextCore, position, cellAmount, amountOfCellsPerMainCell, cellSize as real)
    {
      nextCore, nextIndex := coreIndex, index;
      var y := 0;
      while y < cellAmount.y
        invariant 0 <= y <= cellAmount.y
        invariant nextCore == cellAmount.z * (y + cellAmount.y * x) && nextIndex == nextCore * PerCore(amountOfCellsPerMainCell)
        invariant old(cells) <= cells
        invariant CellsAppended(cells, start, nextIndex, position, cellAmount, amountOfCellsPerMainCell, cellSize as real)
        invariant CoresBuilt(cores, nextCore, position, cellAmount, amountOfCellsPerMainCell, cellSize as real)
      {
        ColumnBounds(x, y, cellAmount.x, cellAmount.y, cellAmount.z);
        nextCore, nextIndex := InitializeColumn(x, y, nextCore, nextIndex, start);
        y := y + 1;
      }
      LayerNext(x, cellAmount.z, cellAmount.y);
    }

    /** The z loop at loop position (x, y): Z cores and their cells. */
    method InitializeColumn(x: int, y: int, coreIndex: int, index: int, ghost start: int) returns (nextCore: int, nextIndex: int)
      requires Valid()
      requires 0 <= x < cellAmount.x && 0 <= y < cellAmount.y
      requires coreIndex == cellAmount.z * (y + cellAmount.y * x) && 0 <= coreIndex
      requires coreIndex + cellAmount.z <= cores.Length
      requires index == coreIndex * PerCore(amountOfCellsPerMainCell)
      requires CellsAppended(cells, start, index, position, cellAmount, amountOfCellsPerMainCell, cellSize as real)
      requires CoresBuilt(cores, coreIndex, position, cellAmount, amountOfCellsPerMainCell, cellSize as real)
      modifies this`cells, cores
      ensures nextCore == coreIndex + cellAmount.z && nextIndex == nextCore * PerCore(amountOfCellsPerMainCell)
      ensures old(cells) <= cells
      ensures CellsAppended(cells, start, nextIndex, position, cellAmount, amountOfCellsPerMainCell, cellSize as real)
      ensures CoresBuilt(cores, nextCore, position, cellAmount, amountOfCellsPerMainCell, cellSize as real)
    {
      var k := amountOfCellsPerMainCell;
      nextCore, nextIndex := coreIndex, index;
      var z := 0;
      while z < cellAmount.z
        invariant 0 <= z <= cellAmount.z
        invariant nextCore == coreIndex + z && nextIndex == nextCore * PerCore(k)
        invariant old(cells) <= cells
        invariant CellsAppended(cells, start, nextIndex, position, cellAmount, k, cellSize as real)
        invariant CoresBuilt(cores, nextCore, position, cellAmount, k, cellSize as real)
      {
        CoreNumberCoords(x, y, z, cellAmount.x, cellAmount.y, cellAmount.z);
        CoreBlockEnd(nextCore, cores.Length, k);
        var mainCellCenter := CoreCenter(position, Int3(x, y, z), cellAmount, cellSize as real, k);
        var tempSubCells;
        nextIndex, tempSubCells := InitializeCore(nextCore, mainCellCenter, nextIndex, start);
        cores[nextCore] := GridCore(mainCellCenter, tempSubCells);
        assert (nextCore + 1) * PerCore(k) == nextIndex;
        nextCore := nextCore + 1;
        z := z + 1;
      }
    }

    /** The a loop of one core: its k^3 cells, and the list of their indices. */
    method InitializeCore(ci: int, center: Float3, index: int, ghost start: int) returns (next: int, tempSubCells: seq<int>)
      requires Valid() && 0 < cellAmount.y && 0 < cellAmount.z
      requires 0 <= ci && center == CoreCenter(position, CoreCoords(ci, cellAmount.y, cellAmount.z), cellAmount, cellSize as real, amountOfCellsPerMainCell)
      requires index == ci * PerCore(amountOfCellsPerMainCell)
      requires CellsAppended(cells, start, index, position, cellAmount, amountOfCellsPerMainCell, cellSize as real)
      modifies this`cells
      ensures next == index + PerCore(amountOfCellsPerMainCell) && tempSubCells == SubCellsOf(ci, amountOfCellsPerMainCell)
      ensures old(cells) <= cells
      ensures CellsAppended(cells, start, next, position, cellAmount, amountOfCellsPerMainCell, cellSize as real)
    {
      var k := amountOfCellsPerMainCell;
      next, tempSubCells := index, [];
      var a := 0;
      while a < k
        invariant 0 <= a <= k
        invariant next == index + k * (k * a) && tempSubCells == Block(index, next - index)
        invariant old(cells) <= cells
        invariant CellsAppended(cells, start, next, position, cellAmount, k, cellSize as real)
      {
        SlabInRange(a, k);
        next, tempSubCells := InitializeSlab(ci, a, center, next, tempSubCells, start);
        a := a + 1;
      }
      SlabInRange(0, k);
    }

    /** The b loop for a fixed a: k rows of k cells. */
    method InitializeSlab(ci: int, a: int, center: Float3, index: int, subCells: seq<int>, ghost start: int)
      returns (next: int, tempSubCells: seq<int>)
      requires Valid() && 0 < cellAmount.y && 0 < cellAmount.z
      requires 0 <= ci && center == CoreCenter(position, CoreCoords(ci, cellAmount.y, cellAmount.z), cellAmount, cellSize as real, amountOfCellsPerMainCell)
      requires 0 <= a < amountOfCellsPerMainCell
      requires index == ci * PerCore(amountOfCellsPerMainCell) + amountOfCellsPerMainCell * (amountOfCellsPerMainCell * a)
      requires 0 <= ci * PerCore(amountOfCellsPerMainCell) <= index
      requires subCells == Block(ci * PerCore(amountOfCellsPerMainCell), index - ci * PerCore(amountOfCellsPerMainCell))
      requires CellsAppended(cells, start, index, position, cellAmount, amountOfCellsPerMainCell, cellSize as real)
      modifies this`cells
      ensures next == index + amountOfCellsPerMainCell * amountOfCellsPerMainCell
      ensures tempSubCells == Block(ci * PerCore(amountOfCellsPerMainCell), next - ci * PerCore(amountOfCellsPerMainCell))
      ensures old(cells) <= cells
      ensures CellsAppended(cells, start, next, position, cellAmount, amountOfCellsPerMainCell, cellSize as real)
    {
      var k := amountOfCellsPerMainCell;
      next, tempSubCells := index, subCells;
      var b := 0;
      while b < k
        invariant 0 <= b <= k
        invariant next == index + k * b
        invariant tempSubCells == Block(ci * PerCore(k), next - ci * PerCore(k))
        invariant old(cells) <= cells
        invariant CellsAppended(cells, start, next, position, cellAmount, k, cellSize as real)
      {
        RowBounds(a, b, k);
        next, tempSubCells := InitializeRow(ci, a, b, center, next, tempSubCells, start);
        b := b + 1;
      }
    }

    /** The c loop for fixed a and b: k cells, appended to cells and to the core's list. */
    method InitializeRow(ci: int, a: int, b: int, center: Float3, index: int, subCells: seq<int>, ghost start: int)
      returns (next: int, tempSubCells: seq<int>)
      requires Valid() && 0 < cellAmount.y && 0 < cellAmount.z
      requires 0 <= ci && center == CoreCenter(position, CoreCoords(ci, cellAmount.y, cellAmount.z), cellAmount, cellSize as real, amountOfCellsPerMainCell)
      requires 0 <= a < amountOfCellsPerMainCell && 0 <= b < amountOfCellsPerMainCell
      requires index == ci * PerCore(amountOfCellsPerMainCell) + amountOfCellsPerMainCell * (b + amountOfCellsPerMainCell * a)
      requires 0 <= ci * PerCore(amountOfCellsPerMainCell) <= index
      requires subCells == Block(ci * PerCore(amountOfCellsPerMainCell), index - ci * PerCore(amountOfCellsPerMainCell))
      requires CellsAppended(cells, start, index, position, cellAmount, amountOfCellsPerMainCell, cellSize as real)
      modifies this`cells
      ensures next == index + amountOfCellsPerMainCell
      ensures tempSubCells == Block(ci * PerCore(amountOfCellsPerMainCell), next - ci * PerCore(amountOfCellsPerMainCell))
      ensures old(cells) <= cells
      ensures CellsAppended(cells, start, next, position, cellAmount, amountOfCellsPerMainCell, cellSize as real)
    {
      var k := amountOfCellsPerMainCell;
      next, tempSubCells := index, subCells;
      var c := 0;
      while c < k
        invariant 0 <= c <= k && next == index + c
        invariant tempSubCells == Block(ci * PerCore(k), next - ci * PerCore(k))
        invariant old(cells) <= cells
        invariant CellsAppended(cells, start, next, position, cellAmount, k, cellSize as real)
      {
        VolumeCellAt(ci, a, b, c, position, cellAmount, k, cellSize as real);
        var subcellCenter := SubCenter(center, Int3(a, b, c), k, cellSize as real);
        var cell := Cell(subcellCenter, next);
        cells := cells + [cell];
        BlockSnoc(ci * PerCore(k), next - ci * PerCore(k));
        tempSubCells := tempSubCells + [cell.Index];
        next := next + 1;
        c := c + 1;
      }
    }
  }
}
