// The navigation volume of Assets/SpatialPathfinding/Scripts/Volume: a
// two-level grid of X*Y*Z cores with k^3 sub-cells each, built into
// fixed-size arrays, and a neighbour table whose slots are found by
// snapping the point one cell step away to the nearest cell.

module SpNavigationVolume {
  import opened Vectors
  import opened CellIndex
  import opened Structs
  import opened CoreGrid
  import opened SpGrid
  import opened NeighborRecord
  import opened Directions
  import SpCalculationHelper

  /** Array slots cells[0 .. n) hold the finished grid's cells. */
  ghost predicate CellsBuilt(cells: array<Cell>, n: int, origin: Float3, amount: Int3, k: int, cellSize: real)
    reads cells
  {
    0 < amount.y && 0 < amount.z && 0 < k ==>
      forall i :: 0 <= i < n && i < cells.Length ==> cells[i] == VolumeCell(i, origin, amount, k, cellSize)
  }

  /** A sub-link: one end of a NavigationLink, standing in some volume. */
  class NavigationSubLink {
    var Position: Float3
    var LinkedVolume: NavigationVolume?
    var NeighborLink: NavigationSubLink?

    constructor(position: Float3)
      ensures Position == position && LinkedVolume == null && NeighborLink == null
    {
      Position := position;
      LinkedVolume := null;
      NeighborLink := null;
    }
  }

  class NavigationVolume {
    var TotalCells: int
    var TotalCores: int
    var TotalCellsPerCore: int

    var cellSize: int
    var amountOfCellsPerMainCell: int
    var cellAmount: Int3
    /** transform.position */
    var position: Float3

    var Cells: array<Cell>
    var Cores: array<GridCore>
    var CellNeighbors: array<NeighborData>

    var directions: array<Int3>
    var directionCount: int

    var Links: seq<NavigationSubLink>

    /** The sizes Awake establishes; the serialized fields are unsigned. */
    ghost predicate Valid()
      reads this
    {
      && 0 <= cellSize && 0 <= amountOfCellsPerMainCell
      && 0 <= cellAmount.x && 0 <= cellAmount.y && 0 <= cellAmount.z
      && TotalCores == cellAmount.x * cellAmount.y * cellAmount.z
      && TotalCellsPerCore == PerCore(amountOfCellsPerMainCell)
      && TotalCells == TotalCores * TotalCellsPerCore
      && Cells.Length == TotalCells && Cores.Length == TotalCores && CellNeighbors.Length == TotalCells
      && directions.Length == SlotCount && 0 <= directionCount <= SlotCount
    }

    /** Cells and Cores hold the finished grid. */
    ghost predicate GridBuilt()
      reads this, Cells, Cores
    {
      && CellsBuilt(Cells, TotalCells, position, cellAmount, amountOfCellsPerMainCell, cellSize as real)
      && CoresBuilt(Cores, TotalCores, position, cellAmount, amountOfCellsPerMainCell, cellSize as real)
      && Blocked(Cores[..], Cells.Length, amountOfCellsPerMainCell)
    }

    /** The field initialisers and Awake: the three totals and the arrays sized by them. */
    constructor(cellSize: int, amountOfCellsPerMainCell: int, cellAmount: Int3, position: Float3)
      requires 0 <= cellSize && 0 <= amountOfCellsPerMainCell
      requires 0 <= cellAmount.x && 0 <= cellAmount.y && 0 <= cellAmount.z
      ensures Valid()
      ensures this.cellSize == cellSize && this.amountOfCellsPerMainCell == amountOfCellsPerMainCell
      ensures this.cellAmount == cellAmount && this.position == position
      ensures TotalCells == cellAmount.x * amountOfCellsPerMainCell * cellAmount.y * amountOfCellsPerMainCell
                            * cellAmount.z * amountOfCellsPerMainCell
      ensures directionCount == 0 && Links == []
      ensures fresh(Cells) && fresh(Cores) && fresh(CellNeighbors) && fresh(directions)
    {
      this.cellSize := cellSize;
      this.amountOfCellsPerMainCell := amountOfCellsPerMainCell;
      this.cellAmount := cellAmount;
      this.position := position;
      directions := new Int3[SlotCount](_ => Int3(0, 0, 0));
      directionCount := 0;
      Links := [];
      var k := amountOfCellsPerMainCell;
      TotalCellsFactor(cellAmount.x, cellAmount.y, cellAmount.z, k);
      var totalCells := cellAmount.x * k * cellAmount.y * k * cellAmount.z * k;
      var totalCores := cellAmount.x * cellAmount.y * cellAmount.z;
      var perCore := k * k * k;
      assert totalCells == totalCores * perCore && 0 <= totalCores && 0 <= perCore && perCore == PerCore(k);
      TotalCells := totalCells;
      TotalCores := totalCores;
      TotalCellsPerCore := perCore;
      Cells := new Cell[totalCells](_ => Cell(Float3(0.0, 0.0, 0.0), 0));
      Cores := new GridCore[totalCores](_ => GridCore(Float3(0.0, 0.0, 0.0), []));
      CellNeighbors := new NeighborData[totalCells](_ => NeighborData(0, []));
    }

    /** The six axis directions, +z, -z, +x, -x, +y, -y, and directionCount = 6. */
    method InitializeDirections()
      requires Valid()
      modifies directions, this`directionCount
      ensures Valid()
      ensures directions[..] == AxisDirections() && directionCount == SlotCount
    {
      FillAxisDirections(directions);
      directionCount := directions.Length;
    }

    /** Finished cores hold their blocks. */
    lemma CoresBlocked()
      requires Valid()
      requires CoresBuilt(Cores, TotalCores, position, cellAmount, amountOfCellsPerMainCell, cellSize as real)
      ensures Blocked(Cores[..], Cells.Length, amountOfCellsPerMainCell)
    {
      if 0 < cellAmount.y && 0 < cellAmount.z {
        forall ci | 0 <= ci < Cores.Length
          ensures Cores[..][ci].SubCells == SubCellsOf(ci, amountOfCellsPerMainCell)
        {
          assert Cores[ci] == VolumeCore(ci, position, cellAmount, amountOfCellsPerMainCell, cellSize as real);
        }
      } else {
        assert TotalCores == 0;
      }
    }

    /** Two running minima: the closest core, then the closest of its sub-cells. */
    method FindNearestCell(target: Float3) returns (closestCell: int)
      requires Valid() && GridBuilt() && 0 < TotalCells
      ensures closestCell == NearestInGrid(Cores[..], Cells[..], CellPosOf, amountOfCellsPerMainCell, target,
                                           SpCalculationHelper.CalculateSquaredDistance)
    {
      BlocksReadable(Cores[..], Cells[..], amountOfCellsPerMainCell, target, SpCalculationHelper.CalculateSquaredDistance);
      closestCell := NearestCell.FindNearestCell(Cores[..], Cells[..], CellPosOf, TotalCores, TotalCellsPerCore, target,
                                                 SpCalculationHelper.CalculateSquaredDistance);
    }

    /** Fills the record of cell index from a fresh six-slot scratch array. */
    method GetNeighbours(pos: Float3, index: int, hit: (Float3, Int3) -> bool)
      requires Valid() && GridBuilt() && directionCount == SlotCount
      requires 0 <= index < TotalCells
      modifies CellNeighbors
      ensures CellNeighbors[index]
           == NeighborData(SlotCount, SnapSlots(Cores[..], Cells[..], amountOfCellsPerMainCell, pos, directions[..], cellSize, hit))
      ensures forall i :: 0 <= i < CellNeighbors.Length && i != index ==> CellNeighbors[i] == old(CellNeighbors[i])
    {
      var neighbors := new int[directionCount];
      var i := 0;
      while i < directionCount
        invariant 0 <= i <= directionCount
        invariant unchanged(CellNeighbors)
        invariant forall j :: 0 <= j < i ==>
          neighbors[j] == SnapSlot(Cores[..], Cells[..], amountOfCellsPerMainCell, pos, directions[j], cellSize, hit)
      {
        if !hit(pos, directions[i]) {
          var targetCellIndex := FindNearestCell(StepTarget(pos, directions[i], cellSize));
          neighbors[i] := targetCellIndex;
        } else {
          neighbors[i] := -1;
        }
        i := i + 1;
      }
      var data := NewNeighborData(neighbors);
      assert neighbors[..SlotCount]
          == SnapSlots(Cores[..], Cells[..], amountOfCellsPerMainCell, pos, directions[..], cellSize, hit);
      CellNeighbors[index] := data;
    }

    /** Writes the record of every cell, each from that cell's own centre. */
    method GetAllCellNeighbors(hit: (Float3, Int3) -> bool)
      requires Valid() && GridBuilt() && directionCount == SlotCount
      modifies CellNeighbors
      ensures forall i :: 0 <= i < TotalCells ==>
        CellNeighbors[i]
          == NeighborData(SlotCount, SnapSlots(Cores[..], Cells[..], amountOfCellsPerMainCell, Cells[i].CellPos, directions[..], cellSize, hit))
    {
      var i := 0;
      while i < TotalCells
        invariant 0 <= i <= TotalCells
        invariant forall j :: 0 <= j < i ==>
          CellNeighbors[j]
            == NeighborData(SlotCount, SnapSlots(Cores[..], Cells[..], amountOfCellsPerMainCell, Cells[j].CellPos, directions[..], cellSize, hit))
      {
        GetNeighbours(Cells[i].CellPos, i, hit);
        i := i + 1;
      }
    }

    /** Builds every core and its block of sub-cells, counting cores and cells as it goes. */
    method InitializeGrid()
      requires Valid()
      modifies Cells, Cores
      ensures GridBuilt()
    {
      var index := 0;
      var coreIndex := 0;
      var x := 0;
      while x < cellAmount.x
        invariant 0 <= x <= cellAmount.x
        invariant coreIndex == cellAmount.z * (cellAmount.y * x) && index == coreIndex * TotalCellsPerCore
        invariant CellsBuilt(Cells, index, position, cellAmount, amountOfCellsPerMainCell, cellSize as real)
        invariant CoresBuilt(Cores, coreIndex, position, cellAmount, amountOfCellsPerMainCell, cellSize as real)
      {
        coreIndex, index := InitializeLayer(x, coreIndex, index);
        x := x + 1;
      }
      GridEnd(cellAmount.x, cellAmount.y, cellAmount.z);
      CoresBlocked();
    }

    /** The y loop at loop position x: Y columns of Z cores. */
    method InitializeLayer(x: int, coreIndex: int, index: int) returns (nextCore: int, nextIndex: int)
      requires Valid()
      requires 0 <= x < cellAmount.x
      requires coreIndex == cellAmount.z * (cellAmount.y * x) && index == coreIndex * TotalCellsPerCore
      requires CellsBuilt(Cells, index, position, cellAmount, amountOfCellsPerMainCell, cellSize as real)
      requires CoresBuilt(Cores, coreIndex, position, cellAmount, amountOfCellsPerMainCell, cellSize as real)
      modifies Cells, Cores
      ensures nextCore == cellAmount.z * (cellAmount.y * (x + 1)) && nextIndex == nextCore * TotalCellsPerCore
      ensures CellsBuilt(Cells, nextIndex, position, cellAmount, amountOfCellsPerMainCell, cellSize as real)
      ensures CoresBuilt(Cores, nextCore, position, cellAmount, amountOfCellsPerMainCell, cellSize as real)
    {
      nextCore, nextIndex := coreIndex, index;
      var y := 0;
      while y < cellAmount.y
        invariant 0 <= y <= cellAmount.y
        invariant nextCore == cellAmount.z * (y + cellAmount.y * x) && nextIndex == nextCore * TotalCellsPerCore
        invariant CellsBuilt(Cells, nextIndex, position, cellAmount, amountOfCellsPerMainCell, cellSize as real)
        invariant CoresBuilt(Cores, nextCore, position, cellAmount, amountOfCellsPerMainCell, cellSize as real)
      {
        ColumnBounds(x, y, cellAmount.x, cellAmount.y, cellAmount.z);
        nextCore, nextIndex := InitializeColumn(x, y, nextCore, nextIndex);
        y := y + 1;
      }
      LayerNext(x, cellAmount.z, cellAmount.y);
    }

    /** The z loop at loop position (x, y): Z cores and their cells. */
    method InitializeColumn(x: int, y: int, coreIndex: int, index: int) returns (nextCore: int, nextIndex: int)
      requires Valid()
      requires 0 <= x < cellAmount.x && 0 <= y < cellAmount.y
      requires coreIndex == cellAmount.z * (y + cellAmount.y * x) && 0 <= coreIndex
      requires coreIndex + cellAmount.z <= TotalCores
      requires index == coreIndex * TotalCellsPerCore
      requires CellsBuilt(Cells, index, position, cellAmount, amountOfCellsPerMainCell, cellSize as real)
      requires CoresBuilt(Cores, coreIndex, position, cellAmount, amountOfCellsPerMainCell, cellSize as real)
      modifies Cells, Cores
      ensures nextCore == coreIndex + cellAmount.z && nextIndex == nextCore * TotalCellsPerCore
      ensures CellsBuilt(Cells, nextIndex, position, cellAmount, amountOfCellsPerMainCell, cellSize as real)
      ensures CoresBuilt(Cores, nextCore, position, cellAmount, amountOfCellsPerMainCell, cellSize as real)
    {
      var k := amountOfCellsPerMainCell;
      nextCore, nextIndex := coreIndex, index;
      var z := 0;
      while z < cellAmount.z
        invariant 0 <= z <= cellAmount.z
        invariant nextCore == coreIndex + z && nextIndex == nextCore * TotalCellsPerCore
        invariant CellsBuilt(Cells, nextIndex, position, cellAmount, k, cellSize as real)
        invariant CoresBuilt(Cores, nextCore, position, cellAmount, k, cellSize as real)
      {
        CoreNumberCoords(x, y, z, cellAmount.x, cellAmount.y, cellAmount.z);
        CoreBlockEnd(nextCore, TotalCores, k);
        var mainCellCenter := CoreCenter(position, Int3(x, y, z), cellAmount, cellSize as real, k);
        var tempSubCells;
        nextIndex, tempSubCells := InitializeCore(nextCore, mainCellCenter, nextIndex);
        Cores[nextCore] := GridCore(mainCellCenter, tempSubCells);
        assert (nextCore + 1) * TotalCellsPerCore == nextIndex;
        nextCore := nextCore + 1;
        z := z + 1;
      }
    }

    /** The a loop of one core: its k^3 cells, and the list of their indices. */
    method InitializeCore(ci: int, center: Float3, index: int) returns (next: int, tempSubCells: seq<int>)
      requires Valid() && 0 < cellAmount.y && 0 < cellAmount.z
      requires 0 <= ci && center == CoreCenter(position, CoreCoords(ci, cellAmount.y, cellAmount.z), cellAmount, cellSize as real, amountOfCellsPerMainCell)
      requires index == ci * TotalCellsPerCore && index + TotalCellsPerCore <= Cells.Length
      requires CellsBuilt(Cells, index, position, cellAmount, amountOfCellsPerMainCell, cellSize as real)
      modifies Cells
      ensures next == index + TotalCellsPerCore && tempSubCells == SubCellsOf(ci, amountOfCellsPerMainCell)
      ensures CellsBuilt(Cells, next, position, cellAmount, amountOfCellsPerMainCell, cellSize as real)
    {
      var k := amountOfCellsPerMainCell;
      next, tempSubCells := index, [];
      var a := 0;
      while a < k
        invariant 0 <= a <= k
        invariant next == index + k * (k * a) && tempSubCells == Block(index, next - index)
        invariant CellsBuilt(Cells, next, position, cellAmount, k, cellSize as real)
      {
        SlabInRange(a, k);
        next, tempSubCells := InitializeSlab(ci, a, center, next, tempSubCells);
        a := a + 1;
      }
      assert next == index + TotalCellsPerCore by {
        if k > 0 {
          SlabInRange(0, k);
        }
      }
    }

    /** The b loop for a fixed a: k rows of k cells. */
    method InitializeSlab(ci: int, a: int, center: Float3, index: int, subCells: seq<int>) returns (next: int, tempSubCells: seq<int>)
      requires Valid() && 0 < cellAmount.y && 0 < cellAmount.z
      requires 0 <= ci && center == CoreCenter(position, CoreCoords(ci, cellAmount.y, cellAmount.z), cellAmount, cellSize as real, amountOfCellsPerMainCell)
      requires 0 <= a < amountOfCellsPerMainCell
      requires index == ci * TotalCellsPerCore + amountOfCellsPerMainCell * (amountOfCellsPerMainCell * a)
      requires 0 <= ci * TotalCellsPerCore <= index && index + amountOfCellsPerMainCell * amountOfCellsPerMainCell <= Cells.Length
      requires subCells == Block(ci * TotalCellsPerCore, index - ci * TotalCellsPerCore)
      requires CellsBuilt(Cells, index, position, cellAmount, amountOfCellsPerMainCell, cellSize as real)
      modifies Cells
      ensures next == index + amountOfCellsPerMainCell * amountOfCellsPerMainCell
      ensures tempSubCells == Block(ci * TotalCellsPerCore, next - ci * TotalCellsPerCore)
      ensures CellsBuilt(Cells, next, position, cellAmount, amountOfCellsPerMainCell, cellSize as real)
    {
      var k := amountOfCellsPerMainCell;
      next, tempSubCells := index, subCells;
      var b := 0;
      while b < k
        invariant 0 <= b <= k
        invariant next == index + k * b
        invariant tempSubCells == Block(ci * TotalCellsPerCore, next - ci * TotalCellsPerCore)
        invariant CellsBuilt(Cells, next, position, cellAmount, k, cellSize as real)
      {
        RowBounds(a, b, k);
        next, tempSubCells := InitializeRow(ci, a, b, center, next, tempSubCells);
        b := b + 1;
      }
    }

    /** The c loop for fixed a and b: k cells, appended to the core's list. */
    method InitializeRow(ci: int, a: int, b: int, center: Float3, index: int, subCells: seq<int>) returns (next: int, tempSubCells: seq<int>)
      requires Valid() && 0 < cellAmount.y && 0 < cellAmount.z
      requires 0 <= ci && center == CoreCenter(position, CoreCoords(ci, cellAmount.y, cellAmount.z), cellAmount, cellSize as real, amountOfCellsPerMainCell)
      requires 0 <= a < amountOfCellsPerMainCell && 0 <= b < amountOfCellsPerMainCell
      requires index == ci * TotalCellsPerCore + amountOfCellsPerMainCell * (b + amountOfCellsPerMainCell * a)
      requires 0 <= ci * TotalCellsPerCore <= index && index + amountOfCellsPerMainCell <= Cells.Length
      requires subCells == Block(ci * TotalCellsPerCore, index - ci * TotalCellsPerCore)
      requires CellsBuilt(Cells, index, position, cellAmount, amountOfCellsPerMainCell, cellSize as real)
      modifies Cells
      ensures next == index + amountOfCellsPerMainCell
      ensures tempSubCells == Block(ci * TotalCellsPerCore, next - ci * TotalCellsPerCore)
      ensures CellsBuilt(Cells, next, position, cellAmount, amountOfCellsPerMainCell, cellSize as real)
    {
      var k := amountOfCellsPerMainCell;
      next, tempSubCells := index, subCells;
      var c := 0;
      while c < k
        invariant 0 <= c <= k && next == index + c
        invariant tempSubCells == Block(ci * TotalCellsPerCore, next - ci * TotalCellsPerCore)
        invariant CellsBuilt(Cells, next, position, cellAmount, k, cellSize as real)
      {
        VolumeCellAt(ci, a, b, c, position, cellAmount, k, cellSize as real);
        var subcellCenter := SubCenter(center, Int3(a, b, c), k, cellSize as real);
        var cell := Cell(subcellCenter, next);
        Cells[next] := cell;
        BlockSnoc(ci * TotalCellsPerCore, next - ci * TotalCellsPerCore);
        tempSubCells := tempSubCells + [cell.Index];
        next := next + 1;
        c := c + 1;
      }
    }
  }
}
