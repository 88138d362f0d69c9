// Packages/com.tecmaid.spatialpathfinding/Runtime/Volume/NavigationVolume.cs:
// the com.tecmaid navigation volume.  Awake sizes the cell and neighbour
// arrays, InitializeGrid numbers the cells with x fastest, and GetNeighbours
// fills each cell's six slots from its 3D index: a slot names the adjacent
// cell when that cell is inside the grid and the obstacle cast along the
// direction reports no hit, and holds -1 otherwise.
//
// Physics.BoxCast is the parameter `hit`: hit(position, direction) is true
// when the box cast from position along direction over one cell hits a
// collider.  The cast's other arguments are fixed per volume.

module PkgNavigationVolume {
  import opened Vectors
  import opened CellIndex
  import opened PkgStructs
  import opened NeighborRecord
  import opened Directions
  import opened BoundingBoxChecker
  import PkgInitializeGridJob

  /** Default grid size and cell size of a new volume. */
  const DefaultGridSize: Int3 := Int3(25, 8, 25)
  const DefaultCellSize: int := 3

  /**
   * Slot of one direction: the flat index of the adjacent cell when it lies
   * inside the grid and the cast reports no hit, and -1 otherwise.  The
   * bounds test comes first, so a slot that leaves the grid is -1 whatever
   * the cast would report.
   */
  function Slot(cell: Cell, position: Float3, direction: Int3, w: int, h: int, d: int,
                hit: (Float3, Int3) -> bool): int
  {
    var target := AddInt3(cell.Index3D, direction);
    if CheckIfIndexValid(target, w, h, d) && !hit(position, direction) then FlattenIndex(target, w, h) else -1
  }

  /** The six slots of a cell, in the order of the directions array. */
  function NeighborSlots(cell: Cell, position: Float3, directions: seq<Int3>, w: int, h: int, d: int,
                         hit: (Float3, Int3) -> bool): (r: seq<int>)
    requires |directions| == SlotCount
    ensures |r| == SlotCount
  {
    seq(SlotCount, j requires 0 <= j < SlotCount => Slot(cell, position, directions[j], w, h, d, hit))
  }

  /** A slot that leaves the grid is -1 whatever the obstacle cast reports. */
  lemma SlotOutsideIgnoresCast(cell: Cell, position: Float3, direction: Int3, w: int, h: int, d: int,
                               hit1: (Float3, Int3) -> bool, hit2: (Float3, Int3) -> bool)
    requires !CheckIfIndexValid(AddInt3(cell.Index3D, direction), w, h, d)
    ensures Slot(cell, position, direction, w, h, d, hit1) == -1
    ensures Slot(cell, position, direction, w, h, d, hit1) == Slot(cell, position, direction, w, h, d, hit2)
  {
  }

  /**
   * A slot is either -1 or the flat index of a cell of the grid whose 3D
   * index is the cell's own moved by the direction; with a unit axis
   * direction the two 3D indices differ by one along exactly one axis.
   */
  lemma SlotSound(cell: Cell, position: Float3, direction: Int3, w: int, h: int, d: int,
                  hit: (Float3, Int3) -> bool)
    requires 0 < w && 0 < h
    ensures var s := Slot(cell, position, direction, w, h, d, hit);
      s == -1 || (0 <= s < w * h * d && Unflatten(s, w, h) == AddInt3(cell.Index3D, direction))
    ensures Slot(cell, position, direction, w, h, d, hit) >= 0 <==>
      CheckIfIndexValid(AddInt3(cell.Index3D, direction), w, h, d) && !hit(position, direction)
  {
    var target := AddInt3(cell.Index3D, direction);
    if CheckIfIndexValid(target, w, h, d) {
      FlattenInRange(target, w, h, d);
      UnflattenFlatten(target, w, h, d);
    }
  }

  /**
   * On a grid built by InitializeGrid the cell a slot names lies exactly
   * one cellSize from the cell along the slot's direction: the arithmetic
   * adjacency lands where the older versions' nearest-cell lookup at
   * position + direction * cellSize aims.
   */
  lemma SlotGeometry(index: int, direction: Int3, w: int, h: int, d: int, origin: Float3, cellSize: real,
                     hit: (Float3, Int3) -> bool)
    requires 0 <= index < w * h * d && 0 < w && 0 < h
    ensures var cell := PkgInitializeGridJob.GridCell(index, w, h, d, origin, cellSize);
      var s := Slot(cell, cell.CellPos, direction, w, h, d, hit);
      s >= 0 ==> (PkgInitializeGridJob.GridCell(s, w, h, d, origin, cellSize).CellPos ==
                  AddFloat3(cell.CellPos, ScaleFloat3(IntToReal3(direction), cellSize)))
  {
    var cell := PkgInitializeGridJob.GridCell(index, w, h, d, origin, cellSize);
    var s := Slot(cell, cell.CellPos, direction, w, h, d, hit);
    if s >= 0 {
      SlotSound(cell, cell.CellPos, direction, w, h, d, hit);
      var target := AddInt3(cell.Index3D, direction);
      assert Unflatten(s, w, h) == target;
      assert PkgInitializeGridJob.GridCell(s, w, h, d, origin, cellSize).CellPos
          == PkgInitializeGridJob.CellCenter(origin, target, w, h, d, cellSize);
      CenterMove(origin, cell.Index3D, direction, w, h, d, cellSize);
    }
  }

  /** Moving a 3D index by a direction moves its centre by direction * cellSize. */
  lemma CenterMove(origin: Float3, i3: Int3, direction: Int3, w: int, h: int, d: int, cellSize: real)
    ensures PkgInitializeGridJob.CellCenter(origin, AddInt3(i3, direction), w, h, d, cellSize)
         == AddFloat3(PkgInitializeGridJob.CellCenter(origin, i3, w, h, d, cellSize),
                      ScaleFloat3(IntToReal3(direction), cellSize))
  {
    PkgInitializeGridJob.CenterShift(origin.x, i3.x, direction.x, w, cellSize);
    PkgInitializeGridJob.CenterShift(origin.y, i3.y, direction.y, h, cellSize);
    PkgInitializeGridJob.CenterShift(origin.z, i3.z, direction.z, d, cellSize);
  }

  /** A volume's end of a NavigationLink: the volume it leads to and its partner sub-link. */
  class NavigationSubLink {
    const Position: Float3
    var LinkedVolume: NavigationVolume?
    var NeighborLink: NavigationSubLink?

    constructor (position: Float3)
      ensures Position == position && LinkedVolume == null && NeighborLink == null
    {
      Position := position;
      LinkedVolume := null;
      NeighborLink := null;
    }
  }

  class NavigationVolume {
    var TotalCells: int
    var VolumeWidth: int
    var VolumeHeight: int
    var VolumeDepth: int
    const DetectionBox: Bounds
    var Links: seq<NavigationSubLink>
    var gridSize: Int3
    var cellSize: int
    var position: Float3
    var Cells: array<Cell>
    var CellNeighbors: array<NeighborData>
    var directions: array<Int3>
    var tempNeighbors: array<int>
    var directionCount: int

    /** The sizes and arrays every operation relies on. */
    ghost predicate Valid()
      reads this
    {
      0 <= VolumeWidth && 0 <= VolumeHeight && 0 <= VolumeDepth &&
      TotalCells == VolumeWidth * VolumeHeight * VolumeDepth &&
      Cells.Length == TotalCells && CellNeighbors.Length == TotalCells &&
      directions.Length == SlotCount && tempNeighbors.Length == SlotCount &&
      0 <= directionCount <= SlotCount
    }

    /**
     * Field initialisers and Awake: the grid size is read as three
     * non-negative integers, TotalCells is their product, and Cells and
     * CellNeighbors get exactly TotalCells entries.
     */
    constructor (gridSize: Int3, cellSize: int, position: Float3, detectionBox: Bounds)
      requires 0 <= gridSize.x && 0 <= gridSize.y && 0 <= gridSize.z && 0 <= cellSize
      ensures Valid()
      ensures VolumeWidth == gridSize.x && VolumeHeight == gridSize.y && VolumeDepth == gridSize.z
      ensures TotalCells == gridSize.x * gridSize.y * gridSize.z
      ensures this.gridSize == gridSize && this.cellSize == cellSize && this.position == position
      ensures DetectionBox == detectionBox && Links == [] && directionCount == 0
      ensures fresh(Cells) && fresh(CellNeighbors) && fresh(directions) && fresh(tempNeighbors)
    {
      this.gridSize := gridSize;
      this.cellSize := cellSize;
      this.position := position;
      Links := [];
      directions := new Int3[SlotCount];
      tempNeighbors := new int[SlotCount];
      directionCount := 0;
      VolumeWidth := gridSize.x;
      VolumeHeight := gridSize.y;
      VolumeDepth := gridSize.z;
      TotalCells := gridSize.x * gridSize.y * gridSize.z;
      Cells := new Cell[gridSize.x * gridSize.y * gridSize.z];
      CellNeighbors := new NeighborData[gridSize.x * gridSize.y * gridSize.z];
      DetectionBox := detectionBox;
    }

    /** Sets the six axis directions, +z, -z, +x, -x, +y, -y, and directionCount to 6. */
    method InitializeDirections()
      requires Valid()
      modifies directions, this`directionCount
      ensures Valid()
      ensures directions[..] == AxisDirections() && directionCount == SlotCount
    {
      FillAxisDirections(directions);
      directionCount := directions.Length;
    }

    /**
     * Writes Cells[x + W * (y + H * z)] for every cell (x, y, z), with that
     * slot as Index, (x, y, z) as Index3D and its centre; every slot of the
     * array is written exactly once.
     */
    method InitializeGrid()
      requires Valid()
      modifies Cells
      ensures Valid()
      ensures 0 < VolumeWidth && 0 < VolumeHeight ==>
        forall i :: 0 <= i < TotalCells ==>
          Cells[i] == PkgInitializeGridJob.GridCell(i, VolumeWidth, VolumeHeight, VolumeDepth, position, cellSize as real)
    {
      var w, h, d := VolumeWidth, VolumeHeight, VolumeDepth;
      var size := cellSize as real;
      var index := 0;
      var z := 0;
      while z < d
        invariant 0 <= z <= d
        invariant index == w * (h * z)
        invariant PkgInitializeGridJob.Built(Cells, index, w, h, d, position, size)
      {
        var y := 0;
        while y < h
          invariant 0 <= y <= h
          invariant index == w * (y + h * z)
          invariant PkgInitializeGridJob.Built(Cells, index, w, h, d, position, size)
        {
          RowInRange(y, z, w, h, d);
          index := InitializeRow(y, z, index);
          assert w + w * (y + h * z) == w * ((y + 1) + h * z);
          y := y + 1;
        }
        assert w * (h + h * z) == w * (h * (z + 1));
        z := z + 1;
      }
      assert w * (h * d) == w * h * d;
    }

    /** The innermost x loop of InitializeGrid: the W cells of row (y, z), starting at slot index. */
    method InitializeRow(y: int, z: int, index: int) returns (next: int)
      requires Valid()
      requires 0 <= y < VolumeHeight && 0 <= z < VolumeDepth
      requires index == VolumeWidth * (y + VolumeHeight * z) && 0 <= index
      requires index + VolumeWidth <= Cells.Length
      requires PkgInitializeGridJob.Built(Cells, index, VolumeWidth, VolumeHeight, VolumeDepth, position, cellSize as real)
      modifies Cells
      ensures next == index + VolumeWidth
      ensures PkgInitializeGridJob.Built(Cells, next, VolumeWidth, VolumeHeight, VolumeDepth, position, cellSize as real)
    {
      var w, h, d := VolumeWidth, VolumeHeight, VolumeDepth;
      var size := cellSize as real;
      next := index;
      var x := 0;
      while x < w
        invariant 0 <= x <= w
        invariant next == index + x
        invariant PkgInitializeGridJob.Built(Cells, next, w, h, d, position, size)
      {
        var i3 := Int3(x, y, z);
        PkgInitializeGridJob.GridCellOf(i3, w, h, d, position, size);
        var mainCellCenter := PkgInitializeGridJob.CellCenter(position, i3, w, h, d, size);
        Cells[next] := Cell(mainCellCenter, next, i3);
        next := next + 1;
        x := x + 1;
      }
    }

    /**
     * Fills tempNeighbors[0 .. directionCount) with the slots of cell index
     * (seen from position) and stores a copy of all six entries as the
     * cell's neighbour record; no other record changes.
     */
    method GetNeighbours(index: int, position: Float3, hit: (Float3, Int3) -> bool)
      requires Valid() && 0 <= index < TotalCells
      modifies tempNeighbors, CellNeighbors
      ensures Valid()
      ensures forall j :: 0 <= j < directionCount ==>
        tempNeighbors[j] == Slot(Cells[index], position, directions[j], VolumeWidth, VolumeHeight, VolumeDepth, hit)
      ensures forall j :: directionCount <= j < SlotCount ==> tempNeighbors[j] == old(tempNeighbors[j])
      ensures CellNeighbors[index] == NeighborData(SlotCount, tempNeighbors[..])
      ensures forall k :: 0 <= k < CellNeighbors.Length && k != index ==> CellNeighbors[k] == old(CellNeighbors[k])
    {
      var i := 0;
      while i < directionCount
        invariant 0 <= i <= directionCount
        invariant forall j :: 0 <= j < i ==>
          tempNeighbors[j] == Slot(Cells[index], position, directions[j], VolumeWidth, VolumeHeight, VolumeDepth, hit)
        invariant forall j :: i <= j < SlotCount ==> tempNeighbors[j] == old(tempNeighbors[j])
        invariant forall k :: 0 <= k < CellNeighbors.Length ==> CellNeighbors[k] == old(CellNeighbors[k])
      {
        var target := AddInt3(Cells[index].Index3D, directions[i]);
        if CheckIfIndexValid(target, VolumeWidth, VolumeHeight, VolumeDepth) && !hit(position, directions[i]) {
          var targetCellIndex := FlattenIndex(target, VolumeWidth, VolumeHeight);
          tempNeighbors[i] := targetCellIndex;
        } else {
          tempNeighbors[i] := -1;
        }
        i := i + 1;
      }
      var data := NewNeighborData(tempNeighbors);
      CellNeighbors[index] := data;
    }

    /**
     * With the directions initialised, gives every cell i the record of its
     * six slots seen from its own centre.
     */
    method GetAllCellNeighbors(hit: (Float3, Int3) -> bool)
      requires Valid() && directionCount == SlotCount
      modifies tempNeighbors, CellNeighbors
      ensures Valid()
      ensures forall i :: 0 <= i < TotalCells ==>
        CellNeighbors[i] == NeighborData(SlotCount,
          NeighborSlots(Cells[i], Cells[i].CellPos, directions[..], VolumeWidth, VolumeHeight, VolumeDepth, hit))
    {
      var i := 0;
      while i < TotalCells
        invariant Valid() && 0 <= i <= TotalCells
        invariant forall k :: 0 <= k < i ==>
          CellNeighbors[k] == NeighborData(SlotCount,
            NeighborSlots(Cells[k], Cells[k].CellPos, directions[..], VolumeWidth, VolumeHeight, VolumeDepth, hit))
      {
        GetNeighbours(i, Cells[i].CellPos, hit);
        assert tempNeighbors[..] ==
          NeighborSlots(Cells[i], Cells[i].CellPos, directions[..], VolumeWidth, VolumeHeight, VolumeDepth, hit);
        i := i + 1;
      }
    }
  }
}
