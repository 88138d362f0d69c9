// Assets/Scripts/PathingManager.cs: the first version's manager.  Awake
// sizes the buffers and fills the six directions; Start builds the
// two-level grid by appending cells to a list, counts cores and cells per
// core, and fills every neighbour record by snapping one step along each
// unobstructed direction.  AStar snaps the player and the target, seeds
// the queue with the start, runs MoveToTargetJob, walks the parents back
// from the cell the job dequeued last and clears its buffers again.  The
// job's loop guard never stops on the goal, so the walk starts from the
// last cell the exhausted search dequeued, whatever endPoint is.

module ScriptsPathingManager {
  import opened Vectors
  import opened CellIndex
  import opened Structs
  import opened CoreGrid
  import opened ScriptsGrid
  import opened NeighborRecord
  import opened Directions
  import opened Bfs
  import NearestCell
  import SpCalculationHelper
  import ScriptsMoveToTargetJob

  /**
   * The job MoveToTarget schedules, on two separately allocated
   * one-element arrays.  The job is a struct, so Schedule runs a copy of
   * it: the copy shares the native containers (the last-dequeued buffer,
   * the queue list and the records) but not its scalar fields.  What the
   * manager reads back is the last dequeued cell and the shared queue from
   * the run, and the count from its own struct, still the one passed in;
   * the records end in the state the exhausted search leaves.
   */
  method RunMoveToTargetJob(targetPos: Float3, openCellsCount: int, cells: seq<Cell>, openCells: seq<int>,
                            tempData: array<TempData>, cellNeighbors: array<NeighborData>, ghost start: int)
      returns (currentPoint: int, count: int, queue: seq<int>)
    requires |cells| == tempData.Length == cellNeighbors.Length && Graph(cellNeighbors[..])
    requires Positive(Costs(cells, CellPosOf, targetPos, SpCalculationHelper.CalculateSquaredDistance))
    requires 0 <= start < tempData.Length && tempData[..] == Fresh(tempData.Length)[start := StartMark]
    requires openCells == [start] && openCellsCount == 1
    modifies tempData
    ensures var r := Search(cellNeighbors[..], Costs(cells, CellPosOf, targetPos, SpCalculationHelper.CalculateSquaredDistance),
                            Fresh(tempData.Length), start, ScriptsMoveToTargetJob.NoGoal);
      tempData[..] == r.0 && queue == [] && r.2 == |r.1| && currentPoint == LastDequeued(r.1, r.2)
    ensures count == openCellsCount
  {
    var currentPointBuffer := new int[1];
    var endPointBuffer := new int[1];

    var moveJob := new ScriptsMoveToTargetJob.MoveToTargetJob(targetPos, currentPointBuffer, endPointBuffer, openCellsCount,
                                                               cells, openCells, tempData, cellNeighbors);
    var scheduled := new ScriptsMoveToTargetJob.MoveToTargetJob(moveJob.TargetPos, moveJob.CurrentPoint, moveJob.EndPoint,
                                                                moveJob.OpenCellsCount, moveJob.Cells, moveJob.OpenCells,
                                                                moveJob.TempData, moveJob.CellNeighbors);
    scheduled.Execute(start);

    currentPoint := moveJob.CurrentPoint[0];
    count := moveJob.OpenCellsCount;
    queue := scheduled.OpenCells;
  }

  class PathingManager {
    var cellSize: int
    var cellAmount: Int3
    var amountOfCellsPerMainCell: int
    /** transform.position */
    var position: Float3

    var startingPoint: int
    var currentPoint: int
    var endPoint: int

    var playerPos: Float3
    var targetPos: Float3

    var cells: seq<Cell>
    var openCells: seq<int>
    var walkpoints: seq<Float3>

    var directions: array<Int3>
    var tempData: array<TempData>
    var cellNeighbors: array<NeighborData>

    var cores: array<GridCore>

    var totalCells: int
    var openCellsCount: int

    var totalCores: int
    var totalCellsPerCore: int

    /** The sizes Awake establishes: cellSize at least 1, k and cellAmount unsigned. */
    ghost predicate Valid()
      reads this`cellSize, this`amountOfCellsPerMainCell, this`cellAmount, this`cores, this`totalCells, this`cellNeighbors, this`directions
    {
      && 1 <= cellSize && 0 <= amountOfCellsPerMainCell
      && 0 <= cellAmount.x && 0 <= cellAmount.y && 0 <= cellAmount.z
      && cores.Length == cellAmount.x * cellAmount.y * cellAmount.z
      && totalCells == cores.Length * PerCore(amountOfCellsPerMainCell)
      && cellNeighbors.Length == totalCells && directions.Length == 6
    }

    /** cells and cores hold the finished grid. */
    ghost predicate GridBuilt()
      reads this`cells, this`totalCells, this`position, this`cellAmount, this`amountOfCellsPerMainCell, this`cellSize, this`cores, cores
    {
      && CellsAppended(cells, 0, totalCells, position, cellAmount, amountOfCellsPerMainCell, cellSize)
      && CoresBuilt(cores, cores.Length, position, cellAmount, amountOfCellsPerMainCell, cellSize)
      && Blocked(cores[..], |cells|, amountOfCellsPerMainCell)
    }

    /** The counts Start sets once the grid is built. */
    ghost predicate Counted()
      reads this`totalCores, this`cores, this`totalCellsPerCore, this`amountOfCellsPerMainCell
    {
      totalCores == cores.Length && totalCellsPerCore == PerCore(amountOfCellsPerMainCell)
    }

    /** Every record holds the snapped slots of its cell, one per direction. */
    ghost predicate Linked(hit: (Float3, Int3) -> bool)
      reads this`cellSize, this`amountOfCellsPerMainCell, this`cellAmount, this`cores, this`totalCells, this`cellNeighbors, this`directions, this`cells, this`totalCells, this`position, this`cellAmount, this`amountOfCellsPerMainCell, this`cellSize, this`cores, cores, cellNeighbors, directions
      requires Valid() && GridBuilt()
    {
      0 < totalCells ==>
        forall i :: 0 <= i < totalCells ==>
          cellNeighbors[i] == FromArray(SnapSlots(cores[..], cells, amountOfCellsPerMainCell, cells[i].CellPos,
                                                  directions[..], cellSize, hit))
    }

    /** What Awake and Start leave behind: the grid, its counts, the directions and the records. */
    ghost predicate Ready(hit: (Float3, Int3) -> bool)
      reads this`cellSize, this`amountOfCellsPerMainCell, this`cellAmount, this`cores, this`totalCells, this`cellNeighbors, this`directions, this`cells, this`totalCells, this`position, this`cellAmount, this`amountOfCellsPerMainCell, this`cellSize, this`cores, cores, this`totalCores, this`totalCellsPerCore, cellNeighbors, directions
    {
      Valid() && GridBuilt() && Counted() && directions[..] == AxisDirections() && Linked(hit)
    }

    /** Between two calls of AStar the queue, its count and the walk list are empty. */
    ghost predicate Idle()
      reads this`openCells, this`openCellsCount, this`walkpoints
    {
      openCells == [] && openCellsCount == 0 && walkpoints == []
    }

    /** The cost a cell is given when reached: its squared distance to targetPos. */
    ghost function CostsTo(): seq<real>
      reads this`cells, this`targetPos
    {
      Costs(cells, CellPosOf, targetPos, SpCalculationHelper.CalculateSquaredDistance)
    }

    /** The cell FindNearestCell picks for a position. */
    ghost function Nearest(target: Float3): int
      reads this`cores, cores, this`cells, this`amountOfCellsPerMainCell
      requires Blocked(cores[..], |cells|, amountOfCellsPerMainCell) && 0 < |cells|
    {
      NearestInGrid(cores[..], cells, CellPosOf, amountOfCellsPerMainCell, target,
                    SpCalculationHelper.CalculateSquaredDistance)
    }

    /**
     * Awake: the cell total, empty lists, arrays sized by the totals, and
     * the six directions.
     */
    constructor(cellSize: int, amountOfCellsPerMainCell: int, cellAmount: Int3, position: Float3)
      requires 1 <= cellSize && 0 <= amountOfCellsPerMainCell
      requires 0 <= cellAmount.x && 0 <= cellAmount.y && 0 <= cellAmount.z
      ensures Valid() && Idle() && directions[..] == AxisDirections()
      ensures this.cellSize == cellSize && this.amountOfCellsPerMainCell == amountOfCellsPerMainCell
      ensures this.cellAmount == cellAmount && this.position == position
      ensures totalCells == (cellAmount.x * amountOfCellsPerMainCell) * (cellAmount.y * amountOfCellsPerMainCell)
                            * (cellAmount.z * amountOfCellsPerMainCell)
      ensures cells == [] && totalCores == 0 && totalCellsPerCore == 0
      ensures fresh(cores) && fresh(cellNeighbors) && fresh(directions) && fresh(tempData)
    {
      this.cellSize := cellSize;
      this.amountOfCellsPerMainCell := amountOfCellsPerMainCell;
      this.cellAmount := cellAmount;
      this.position := position;
      var k := amountOfCellsPerMainCell;
      TotalCellsFactor(cellAmount.x, cellAmount.y, cellAmount.z, k);
      var count := (cellAmount.x * k) * (cellAmount.y * k) * (cellAmount.z * k);
      totalCells := count;
      openCells := [];
      walkpoints := [];
      cells := [];
      cores := new GridCore[cellAmount.x * cellAmount.y * cellAmount.z](_ => GridCore(Float3(0.0, 0.0, 0.0), []));
      var axes := new Int3[6](_ => Int3(0, 0, 0));
      directions := axes;
      cellNeighbors := new NeighborData[count](_ => NeighborData(0, []));
      tempData := new TempData[0];
      openCellsCount := 0;
      totalCores := 0;
      totalCellsPerCore := 0;
      startingPoint, currentPoint, endPoint := 0, 0, 0;
      playerPos, targetPos := Float3(0.0, 0.0, 0.0), Float3(0.0, 0.0, 0.0);
      new;
      InitializeDirections();
    }

    /** Writes the six axis directions, +z, -z, +x, -x, +y, -y. */
    method InitializeDirections()
      requires directions.Length == 6
      modifies directions
      ensures directions[..] == AxisDirections()
    {
      FillAxisDirections(directions);
    }

    /** Start: build the grid, count cores and cells per core, then fill every record. */
    method Start(hit: (Float3, Int3) -> bool)
      requires Valid() && cells == [] && directions[..] == AxisDirections()
      modifies this`cells, cores, this`totalCores, this`totalCellsPerCore, cellNeighbors
      ensures Ready(hit)
    {
      InitializeGrid();
      totalCores := cores.Length;
      var k := amountOfCellsPerMainCell;
      totalCellsPerCore := k * k * k;
      GetAllCellNeighbors(hit);
    }

    /**
     * Once the records are filled, every cell has six slots, each -1 or
     * the index of a cell: the table is a graph the search can run on.
     */
    lemma ReadyGraph(hit: (Float3, Int3) -> bool)
      requires Ready(hit)
      ensures Graph(cellNeighbors[..])
    {
      if 0 < totalCells {
        forall c, i | 0 <= c < totalCells && 0 <= i < SlotCount
          ensures cellNeighbors[c].Neighbors[i] < totalCells
        {
          SnapSlotSound(cores[..], cells, amountOfCellsPerMainCell, cells[c].CellPos, directions[i], cellSize, hit);
        }
      }
    }

    /**
     * One path request.  The walk list it fills is cleared at its end, so
     * what remains is the snapped start and goal, currentPoint back on the
     * start, and an idle manager; the walk itself is stated by Route.
     */
    method AStar(player: Float3, target: Float3)
      requires Valid() && GridBuilt() && Counted() && Graph(cellNeighbors[..]) && Idle() && 0 < totalCells
      requires Positive(Costs(cells, CellPosOf, target, SpCalculationHelper.CalculateSquaredDistance))
      modifies this`playerPos, this`targetPos, this`startingPoint, this`endPoint, this`currentPoint
      modifies this`tempData, this`openCells, this`openCellsCount, this`walkpoints
      ensures Idle() && playerPos == player && targetPos == target
      ensures startingPoint == Nearest(player) && endPoint == Nearest(target) && currentPoint == startingPoint
    {
      FindPoints(player, target);
      var points := Route();
    }

    /**
     * AStar after FindPoints: the walk SearchOrigin lists, the centres
     * along the parent chain of the last cell the exhausted search
     * dequeued, that cell first and the start excluded; ClearBuffers then
     * leaves the manager idle.
     */
    method Route() returns (points: seq<Float3>)
      requires Valid() && GridBuilt() && Idle()
      requires Searchable(cellNeighbors[..], CostsTo(), Fresh(totalCells), startingPoint)
      modifies this`currentPoint, this`tempData, this`openCells, this`openCellsCount, this`walkpoints
      ensures fresh(tempData) && currentPoint == startingPoint && Idle()
      ensures tempData[..] == Search(cellNeighbors[..], CostsTo(), Fresh(totalCells), startingPoint, ScriptsMoveToTargetJob.NoGoal).0
      ensures points
           == Positions(cells, CellPosOf, SearchWalk(cellNeighbors[..], CostsTo(), Fresh(totalCells), startingPoint,
                                                     ScriptsMoveToTargetJob.NoGoal))
    {
      ghost var graph, costs := cellNeighbors[..], CostsTo();
      InitializeBuffers();
      MoveToTarget();
      assert cellNeighbors[..] == graph && CostsTo() == costs;
      ghost var r := Search(graph, costs, Fresh(totalCells), startingPoint, ScriptsMoveToTargetJob.NoGoal);
      SearchRooted(graph, costs, Fresh(totalCells), startingPoint, ScriptsMoveToTargetJob.NoGoal);
      points := SearchOrigin(graph, r.1, r.2);
      assert tempData[..] == r.0;
      ClearBuffers();
    }

    /** Records the two positions and snaps them to cells. */
    method FindPoints(player: Float3, target: Float3)
      requires Valid() && GridBuilt() && Counted() && 0 < totalCells
      modifies this`playerPos, this`targetPos, this`startingPoint, this`endPoint
      ensures playerPos == player && targetPos == target
      ensures startingPoint == Nearest(player) && endPoint == Nearest(target)
      ensures 0 <= startingPoint < totalCells && 0 <= endPoint < totalCells
    {
      playerPos := player;
      targetPos := target;

      startingPoint := FindNearestCell(playerPos);
      endPoint := FindNearestCell(targetPos);
    }

    /**
     * Allocates zeroed records, marks the start (-1, 1000), appends the
     * start's Index to the queue and reads the front of the queue into
     * currentPoint.
     */
    method InitializeBuffers()
      requires Valid() && GridBuilt() && 0 <= startingPoint < totalCells
      modifies this`tempData, this`openCells, this`openCellsCount, this`currentPoint
      ensures fresh(tempData) && tempData[..] == Fresh(totalCells)[startingPoint := StartMark]
      ensures openCells == old(openCells) + [startingPoint]
      ensures openCellsCount == old(openCellsCount) + 1 && currentPoint == openCells[0]
    {
      tempData := new TempData[totalCells](_ => Unreached);
      tempData[startingPoint] := StartMark;

      assert cells[startingPoint].Index == startingPoint;
      openCells := openCells + [cells[startingPoint].Index];
      openCellsCount := openCellsCount + 1;

      currentPoint := openCells[0];
    }

    /**
     * Runs the job on two separately allocated one-element arrays, so the
     * job's loop runs until the queue is empty, then reads back the
     * records, the last dequeued cell and the count.  The queue list is
     * shared with the job, so it comes back empty; the count belongs to
     * the manager's copy of the job, so it comes back as it went in.
     */
    method MoveToTarget()
      requires Valid() && Graph(cellNeighbors[..]) && |cells| == totalCells && Positive(CostsTo())
      requires 0 <= startingPoint < totalCells && tempData[..] == Fresh(totalCells)[startingPoint := StartMark]
      requires openCells == [startingPoint] && openCellsCount == 1
      modifies this`currentPoint, this`openCellsCount, this`openCells, tempData
      ensures var r := Search(cellNeighbors[..], CostsTo(), Fresh(totalCells), startingPoint, ScriptsMoveToTargetJob.NoGoal);
        tempData[..] == r.0 && openCells == [] && r.2 == |r.1| && currentPoint == LastDequeued(r.1, r.2)
      ensures openCellsCount == old(openCellsCount)
    {
      currentPoint, openCellsCount, openCells :=
        RunMoveToTargetJob(targetPos, openCellsCount, cells, openCells, tempData, cellNeighbors, startingPoint);
    }

    /**
     * Appends the centres of the cells from currentPoint back along the
     * parents, the start excluded, stops on the start, and returns the
     * walk list.
     */
    method SearchOrigin(ghost graph: seq<NeighborData>, ghost hist: seq<int>, ghost head: int) returns (points: seq<Float3>)
      requires |cells| == tempData.Length && Rooted(graph, tempData[..], hist, startingPoint)
      requires 0 <= head <= |hist| && currentPoint == LastDequeued(hist, head)
      modifies this`walkpoints, this`currentPoint
      ensures currentPoint == startingPoint
      ensures points == walkpoints
           == old(walkpoints) + Positions(cells, CellPosOf, Walk(tempData[..], old(currentPoint), startingPoint, |hist|))
    {
      ghost var td := tempData[..];
      ghost var cur0 := currentPoint;
      ghost var k := if head == 0 then 0 else head - 1;
      ghost var j := k;
      ghost var walked: seq<int> := [];
      var data := tempData[currentPoint];
      while currentPoint != startingPoint
        invariant 0 <= j < |hist| && hist[j] == currentPoint && j + |walked| <= k
        invariant data == tempData[currentPoint]
        invariant InRange(walked, |td|)
        invariant walked + Walk(td, currentPoint, startingPoint, |hist| - |walked|) == Walk(td, cur0, startingPoint, |hist|)
        invariant walkpoints == old(walkpoints) + Positions(cells, CellPosOf, walked)
        decreases j
      {
        ghost var fuel := |hist| - |walked|;
        ghost var next := ParentStep(graph, td, hist, startingPoint, j, fuel);
        WalkSnoc(td, walked, currentPoint, hist[next], startingPoint, fuel);
        PositionsSnoc(cells, CellPosOf, walked, currentPoint);
        walkpoints := walkpoints + [cells[currentPoint].CellPos];
        walked := walked + [currentPoint];
        currentPoint := data.ParentIndex;
        j := next;
        data := tempData[currentPoint];
      }
      assert walked + [] == walked;
      points := walkpoints;
    }

    /** Empties the walk list and the queue and resets the count; the records are released. */
    method ClearBuffers()
      modifies this`walkpoints, this`openCells, this`openCellsCount
      ensures Idle()
    {
      walkpoints := [];
      openCells := [];
      openCellsCount := 0;
    }

    /** Two running minima: the closest core, then the closest of its sub-cells. */
    method FindNearestCell(target: Float3) returns (closestCell: int)
      requires Valid() && GridBuilt() && Counted() && 0 < totalCells
      ensures closestCell == Nearest(target) && 0 <= closestCell < totalCells
    {
      BlocksReadable(cores[..], cells, amountOfCellsPerMainCell, target, SpCalculationHelper.CalculateSquaredDistance);
      NearestInGridSound(cores[..], cells, CellPosOf, amountOfCellsPerMainCell, target,
                         SpCalculationHelper.CalculateSquaredDistance);
      closestCell := NearestCell.FindNearestCell(cores[..], cells, CellPosOf, totalCores, totalCellsPerCore, target,
                                                 SpCalculationHelper.CalculateSquaredDistance);
    }

    /** Writes the record of every cell, each from that cell's own centre. */
    method GetAllCellNeighbors(hit: (Float3, Int3) -> bool)
      requires Valid() && GridBuilt() && Counted()
      modifies cellNeighbors
      ensures Linked(hit)
    {
      var i := 0;
      while i < totalCells
        invariant 0 <= i <= totalCells
        invariant forall j :: 0 <= j < i ==>
          cellNeighbors[j] == FromArray(SnapSlots(cores[..], cells, amountOfCellsPerMainCell, cells[j].CellPos,
                                                  directions[..], cellSize, hit))
      {
        GetNeighbours(cells[i].CellPos, i, hit);
        i := i + 1;
      }
    }

    /**
     * Fills the record of cell index: -1 where the ray cast from pos along
     * a direction hits, otherwise the cell nearest one step away.
     */
    method GetNeighbours(pos: Float3, index: int, hit: (Float3, Int3) -> bool)
      requires Valid() && GridBuilt() && Counted()
      requires 0 <= index < totalCells
      modifies cellNeighbors
      ensures cellNeighbors[index]
           == FromArray(SnapSlots(cores[..], cells, amountOfCellsPerMainCell, pos, directions[..], cellSize, hit))
      ensures forall i :: 0 <= i < cellNeighbors.Length && i != index ==> cellNeighbors[i] == old(cellNeighbors[i])
    {
      var neighbors := new int[6];
      var i := 0;
      while i < 6
        invariant 0 <= i <= 6
        invariant unchanged(cellNeighbors)
        invariant forall j :: 0 <= j < i ==>
          neighbors[j] == SnapSlot(cores[..], cells, amountOfCellsPerMainCell, pos, directions[j], cellSize, hit)
      {
        if !hit(pos, directions[i]) {
          var targetCellIndex := FindNearestCell(StepTarget(pos, directions[i], cellSize));
          neighbors[i] := targetCellIndex;
        } else {
          neighbors[i] := -1;
        }
        i := i + 1;
      }
      assert neighbors[..] == SnapSlots(cores[..], cells, amountOfCellsPerMainCell, pos, directions[..], cellSize, hit);
      cellNeighbors[index] := FromArray(neighbors[..]);
    }

    /** Finished cores hold their blocks. */
    lemma CoresBlocked()
      requires Valid() && |cells| == totalCells
      requires CoresBuilt(cores, cores.Length, position, cellAmount, amountOfCellsPerMainCell, cellSize)
      ensures Blocked(cores[..], |cells|, amountOfCellsPerMainCell)
    {
      if 0 < cellAmount.y && 0 < cellAmount.z {
        forall ci | 0 <= ci < cores.Length
          ensures cores[..][ci].SubCells == SubCellsOf(ci, amountOfCellsPerMainCell)
        {
          assert cores[ci] == VolumeCore(ci, position, cellAmount, amountOfCellsPerMainCell, cellSize);
        }
      } else {
        assert cores.Length == 0;
      }
    }

    /**
     * Appends every core's block of sub-cells to cells, numbering them with
     * a counter that starts at 0, and stores every core.  On the empty list
     * Awake leaves, cells[i].Index == i.
     */
    method InitializeGrid()
      requires Valid()
      modifies this`cells, cores
      ensures old(cells) <= cells
      ensures CellsAppended(cells, |old(cells)|, totalCells, position, cellAmount, amountOfCellsPerMainCell, cellSize)
      ensures CoresBuilt(cores, cores.Length, position, cellAmount, amountOfCellsPerMainCell, cellSize)
      ensures old(cells) == [] ==> GridBuilt()
    {
      ghost var start := |cells|;
      var index := 0;
      var coreIndex := 0;
      var x := 0;
      while x < cellAmount.x
        invariant 0 <= x <= cellAmount.x
        invariant coreIndex == cellAmount.z * (cellAmount.y * x) && index == coreIndex * PerCore(amountOfCellsPerMainCell)
        invariant old(cells) <= cells
        invariant CellsAppended(cells, start, index, position, cellAmount, amountOfCellsPerMainCell, cellSize)
        invariant CoresBuilt(cores, coreIndex, position, cellAmount, amountOfCellsPerMainCell, cellSize)
      {
        coreIndex, index := InitializeSlice(x, coreIndex, index, start);
        x := x + 1;
      }
      GridFinished(start, index, coreIndex);
    }

    /** At the end of the x loop every core is stored, and on an empty start list the grid is built. */
    lemma GridFinished(start: int, index: int, coreIndex: int)
      requires Valid()
      requires coreIndex == cellAmount.z * (cellAmount.y * cellAmount.x)
      requires index == coreIndex * PerCore(amountOfCellsPerMainCell)
      requires CellsAppended(cells, start, index, position, cellAmount, amountOfCellsPerMainCell, cellSize)
      requires CoresBuilt(cores, coreIndex, position, cellAmount, amountOfCellsPerMainCell, cellSize)
      ensures index == totalCells
      ensures CoresBuilt(cores, cores.Length, position, cellAmount, amountOfCellsPerMainCell, cellSize)
      ensures start == 0 ==> GridBuilt()
    {
      assert coreIndex == cores.Length;
      if start == 0 {
        CoresBlocked();
      }
    }

    /** The y loop at loop position x: Y columns of cores. */
    method InitializeSlice(x: int, coreIndex: int, index: int, ghost start: int) returns (nextCore: int, nextIndex: int)
      requires Valid()
      requires 0 <= x < cellAmount.x
      requires coreIndex == cellAmount.z * (cellAmount.y * x)
      requires index == coreIndex * PerCore(amountOfCellsPerMainCell)
      requires CellsAppended(cells, start, index, position, cellAmount, amountOfCellsPerMainCell, cellSize)
      requires CoresBuilt(cores, coreIndex, position, cellAmount, amountOfCellsPerMainCell, cellSize)
      modifies this`cells, cores
      ensures nextCore == cellAmount.z * (cellAmount.y * (x + 1)) && nextIndex == nextCore * PerCore(amountOfCellsPerMainCell)
      ensures old(cells) <= cells
      ensures CellsAppended(cells, start, nextIndex, position, cellAmount, amountOfCellsPerMainCell, cellSize)
      ensures CoresBuilt(cores, nextCore, position, cellAmount, amountOfCellsPerMainCell, cellSize)
    {
      nextCore, nextIndex := coreIndex, index;
      var y := 0;
      while y < cellAmount.y
        invariant 0 <= y <= cellAmount.y
        invariant nextCore == cellAmount.z * (y + cellAmount.y * x) && nextIndex == nextCore * PerCore(amountOfCellsPerMainCell)
        invariant old(cells) <= cells
        invariant CellsAppended(cells, start, nextIndex, position, cellAmount, amountOfCellsPerMainCell, cellSize)
        invariant CoresBuilt(cores, nextCore, position, cellAmount, amountOfCellsPerMainCell, cellSize)
      {
        ColumnBounds(x, y, cellAmount.x, cellAmount.y, cellAmount.z);
        nextCore, nextIndex := InitializeColumn(x, y, nextCore, nextIndex, start);
        y := y + 1;
      }
      LayerNext(x, cellAmount.z, cellAmount.y);
    }

    /** The z loop at loop position (x, y): Z cores and their cells. */
    method InitializeColumn(x: int, y: int, coreIndex: int, index: int, ghost start: int) returns (nextCore: int, nextIndex: int)
      requires Valid()
      requires 0 <= x < cellAmount.x && 0 <= y < cellAmount.y
      requires coreIndex == cellAmount.z * (y + cellAmount.y * x) && 0 <= coreIndex
      requires coreIndex + cellAmount.z <= cores.Length
      requires index == coreIndex * PerCore(amountOfCellsPerMainCell)
      requires CellsAppended(cells, start, index, position, cellAmount, amountOfCellsPerMainCell, cellSize)
      requires CoresBuilt(cores, coreIndex, position, cellAmount, amountOfCellsPerMainCell, cellSize)
      modifies this`cells, cores
      ensures nextCore == coreIndex + cellAmount.z && nextIndex == nextCore * PerCore(amountOfCellsPerMainCell)
      ensures old(cells) <= cells
      ensures CellsAppended(cells, start, nextIndex, position, cellAmount, amountOfCellsPerMainCell, cellSize)
      ensures CoresBuilt(cores, nextCore, position, cellAmount, amountOfCellsPerMainCell, cellSize)
    {
      var k := amountOfCellsPerMainCell;
      nextCore, nextIndex := coreIndex, index;
      var z := 0;
      while z < cellAmount.z
        invariant 0 <= z <= cellAmount.z
        invariant nextCore == coreIndex + z && nextIndex == nextCore * PerCore(k)
        invariant old(cells) <= cells
        invariant CellsAppended(cells, start, nextIndex, position, cellAmount, k, cellSize)
        invariant CoresBuilt(cores, nextCore, position, cellAmount, k, cellSize)
      {
        CoreNumberCoords(x, y, z, cellAmount.x, cellAmount.y, cellAmount.z);
        CoreBlockEnd(nextCore, cores.Length, k);
        var mainCellCenter := CoreCenter(position, Int3(x, y, z), cellAmount, cellSize, k);
        var tempSubCells;
        nextIndex, tempSubCells := InitializeCore(nextCore, mainCellCenter, nextIndex, start);
        cores[nextCore] := GridCore(mainCellCenter, tempSubCells);
        assert (nextCore + 1) * PerCore(k) == nextIndex;
        nextCore := nextCore + 1;
        z := z + 1;
      }
    }

    /** The a loop of one core: its k^3 cells, and the list of their indices. */
    method InitializeCore(ci: int, center: Float3, index: int, ghost start: int) returns (next: int, tempSubCells: seq<int>)
      requires Valid() && 0 < cellAmount.y && 0 < cellAmount.z
      requires 0 <= ci && center == CoreCenter(position, CoreCoords(ci, cellAmount.y, cellAmount.z), cellAmount, cellSize, amountOfCellsPerMainCell)
      requires index == ci * PerCore(amountOfCellsPerMainCell)
      requires CellsAppended(cells, start, index, position, cellAmount, amountOfCellsPerMainCell, cellSize)
      modifies this`cells
      ensures next == index + PerCore(amountOfCellsPerMainCell) && tempSubCells == SubCellsOf(ci, amountOfCellsPerMainCell)
      ensures old(cells) <= cells
      ensures CellsAppended(cells, start, next, position, cellAmount, amountOfCellsPerMainCell, cellSize)
    {
      var k := amountOfCellsPerMainCell;
      next, tempSubCells := index, [];
      var a := 0;
      while a < k
        invariant 0 <= a <= k
        invariant next == index + k * (k * a) && tempSubCells == Block(index, next - index)
        invariant old(cells) <= cells
        invariant CellsAppended(cells, start, next, position, cellAmount, k, cellSize)
      {
        SlabInRange(a, k);
        next, tempSubCells := InitializeSlab(ci, a, center, next, tempSubCells, start);
        a := a + 1;
      }
      if 0 < k {
        SlabInRange(0, k);
      } else {
        assert PerCore(k) == 0;
      }
    }

    /** The b loop for a fixed a: k rows of k cells. */
    method InitializeSlab(ci: int, a: int, center: Float3, index: int, subCells: seq<int>, ghost start: int)
      returns (next: int, tempSubCells: seq<int>)
      requires Valid() && 0 < cellAmount.y && 0 < cellAmount.z
      requires 0 <= ci && center == CoreCenter(position, CoreCoords(ci, cellAmount.y, cellAmount.z), cellAmount, cellSize, amountOfCellsPerMainCell)
      requires 0 <= a < amountOfCellsPerMainCell
      requires index == ci * PerCore(amountOfCellsPerMainCell) + amountOfCellsPerMainCell * (amountOfCellsPerMainCell * a)
      requires 0 <= ci * PerCore(amountOfCellsPerMainCell) <= index
      requires subCells == Block(ci * PerCore(amountOfCellsPerMainCell), index - ci * PerCore(amountOfCellsPerMainCell))
      requires CellsAppended(cells, start, index, position, cellAmount, amountOfCellsPerMainCell, cellSize)
      modifies this`cells
      ensures next == index + amountOfCellsPerMainCell * amountOfCellsPerMainCell
      ensures tempSubCells == Block(ci * PerCore(amountOfCellsPerMainCell), next - ci * PerCore(amountOfCellsPerMainCell))
      ensures old(cells) <= cells
      ensures CellsAppended(cells, start, next, position, cellAmount, amountOfCellsPerMainCell, cellSize)
    {
      var k := amountOfCellsPerMainCell;
      next, tempSubCells := index, subCells;
      var b := 0;
      while b < k
        invariant 0 <= b <= k
        invariant next == index + k * b
        invariant tempSubCells == Block(ci * PerCore(k), next - ci * PerCore(k))
        invariant old(cells) <= cells
        invariant CellsAppended(cells, start, next, position, cellAmount, k, cellSize)
      {
        RowBounds(a, b, k);
        next, tempSubCells := InitializeRow(ci, a, b, center, next, tempSubCells, start);
        b := b + 1;
      }
    }

    /** The c loop for fixed a and b: k cells, appended to cells and to the core's list. */
    method InitializeRow(ci: int, a: int, b: int, center: Float3, index: int, subCells: seq<int>, ghost start: int)
      returns (next: int, tempSubCells: seq<int>)
      requires Valid() && 0 < cellAmount.y && 0 < cellAmount.z
      requires 0 <= ci && center == CoreCenter(position, CoreCoords(ci, cellAmount.y, cellAmount.z), cellAmount, cellSize, amountOfCellsPerMainCell)
      requires 0 <= a < amountOfCellsPerMainCell && 0 <= b < amountOfCellsPerMainCell
      requires index == ci * PerCore(amountOfCellsPerMainCell) + amountOfCellsPerMainCell * (b + amountOfCellsPerMainCell * a)
      requires 0 <= ci * PerCore(amountOfCellsPerMainCell) <= index
      requires subCells == Block(ci * PerCore(amountOfCellsPerMainCell), index - ci * PerCore(amountOfCellsPerMainCell))
      requires CellsAppended(cells, start, index, position, cellAmount, amountOfCellsPerMainCell, cellSize)
      modifies this`cells
      ensures next == index + amountOfCellsPerMainCell
      ensures tempSubCells == Block(ci * PerCore(amountOfCellsPerMainCell), next - ci * PerCore(amountOfCellsPerMainCell))
      ensures old(cells) <= cells
      ensures CellsAppended(cells, start, next, position, cellAmount, amountOfCellsPerMainCell, cellSize)
    {
      var k := amountOfCellsPerMainCell;
      next, tempSubCells := index, subCells;
      var c := 0;
      while c < k
        invariant 0 <= c <= k && next == index + c
        invariant tempSubCells == Block(ci * PerCore(k), next - ci * PerCore(k))
        invariant old(cells) <= cells
        invariant CellsAppended(cells, start, next, position, cellAmount, k, cellSize)
      {
        VolumeCellAt(ci, a, b, c, position, cellAmount, k, cellSize);
        var subcellCenter := SubCenter(center, Int3(a, b, c), k, cellSize);
        var cell := Cell(subcellCenter, next);
        cells := cells + [cell];
        BlockSnoc(ci * PerCore(k), next - ci * PerCore(k));
        tempSubCells := tempSubCells + [cell.Index];
        next := next + 1;
        c := c + 1;
      }
    }
  }
}
