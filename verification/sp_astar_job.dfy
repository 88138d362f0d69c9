// Assets/SpatialPathfinding/Scripts/Jobs/AStarJob.cs: the search job of the
// older spatial-pathfinding version.  It reads the grid from the volume it
// is given, allocates fresh zeroed records in InitializeBuffers, keeps its
// queue in a growable list (dequeue = remove the front, enqueue = append),
// and SearchOrigin appends the centres along the parent chain of the last
// dequeued cell to WalkPoints.

module SpAStarJob {
  import opened Vectors
  import opened Structs
  import opened NeighborRecord
  import opened NearestCell
  import opened Bfs
  import SpCalculationHelper
  import SpNavigationVolume

  type Volume = SpNavigationVolume.NavigationVolume

  /** The adjacency table of a volume. */
  ghost function Adjacency(volume: Volume): seq<NeighborData>
    reads volume, volume.CellNeighbors
  {
    volume.CellNeighbors[..]
  }

  /** The cost each cell of a volume is given when reached: its squared distance to targetPos. */
  ghost function CostsTo(volume: Volume, targetPos: Float3): seq<real>
    reads volume, volume.Cells
  {
    Costs(volume.Cells[..], CellPosOf, targetPos, SpCalculationHelper.CalculateSquaredDistance)
  }

  /** The lookups of a volume can snap position. */
  ghost predicate CanSnap(volume: Volume, position: Float3)
    reads volume, volume.Cells, volume.Cores
  {
    NearestCell.Readable(volume.Cores[..], volume.Cells[..], volume.TotalCores, volume.TotalCellsPerCore, position,
                         SpCalculationHelper.CalculateSquaredDistance)
  }

  /** The snapped cell of position in a volume. */
  ghost function Nearest(volume: Volume, position: Float3): int
    reads volume, volume.Cells, volume.Cores
    requires CanSnap(volume, position)
  {
    NearestCellOf(volume.Cores[..], volume.Cells[..], CellPosOf, volume.TotalCores, volume.TotalCellsPerCore, position,
                  SpCalculationHelper.CalculateSquaredDistance)
  }

  /**
   * A volume a search can run on: one cell and one adjacency record per
   * cell, a well-formed adjacency table, cells numbered by their position,
   * and no cell centre exactly on targetPos (every cost positive).
   */
  ghost predicate SearchVolume(volume: Volume, targetPos: Float3)
    reads volume, volume.Cells, volume.CellNeighbors
  {
    && 0 < volume.TotalCells && volume.Cells.Length == volume.TotalCells
    && volume.CellNeighbors.Length == volume.TotalCells
    && Graph(Adjacency(volume)) && Positive(CostsTo(volume, targetPos))
    && forall i :: 0 <= i < volume.Cells.Length ==> volume.Cells[i].Index == i
  }

  class AStarJob {
    var InitialPos: Float3
    var TargetPos: Float3
    var TargetVolume: Volume
    var TempData: array<TempData>
    var OpenCells: seq<int>
    var WalkPoints: seq<Float3>

    var startingPoint: int
    var currentPoint: int
    var endPoint: int

    var OpenCellsCount: int

    /** The job as its creator fills it in: an empty queue, the other fields at their defaults. */
    constructor(initialPos: Float3, targetPos: Float3, targetVolume: Volume, tempData: array<TempData>,
                walkPoints: seq<Float3>)
      ensures InitialPos == initialPos && TargetPos == targetPos && TargetVolume == targetVolume
      ensures TempData == tempData && WalkPoints == walkPoints
      ensures OpenCells == [] && OpenCellsCount == 0
      ensures startingPoint == 0 && currentPoint == 0 && endPoint == 0
    {
      InitialPos, TargetPos, TargetVolume := initialPos, targetPos, targetVolume;
      TempData, OpenCells, WalkPoints := tempData, [], walkPoints;
      startingPoint, currentPoint, endPoint := 0, 0, 0;
      OpenCellsCount := 0;
    }

    /**
     * The whole job: snap both positions, search from the start with fresh
     * records, and append the centres along the parent chain of the cell
     * the loop stopped on.  The queue keeps what the search left in it.
     */
    method Execute()
      requires SearchVolume(TargetVolume, TargetPos)
      requires CanSnap(TargetVolume, InitialPos) && CanSnap(TargetVolume, TargetPos)
      requires OpenCells == [] && OpenCellsCount == 0
      modifies this`startingPoint, this`endPoint, this`currentPoint, this`OpenCellsCount, this`OpenCells
      modifies this`TempData, this`WalkPoints
      ensures startingPoint == Nearest(TargetVolume, InitialPos) && endPoint == Nearest(TargetVolume, TargetPos)
      ensures 0 <= startingPoint < TargetVolume.TotalCells && fresh(TempData)
      ensures var r := Search(Adjacency(TargetVolume), CostsTo(TargetVolume, TargetPos), Fresh(TargetVolume.TotalCells),
                              startingPoint, endPoint);
        TempData[..] == r.0 && OpenCells == r.1[r.2..] && OpenCellsCount == |OpenCells|
      ensures WalkPoints == old(WalkPoints) + Positions(TargetVolume.Cells[..], CellPosOf,
                SearchWalk(Adjacency(TargetVolume), CostsTo(TargetVolume, TargetPos), Fresh(TargetVolume.TotalCells),
                           startingPoint, endPoint))
      ensures currentPoint == startingPoint
    {
      FindPoints(InitialPos, TargetPos, TargetVolume);
      NearestCellInRange(TargetVolume.Cores[..], TargetVolume.Cells[..], CellPosOf, TargetVolume.TotalCores,
                         TargetVolume.TotalCellsPerCore, InitialPos, SpCalculationHelper.CalculateSquaredDistance);
      SearchAndWalk();
    }

    /** Execute after FindPoints: the search from startingPoint, then the walk back. */
    method SearchAndWalk()
      requires SearchVolume(TargetVolume, TargetPos) && 0 <= startingPoint < TargetVolume.TotalCells
      requires OpenCells == [] && OpenCellsCount == 0
      modifies this`currentPoint, this`OpenCellsCount, this`OpenCells, this`TempData, this`WalkPoints
      ensures fresh(TempData)
      ensures var r := Search(Adjacency(TargetVolume), CostsTo(TargetVolume, TargetPos), Fresh(TargetVolume.TotalCells),
                              startingPoint, endPoint);
        TempData[..] == r.0 && OpenCells == r.1[r.2..] && OpenCellsCount == |OpenCells|
      ensures WalkPoints == old(WalkPoints) + Positions(TargetVolume.Cells[..], CellPosOf,
                SearchWalk(Adjacency(TargetVolume), CostsTo(TargetVolume, TargetPos), Fresh(TargetVolume.TotalCells),
                           startingPoint, endPoint))
      ensures currentPoint == startingPoint
    {
      InitializeBuffers(TargetVolume);
      MoveToTarget(TargetPos, TargetVolume);
      ghost var graph, costs := Adjacency(TargetVolume), CostsTo(TargetVolume, TargetPos);
      ghost var r := Search(graph, costs, Fresh(TargetVolume.TotalCells), startingPoint, endPoint);
      SearchRooted(graph, costs, Fresh(TargetVolume.TotalCells), startingPoint, endPoint);
      ghost var queue := OpenCells;
      SearchOrigin(TargetVolume, graph, r.1, r.2);
      assert TempData[..] == r.0 && OpenCells == queue;
    }

    /** Snaps the player's and the target's positions to cells of targetVolume. */
    method FindPoints(player: Float3, target: Float3, targetVolume: Volume)
      requires CanSnap(targetVolume, player) && CanSnap(targetVolume, target)
      modifies this`startingPoint, this`endPoint
      ensures startingPoint == Nearest(targetVolume, player) && endPoint == Nearest(targetVolume, target)
    {
      startingPoint := FindNearestCell(player, targetVolume);
      endPoint := FindNearestCell(target, targetVolume);
    }

    /**
     * The closest core, then the closest of its first TotalCellsPerCore
     * sub-cells, read from a copy of the core's sub-cell array.
     */
    method FindNearestCell(position: Float3, targetVolume: Volume) returns (closestCell: int)
      requires CanSnap(targetVolume, position)
      ensures closestCell == Nearest(targetVolume, position)
    {
      closestCell := NearestCell.FindNearestCell(targetVolume.Cores[..], targetVolume.Cells[..], CellPosOf,
                                                 targetVolume.TotalCores, targetVolume.TotalCellsPerCore, position,
                                                 SpCalculationHelper.CalculateSquaredDistance);
    }

    /**
     * Allocates zeroed records, marks the start (-1, 1000), appends the
     * start to the queue and reads the front of the queue into
     * currentPoint: the start only if the queue was empty before.
     */
    method InitializeBuffers(targetVolume: Volume)
      requires 0 <= startingPoint < targetVolume.TotalCells == targetVolume.Cells.Length
      modifies this`TempData, this`OpenCells, this`OpenCellsCount, this`currentPoint
      ensures fresh(TempData) && TempData[..] == Fresh(targetVolume.TotalCells)[startingPoint := StartMark]
      ensures OpenCells == old(OpenCells) + [targetVolume.Cells[startingPoint].Index]
      ensures OpenCellsCount == old(OpenCellsCount) + 1 && currentPoint == OpenCells[0]
    {
      TempData := new Structs.TempData[targetVolume.TotalCells](_ => Unreached);
      TempData[startingPoint] := StartMark;

      OpenCells := OpenCells + [targetVolume.Cells[startingPoint].Index];
      OpenCellsCount := OpenCellsCount + 1;

      currentPoint := OpenCells[0];
    }

    /**
     * The search loop over the list queue, entered as InitializeBuffers
     * leaves an empty queue: it ends in the state Search computes, the
     * queue holding the cells queued and not dequeued.
     */
    method MoveToTarget(targetPos: Float3, targetVolume: Volume)
      requires SearchVolume(targetVolume, targetPos) && 0 <= startingPoint < targetVolume.TotalCells
      requires TempData[..] == Fresh(targetVolume.TotalCells)[startingPoint := StartMark]
      requires OpenCells == [startingPoint] && OpenCellsCount == 1 && currentPoint == startingPoint
      modifies this`currentPoint, this`OpenCellsCount, this`OpenCells, TempData
      ensures var r := Search(Adjacency(targetVolume), CostsTo(targetVolume, targetPos), Fresh(targetVolume.TotalCells),
                              startingPoint, endPoint);
        TempData[..] == r.0 && OpenCells == r.1[r.2..] && OpenCellsCount == |OpenCells|
        && currentPoint == LastDequeued(r.1, r.2)
    {
      ghost var graph, costs, td := Adjacency(targetVolume), CostsTo(targetVolume, targetPos), Fresh(targetVolume.TotalCells);
      InitialInv(graph, costs, td, startingPoint);
      ghost var t, h, head := td[startingPoint := StartMark], [startingPoint], 0;
      ghost var final := Run(graph, costs, t, h, 0, startingPoint, endPoint);
      while currentPoint != endPoint && OpenCellsCount > 0
        invariant TempData[..] == t && 0 <= head <= |h| && OpenCells == h[head..] && OpenCellsCount == |OpenCells|
        invariant Inv(graph, costs, t, h, head, startingPoint)
        invariant currentPoint == LastDequeued(h, head)
        invariant Run(graph, costs, t, h, head, startingPoint, endPoint) == final
        decreases |t| - |h|, |h| - head
      {
        t, h, head := Iterate(targetPos, targetVolume, graph, costs, t, h, head, final);
      }
    }

    /**
     * The body of the search loop: dequeue the front cell and expand it.
     * The state moves to the next state of the same run, and either the
     * history grows (never beyond the cell count) or the queue shrinks.
     */
    method Iterate(targetPos: Float3, targetVolume: Volume, ghost graph: seq<NeighborData>, ghost costs: seq<real>,
                   ghost t: seq<Structs.TempData>, ghost h: seq<int>, ghost head: int,
                   ghost final: (seq<Structs.TempData>, seq<int>, int))
        returns (ghost t': seq<Structs.TempData>, ghost h': seq<int>, ghost head': int)
      requires SearchVolume(targetVolume, targetPos)
      requires graph == Adjacency(targetVolume) && costs == CostsTo(targetVolume, targetPos)
      requires TempData[..] == t && 0 <= head < |h| && OpenCells == h[head..] && OpenCellsCount == |OpenCells|
      requires Inv(graph, costs, t, h, head, startingPoint)
      requires LastDequeued(h, head) != endPoint
      requires Run(graph, costs, t, h, head, startingPoint, endPoint) == final
      modifies this`currentPoint, this`OpenCellsCount, this`OpenCells, TempData
      ensures TempData[..] == t' && 0 <= head' <= |h'| && OpenCells == h'[head'..] && OpenCellsCount == |OpenCells|
      ensures Inv(graph, costs, t', h', head', startingPoint)
      ensures currentPoint == LastDequeued(h', head')
      ensures Run(graph, costs, t', h', head', startingPoint, endPoint) == final
      ensures |t'| == |t| && |h| <= |h'| <= |t| && (|h'| == |h| ==> |h'| - head' < |h| - head)
    {
      ghost var q0 := OpenCells;
      QueueStep(h, head, []);
      currentPoint := OpenCells[0];
      OpenCells := OpenCells[1..];
      OpenCellsCount := OpenCellsCount - 1;
      ghost var d, q := VisitNeighbors(targetPos, targetVolume, graph, costs, t, currentPoint);
      QueueStep(h, head, q);
      StepExpands(graph, costs, t, h, head, d, q);
      t', h', head' := d, h + q, head + 1;
      RunStep(graph, costs, t, h, head, startingPoint, endPoint, t', h', head');
    }

    /**
     * The six-slot loop over the neighbours of the dequeued cell cur: each
     * non-negative, unmarked neighbour gets cur as parent and its squared
     * distance to targetPos as cost, and is appended to the queue.
     */
    method VisitNeighbors(targetPos: Float3, targetVolume: Volume, ghost graph: seq<NeighborData>,
                          ghost costs: seq<real>, ghost td: seq<Structs.TempData>, cur: int)
        returns (ghost d: seq<Structs.TempData>, ghost q: seq<int>)
      requires SearchVolume(targetVolume, targetPos)
      requires graph == Adjacency(targetVolume) && costs == CostsTo(targetVolume, targetPos)
      requires TempData[..] == td && |td| == targetVolume.TotalCells && 0 <= cur < |td| && 0 <= OpenCellsCount
      modifies this`OpenCellsCount, this`OpenCells, TempData
      ensures (d, q) == Expand(td, cur, Slots(graph, cur), costs)
      ensures TempData[..] == d && OpenCells == old(OpenCells) + q && OpenCellsCount == old(OpenCellsCount) + |q|
    {
      ghost var slots := Slots(graph, cur);
      d, q := td, [];
      var neighborData := targetVolume.CellNeighbors[cur];
      assert neighborData == graph[cur];
      var i := 0;
      while i < SlotCount
        invariant 0 <= i <= SlotCount
        invariant (d, q) == Expand(td, cur, slots[..i], costs)
        invariant TempData[..] == d && OpenCells == old(OpenCells) + q && OpenCellsCount == old(OpenCellsCount) + |q|
      {
        assert slots[..i + 1][..i] == slots[..i] && slots[..i + 1][i] == slots[i];
        var neighborIndex := neighborData.Neighbors[i];
        if neighborIndex < 0 || TempData[neighborIndex].FCost > 0.0 {
        } else {
          assert CellPosOf(targetVolume.Cells[..][neighborIndex]) == targetVolume.Cells[neighborIndex].CellPos;
          var cost := SpCalculationHelper.CalculateSquaredDistance(targetVolume.Cells[neighborIndex].CellPos, targetPos);
          TempData[neighborIndex] := Structs.TempData(cur, cost);
          OpenCells := OpenCells + [neighborIndex];
          OpenCellsCount := OpenCellsCount + 1;
          d, q := d[neighborIndex := Structs.TempData(cur, cost)], q + [neighborIndex];
        }
        i := i + 1;
      }
      assert slots[..SlotCount] == slots;
    }

    /**
     * Appends the centres of the cells from currentPoint back along the
     * parents, the start excluded, and stops on the start.
     */
    method SearchOrigin(targetVolume: Volume, ghost graph: seq<NeighborData>, ghost hist: seq<int>, ghost head: int)
      requires targetVolume.Cells.Length == TempData.Length && Rooted(graph, TempData[..], hist, startingPoint)
      requires 0 <= head <= |hist| && currentPoint == LastDequeued(hist, head)
      modifies this`WalkPoints, this`currentPoint
      ensures currentPoint == startingPoint
      ensures WalkPoints == old(WalkPoints) + Positions(targetVolume.Cells[..], CellPosOf,
                                                        Walk(TempData[..], old(currentPoint), startingPoint, |hist|))
    {
      ghost var td := TempData[..];
      ghost var cur0 := currentPoint;
      ghost var k := if head == 0 then 0 else head - 1;
      ghost var j := k;
      ghost var walked: seq<int> := [];
      var data := TempData[currentPoint];
      while currentPoint != startingPoint
        invariant 0 <= j < |hist| && hist[j] == currentPoint && j + |walked| <= k
        invariant data == TempData[currentPoint]
        invariant InRange(walked, |td|)
        invariant walked + Walk(td, currentPoint, startingPoint, |hist| - |walked|) == Walk(td, cur0, startingPoint, |hist|)
        invariant WalkPoints == old(WalkPoints) + Positions(targetVolume.Cells[..], CellPosOf, walked)
        decreases j
      {
        ghost var fuel := |hist| - |walked|;
        ghost var next := ParentStep(graph, td, hist, startingPoint, j, fuel);
        WalkSnoc(td, walked, currentPoint, hist[next], startingPoint, fuel);
        PositionsSnoc(targetVolume.Cells[..], CellPosOf, walked, currentPoint);
        assert CellPosOf(targetVolume.Cells[..][currentPoint]) == targetVolume.Cells[currentPoint].CellPos;
        WalkPoints := WalkPoints + [targetVolume.Cells[currentPoint].CellPos];
        walked := walked + [currentPoint];
        currentPoint := data.ParentIndex;
        j := next;
        data := TempData[currentPoint];
      }
      assert walked + [] == walked;
    }
  }
}
