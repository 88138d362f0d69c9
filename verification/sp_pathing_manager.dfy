// Assets/SpatialPathfinding/Scripts/PathingManager.cs: the singleton that
// runs the older spatial-pathfinding search on the main thread.  AStar
// snaps both positions, searches over a list queue with fresh records,
// walks the parents back from the last dequeued cell, returns the walked
// centres as an array read back to front (start side first), and clears
// its buffers so the next call starts from an empty queue.

module SpPathingManager {
  import opened Vectors
  import opened Structs
  import opened NeighborRecord
  import opened NearestCell
  import opened Bfs
  import SpCalculationHelper
  import SpAStarJob

  type Volume = SpAStarJob.Volume

  /** System.Array.Reverse: the array read back to front, in place. */
  method ArrayReverse<T>(a: array<T>)
    modifies a
    ensures a[..] == Reverse(old(a[..]))
  {
    var i := 0;
    while i < a.Length / 2
      invariant 0 <= i <= a.Length / 2
      invariant forall k :: 0 <= k < i ==> a[k] == old(a[a.Length - 1 - k])
      invariant forall k :: a.Length - i <= k < a.Length ==> a[k] == old(a[a.Length - 1 - k])
      invariant forall k :: i <= k < a.Length - i ==> a[k] == old(a[k])
    {
      a[i], a[a.Length - 1 - i] := a[a.Length - 1 - i], a[i];
      i := i + 1;
    }
  }

  class PathingManager {
    var openCellsCount: int

    var startingPoint: int
    var currentPoint: int
    var endPoint: int

    var tempData: array<TempData>
    var openCells: seq<int>
    var walkpoints: seq<Float3>

    /** Between two calls of AStar the queue, its count and the walk list are empty. */
    ghost predicate Idle()
      reads this
    {
      openCells == [] && openCellsCount == 0 && walkpoints == []
    }

    /** The field initialisers: counters at 0, empty queue and walk list, no records yet. */
    constructor()
      ensures Idle() && startingPoint == 0 && currentPoint == 0 && endPoint == 0 && tempData.Length == 0
    {
      openCellsCount := 0;
      startingPoint, currentPoint, endPoint := 0, 0, 0;
      tempData := new TempData[0];
      openCells := [];
      walkpoints := [];
    }

    /**
     * One path request: the centres of the search route from the snapped
     * start to the cell the loop stopped on (the snapped goal whenever a
     * slot path reaches it), start excluded and that cell last.  The
     * manager is idle again afterwards, so equal inputs give equal arrays.
     */
    method AStar(initialPos: Float3, targetPos: Float3, targetVolume: Volume) returns (waypoints: array<Float3>)
      requires Idle() && SpAStarJob.SearchVolume(targetVolume, targetPos)
      requires SpAStarJob.CanSnap(targetVolume, initialPos) && SpAStarJob.CanSnap(targetVolume, targetPos)
      modifies this
      ensures Idle() && fresh(waypoints) && fresh(tempData)
      ensures startingPoint == SpAStarJob.Nearest(targetVolume, initialPos)
      ensures endPoint == SpAStarJob.Nearest(targetVolume, targetPos)
      ensures waypoints[..] == Positions(targetVolume.Cells[..], CellPosOf,
                Reverse(SearchWalk(SpAStarJob.Adjacency(targetVolume), SpAStarJob.CostsTo(targetVolume, targetPos),
                                   Fresh(targetVolume.TotalCells), startingPoint, endPoint)))
    {
      FindPoints(initialPos, targetPos, targetVolume);
      NearestCellInRange(targetVolume.Cores[..], targetVolume.Cells[..], CellPosOf, targetVolume.TotalCores,
                         targetVolume.TotalCellsPerCore, initialPos, SpCalculationHelper.CalculateSquaredDistance);
      var points := Route(targetPos, targetVolume);
      waypoints := new Float3[|points|](i requires 0 <= i < |points| => points[i]);
      assert waypoints[..] == points;
      ArrayReverse(waypoints);
      ghost var w := SearchWalk(SpAStarJob.Adjacency(targetVolume), SpAStarJob.CostsTo(targetVolume, targetPos),
                                Fresh(targetVolume.TotalCells), startingPoint, endPoint);
      PositionsReverse(targetVolume.Cells[..], CellPosOf, w);
      ClearBuffers();
    }

    /**
     * AStar after FindPoints, up to SearchOrigin: the centres along the
     * parent chain of the cell the loop stopped on, goal side first.
     */
    method Route(targetPos: Float3, targetVolume: Volume) returns (points: seq<Float3>)
      requires Idle() && SpAStarJob.SearchVolume(targetVolume, targetPos)
      requires 0 <= startingPoint < targetVolume.TotalCells
      modifies this`currentPoint, this`openCellsCount, this`openCells, this`tempData, this`walkpoints
      ensures fresh(tempData) && currentPoint == startingPoint
      ensures tempData[..] == Search(SpAStarJob.Adjacency(targetVolume), SpAStarJob.CostsTo(targetVolume, targetPos),
                                     Fresh(targetVolume.TotalCells), startingPoint, endPoint).0
      ensures points == walkpoints == Positions(targetVolume.Cells[..], CellPosOf,
                SearchWalk(SpAStarJob.Adjacency(targetVolume), SpAStarJob.CostsTo(targetVolume, targetPos),
                           Fresh(targetVolume.TotalCells), startingPoint, endPoint))
    {
      InitializeBuffers(targetVolume);
      MoveToTarget(targetPos, targetVolume);
      ghost var graph, costs := SpAStarJob.Adjacency(targetVolume), SpAStarJob.CostsTo(targetVolume, targetPos);
      ghost var r := Search(graph, costs, Fresh(targetVolume.TotalCells), startingPoint, endPoint);
      SearchRooted(graph, costs, Fresh(targetVolume.TotalCells), startingPoint, endPoint);
      points := SearchOrigin(targetVolume, graph, r.1, r.2);
      assert tempData[..] == r.0;
    }

    /** Snaps the player's and the target's positions to cells of targetVolume. */
    method FindPoints(player: Float3, target: Float3, targetVolume: Volume)
      requires SpAStarJob.CanSnap(targetVolume, player) && SpAStarJob.CanSnap(targetVolume, target)
      modifies this`startingPoint, this`endPoint
      ensures startingPoint == SpAStarJob.Nearest(targetVolume, player)
      ensures endPoint == SpAStarJob.Nearest(targetVolume, target)
    {
      startingPoint := FindNearestCell(player, targetVolume);
      endPoint := FindNearestCell(target, targetVolume);
    }

    /**
     * Allocates zeroed records, marks the start (-1, 1000), appends the
     * start to the queue and reads the front of the queue into currentPoint.
     */
    method InitializeBuffers(targetVolume: Volume)
      requires 0 <= startingPoint < targetVolume.TotalCells == targetVolume.Cells.Length
      modifies this`tempData, this`openCells, this`openCellsCount, this`currentPoint
      ensures fresh(tempData) && tempData[..] == Fresh(targetVolume.TotalCells)[startingPoint := StartMark]
      ensures openCells == old(openCells) + [targetVolume.Cells[startingPoint].Index]
      ensures openCellsCount == old(openCellsCount) + 1 && currentPoint == openCells[0]
    {
      tempData := new TempData[targetVolume.TotalCells](_ => Unreached);
      tempData[startingPoint] := StartMark;

      openCells := openCells + [targetVolume.Cells[startingPoint].Index];
      openCellsCount := openCellsCount + 1;

      currentPoint := openCells[0];
    }

    /**
     * The search loop over the list queue, entered with only the start
     * queued: it ends in the state Search computes, the queue holding the
     * cells queued and not dequeued and its count equal to its length.
     */
    method MoveToTarget(targetPos: Float3, targetVolume: Volume)
      requires SpAStarJob.SearchVolume(targetVolume, targetPos) && 0 <= startingPoint < targetVolume.TotalCells
      requires tempData[..] == Fresh(targetVolume.TotalCells)[startingPoint := StartMark]
      requires openCells == [startingPoint] && openCellsCount == 1 && currentPoint == startingPoint
      modifies this`currentPoint, this`openCellsCount, this`openCells, tempData
      ensures var r := Search(SpAStarJob.Adjacency(targetVolume), SpAStarJob.CostsTo(targetVolume, targetPos),
                              Fresh(targetVolume.TotalCells), startingPoint, endPoint);
        tempData[..] == r.0 && openCells == r.1[r.2..] && openCellsCount == |openCells|
        && currentPoint == LastDequeued(r.1, r.2)
    {
      ghost var graph, costs := SpAStarJob.Adjacency(targetVolume), SpAStarJob.CostsTo(targetVolume, targetPos);
      ghost var td := Fresh(targetVolume.TotalCells);
      InitialInv(graph, costs, td, startingPoint);
      ghost var t, h, head := td[startingPoint := StartMark], [startingPoint], 0;
      ghost var final := Run(graph, costs, t, h, 0, startingPoint, endPoint);
      while currentPoint != endPoint && openCellsCount > 0
        invariant tempData[..] == t && 0 <= head <= |h| && openCells == h[head..] && openCellsCount == |openCells|
        invariant Inv(graph, costs, t, h, head, startingPoint)
        invariant currentPoint == LastDequeued(h, head)
        invariant Run(graph, costs, t, h, head, startingPoint, endPoint) == final
        decreases |t| - |h|, |h| - head
      {
        t, h, head := Iterate(targetPos, targetVolume, graph, costs, t, h, head, final);
      }
    }

    /**
     * The body of the search loop: dequeue the front cell and expand it,
     * moving to the next state of the same run.
     */
    method Iterate(targetPos: Float3, targetVolume: Volume, ghost graph: seq<NeighborData>, ghost costs: seq<real>,
                   ghost t: seq<TempData>, ghost h: seq<int>, ghost head: int,
                   ghost final: (seq<TempData>, seq<int>, int))
        returns (ghost t': seq<TempData>, ghost h': seq<int>, ghost head': int)
      requires SpAStarJob.SearchVolume(targetVolume, targetPos)
      requires graph == SpAStarJob.Adjacency(targetVolume) && costs == SpAStarJob.CostsTo(targetVolume, targetPos)
      requires tempData[..] == t && 0 <= head < |h| && openCells == h[head..] && openCellsCount == |openCells|
      requires Inv(graph, costs, t, h, head, startingPoint)
      requires LastDequeued(h, head) != endPoint
      requires Run(graph, costs, t, h, head, startingPoint, endPoint) == final
      modifies this`currentPoint, this`openCellsCount, this`openCells, tempData
      ensures tempData[..] == t' && 0 <= head' <= |h'| && openCells == h'[head'..] && openCellsCount == |openCells|
      ensures Inv(graph, costs, t', h', head', startingPoint)
      ensures currentPoint == LastDequeued(h', head')
      ensures Run(graph, costs, t', h', head', startingPoint, endPoint) == final
      ensures |t'| == |t| && |h| <= |h'| <= |t| && (|h'| == |h| ==> |h'| - head' < |h| - head)
    {
      QueueStep(h, head, []);
      currentPoint := openCells[0];
      openCells := openCells[1..];
      openCellsCount := openCellsCount - 1;
      ghost var d, q := VisitNeighbors(targetPos, targetVolume, graph, costs, t, currentPoint);
      QueueStep(h, head, q);
      StepExpands(graph, costs, t, h, head, d, q);
      t', h', head' := d, h + q, head + 1;
      RunStep(graph, costs, t, h, head, startingPoint, endPoint, t', h', head');
    }

    /**
     * The six-slot loop over the neighbours of the dequeued cell cur: each
     * non-negative, unmarked neighbour gets cur as parent and its squared
     * distance to targetPos as cost, and is appended to the queue.
     */
    method VisitNeighbors(targetPos: Float3, targetVolume: Volume, ghost graph: seq<NeighborData>,
                          ghost costs: seq<real>, ghost td: seq<TempData>, cur: int)
        returns (ghost d: seq<TempData>, ghost q: seq<int>)
      requires SpAStarJob.SearchVolume(targetVolume, targetPos)
      requires graph == SpAStarJob.Adjacency(targetVolume) && costs == SpAStarJob.CostsTo(targetVolume, targetPos)
      requires tempData[..] == td && |td| == targetVolume.TotalCells && 0 <= cur < |td| && 0 <= openCellsCount
      modifies this`openCellsCount, this`openCells, tempData
      ensures (d, q) == Expand(td, cur, Slots(graph, cur), costs)
      ensures tempData[..] == d && openCells == old(openCells) + q && openCellsCount == old(openCellsCount) + |q|
    {
      ghost var slots := Slots(graph, cur);
      d, q := td, [];
      var neighborData := targetVolume.CellNeighbors[cur];
      assert neighborData == graph[cur];
      var i := 0;
      while i < SlotCount
        invariant 0 <= i <= SlotCount
        invariant (d, q) == Expand(td, cur, slots[..i], costs)
        invariant tempData[..] == d && openCells == old(openCells) + q && openCellsCount == old(openCellsCount) + |q|
      {
        assert slots[..i + 1][..i] == slots[..i] && slots[..i + 1][i] == slots[i];
        var neighborIndex := neighborData.Neighbors[i];
        if neighborIndex < 0 || tempData[neighborIndex].FCost > 0.0 {
        } else {
          assert CellPosOf(targetVolume.Cells[..][neighborIndex]) == targetVolume.Cells[neighborIndex].CellPos;
          var cost := SpCalculationHelper.CalculateSquaredDistance(targetVolume.Cells[neighborIndex].CellPos, targetPos);
          tempData[neighborIndex] := TempData(cur, cost);
          openCells := openCells + [neighborIndex];
          openCellsCount := openCellsCount + 1;
          d, q := d[neighborIndex := TempData(cur, cost)], q + [neighborIndex];
        }
        i := i + 1;
      }
      assert slots[..SlotCount] == slots;
    }

    /**
     * Appends the centres of the cells from currentPoint back along the
     * parents, the start excluded, stops on the start, and returns the
     * walk list.
     */
    method SearchOrigin(targetVolume: Volume, ghost graph: seq<NeighborData>, ghost hist: seq<int>, ghost head: int)
        returns (points: seq<Float3>)
      requires targetVolume.Cells.Length == tempData.Length && Rooted(graph, tempData[..], hist, startingPoint)
      requires 0 <= head <= |hist| && currentPoint == LastDequeued(hist, head)
      modifies this`walkpoints, this`currentPoint
      ensures currentPoint == startingPoint
      ensures points == walkpoints == old(walkpoints) + Positions(targetVolume.Cells[..], CellPosOf,
                                                                   Walk(tempData[..], old(currentPoint), startingPoint, |hist|))
    {
      ghost var td := tempData[..];
      ghost var cur0 := currentPoint;
      ghost var k := if head == 0 then 0 else head - 1;
      ghost var j := k;
      ghost var walked: seq<int> := [];
      var data := tempData[currentPoint];
      while currentPoint != startingPoint
        invariant 0 <= j < |hist| && hist[j] == currentPoint && j + |walked| <= k
        invariant data == tempData[currentPoint]
        invariant InRange(walked, |td|)
        invariant walked + Walk(td, currentPoint, startingPoint, |hist| - |walked|) == Walk(td, cur0, startingPoint, |hist|)
        invariant walkpoints == old(walkpoints) + Positions(targetVolume.Cells[..], CellPosOf, walked)
        decreases j
      {
        ghost var fuel := |hist| - |walked|;
        ghost var next := ParentStep(graph, td, hist, startingPoint, j, fuel);
        WalkSnoc(td, walked, currentPoint, hist[next], startingPoint, fuel);
        PositionsSnoc(targetVolume.Cells[..], CellPosOf, walked, currentPoint);
        assert CellPosOf(targetVolume.Cells[..][currentPoint]) == targetVolume.Cells[currentPoint].CellPos;
        walkpoints := walkpoints + [targetVolume.Cells[currentPoint].CellPos];
        walked := walked + [currentPoint];
        currentPoint := data.ParentIndex;
        j := next;
        data := tempData[currentPoint];
      }
      assert walked + [] == walked;
      points := walkpoints;
    }

    /** The closest core, then the closest of its first TotalCellsPerCore sub-cells. */
    method FindNearestCell(position: Float3, targetVolume: Volume) returns (closestCell: int)
      requires SpAStarJob.CanSnap(targetVolume, position)
      ensures closestCell == SpAStarJob.Nearest(targetVolume, position)
    {
      closestCell := NearestCell.FindNearestCell(targetVolume.Cores[..], targetVolume.Cells[..], CellPosOf,
                                                 targetVolume.TotalCores, targetVolume.TotalCellsPerCore, position,
                                                 SpCalculationHelper.CalculateSquaredDistance);
    }

    /** Empties the queue and the walk list and resets the count; the records are released. */
    method ClearBuffers()
      modifies this`openCellsCount, this`openCells, this`walkpoints
      ensures Idle()
    {
      openCellsCount := 0;

      openCells := [];
      walkpoints := [];
    }
  }
}
