// The com.tecmaid search job.  FindPoints snaps both positions with the
// two-level lookup, InitializeBuffers queues the start in an array queue
// whose head is ClosedCellsCount and whose tail is ClosedCellsCount +
// OpenCellsCount, MoveToTarget is the breadth-first loop of Bfs over that
// queue, and SearchOrigin walks the parents back from the last dequeued
// cell, appending cell centres to WalkPoints.

module PkgAStarJob {
  import opened Vectors
  import PkgStructs
  import opened Structs
  import opened NeighborRecord
  import opened NearestCell
  import opened Bfs
  import PkgCalculationHelper
  import PkgFindNearestCellJob

  function CellPos(cell: PkgStructs.Cell): Float3
  {
    cell.CellPos
  }

  class AStarJob {
    var TotalCells: int
    var TotalCores: int
    var TotalCellsPerCore: int

    var TargetPos: Float3
    var InitialPos: Float3

    var WalkPoints: seq<Float3>

    var Cells: array<PkgStructs.Cell>
    var OpenCells: array<int>
    var Cores: array<GridCore>
    var TempData: array<Structs.TempData>
    var CellNeighbors: array<NeighborData>

    var endPoint: int
    var currentPoint: int
    var startingPoint: int

    var OpenCellsCount: int
    var ClosedCellsCount: int

    /** The job as its creator fills it in; the private fields start at 0. */
    constructor(totalCells: int, totalCores: int, totalCellsPerCore: int, targetPos: Float3, initialPos: Float3,
                walkPoints: seq<Float3>, cells: array<PkgStructs.Cell>, openCells: array<int>, cores: array<GridCore>,
                tempData: array<Structs.TempData>, cellNeighbors: array<NeighborData>)
      ensures TotalCells == totalCells && TotalCores == totalCores && TotalCellsPerCore == totalCellsPerCore
      ensures TargetPos == targetPos && InitialPos == initialPos && WalkPoints == walkPoints
      ensures Cells == cells && OpenCells == openCells && Cores == cores && TempData == tempData
      ensures CellNeighbors == cellNeighbors
      ensures endPoint == 0 && currentPoint == 0 && startingPoint == 0 && OpenCellsCount == 0 && ClosedCellsCount == 0
    {
      TotalCells, TotalCores, TotalCellsPerCore := totalCells, totalCores, totalCellsPerCore;
      TargetPos, InitialPos, WalkPoints := targetPos, initialPos, walkPoints;
      Cells, OpenCells, Cores, TempData, CellNeighbors := cells, openCells, cores, tempData, cellNeighbors;
      endPoint, currentPoint, startingPoint := 0, 0, 0;
      OpenCellsCount, ClosedCellsCount := 0, 0;
    }

    ghost function Adjacency(): seq<NeighborData>
      reads this`CellNeighbors, CellNeighbors
    {
      CellNeighbors[..]
    }

    /** The cost each cell is given when reached: its squared distance to targetPos. */
    ghost function CostsTo(targetPos: Float3): seq<real>
      reads this`Cells, Cells
    {
      Costs(Cells[..], CellPos, targetPos, PkgCalculationHelper.CalculateSquaredDistance)
    }

    /** The snapped cell of position. */
    ghost function Nearest(position: Float3): int
      reads this`Cells, this`Cores, this`TotalCores, this`TotalCellsPerCore, Cells, Cores
      requires NearestCell.Readable(Cores[..], Cells[..], TotalCores, TotalCellsPerCore, position,
                                    PkgCalculationHelper.CalculateSquaredDistance)
    {
      NearestCellOf(Cores[..], Cells[..], CellPos, TotalCores, TotalCellsPerCore, position,
                    PkgCalculationHelper.CalculateSquaredDistance)
    }

    /**
     * What Execute relies on: one record, one adjacency entry and one queue
     * slot per cell, a well-formed adjacency table, cells numbered by their
     * position, zeroed records, both lookups in bounds, and no cell centre
     * exactly on the target (every cost positive).
     */
    ghost predicate Ready()
      reads this, Cells, Cores, TempData, CellNeighbors, OpenCells
    {
      && 0 < TempData.Length && Cells.Length == TempData.Length && CellNeighbors.Length == TempData.Length
      && TempData.Length <= OpenCells.Length
      && Bfs.Graph(CellNeighbors[..]) && Positive(CostsTo(TargetPos))
      && (forall c :: 0 <= c < TempData.Length ==> !Marked(TempData[c]))
      && (forall i :: 0 <= i < Cells.Length ==> Cells[i].Index == i)
      && NearestCell.Readable(Cores[..], Cells[..], TotalCores, TotalCellsPerCore, InitialPos,
                              PkgCalculationHelper.CalculateSquaredDistance)
      && NearestCell.Readable(Cores[..], Cells[..], TotalCores, TotalCellsPerCore, TargetPos,
                              PkgCalculationHelper.CalculateSquaredDistance)
    }

    /**
     * The whole job: snap both positions, search from the start, and append
     * the centres along the parent chain of the last dequeued cell.
     */
    method Execute()
      requires Ready()
      modifies this`startingPoint, this`endPoint, this`currentPoint, this`OpenCellsCount, this`ClosedCellsCount
      modifies this`WalkPoints, TempData, OpenCells
      ensures startingPoint == old(Nearest(InitialPos)) && endPoint == old(Nearest(TargetPos))
      ensures 0 <= startingPoint < TempData.Length
      ensures TempData[..] == Search(old(Adjacency()), old(CostsTo(TargetPos)), old(TempData[..]), startingPoint, endPoint).0
      ensures OpenCells[..|Search(old(Adjacency()), old(CostsTo(TargetPos)), old(TempData[..]), startingPoint, endPoint).1|]
           == Search(old(Adjacency()), old(CostsTo(TargetPos)), old(TempData[..]), startingPoint, endPoint).1
      ensures ClosedCellsCount == Search(old(Adjacency()), old(CostsTo(TargetPos)), old(TempData[..]), startingPoint, endPoint).2
      ensures OpenCellsCount == |Search(old(Adjacency()), old(CostsTo(TargetPos)), old(TempData[..]), startingPoint, endPoint).1|
                              - Search(old(Adjacency()), old(CostsTo(TargetPos)), old(TempData[..]), startingPoint, endPoint).2
      ensures WalkPoints == old(WalkPoints) + Positions(Cells[..], CellPos, SearchWalk(old(Adjacency()),
                              old(CostsTo(TargetPos)), old(TempData[..]), startingPoint, endPoint))
      ensures currentPoint == startingPoint
    {
      ghost var td, graph, costs := TempData[..], Adjacency(), CostsTo(TargetPos);
      FindPoints(InitialPos, TargetPos);
      NearestCellInRange(Cores[..], Cells[..], CellPos, TotalCores, TotalCellsPerCore, InitialPos,
                         PkgCalculationHelper.CalculateSquaredDistance);
      SearchAndWalk(graph, costs, td);
    }

    /** Execute after FindPoints, from the records td, the adjacency table graph and the costs. */
    method SearchAndWalk(ghost graph: seq<NeighborData>, ghost costs: seq<real>, ghost td: seq<Structs.TempData>)
      requires graph == Adjacency() && costs == CostsTo(TargetPos) && td == TempData[..]
      requires Searchable(graph, costs, td, startingPoint)
      requires Cells.Length == TempData.Length && TempData.Length <= OpenCells.Length
      requires forall i :: 0 <= i < Cells.Length ==> Cells[i].Index == i
      modifies this`currentPoint, this`OpenCellsCount, this`ClosedCellsCount, this`WalkPoints, TempData, OpenCells
      ensures TempData[..] == Search(graph, costs, td, startingPoint, endPoint).0
      ensures OpenCells[..|Search(graph, costs, td, startingPoint, endPoint).1|]
           == Search(graph, costs, td, startingPoint, endPoint).1
      ensures ClosedCellsCount == Search(graph, costs, td, startingPoint, endPoint).2
      ensures OpenCellsCount == |Search(graph, costs, td, startingPoint, endPoint).1|
                              - Search(graph, costs, td, startingPoint, endPoint).2
      ensures WalkPoints == old(WalkPoints) + Positions(Cells[..], CellPos, SearchWalk(graph, costs, td, startingPoint, endPoint))
      ensures currentPoint == startingPoint
    {
      InitializeBuffers();
      MoveToTarget(TargetPos, graph, costs, td);
      ghost var r := Search(graph, costs, td, startingPoint, endPoint);
      SearchRooted(graph, costs, td, startingPoint, endPoint);
      ghost var cells, queue := Cells[..], OpenCells[..];
      SearchOrigin(graph, r.1, r.2);
      assert Cells[..] == cells && TempData[..] == r.0 && OpenCells[..] == queue;
    }

    /** Snaps the player's and the target's positions to cells. */
    method FindPoints(player: Float3, target: Float3)
      requires NearestCell.Readable(Cores[..], Cells[..], TotalCores, TotalCellsPerCore, player,
                                    PkgCalculationHelper.CalculateSquaredDistance)
      requires NearestCell.Readable(Cores[..], Cells[..], TotalCores, TotalCellsPerCore, target,
                                    PkgCalculationHelper.CalculateSquaredDistance)
      modifies this`startingPoint, this`endPoint
      ensures startingPoint == Nearest(player) && endPoint == Nearest(target)
    {
      startingPoint := FindNearestCell(player);
      endPoint := FindNearestCell(target);
    }

    /** The closest core, then the closest of its first TotalCellsPerCore sub-cells. */
    method FindNearestCell(position: Float3) returns (closestCell: int)
      requires NearestCell.Readable(Cores[..], Cells[..], TotalCores, TotalCellsPerCore, position,
                                    PkgCalculationHelper.CalculateSquaredDistance)
      ensures closestCell == Nearest(position)
    {
      closestCell := NearestCell.FindNearestCell(Cores[..], Cells[..], CellPos, TotalCores, TotalCellsPerCore, position,
                                                 PkgCalculationHelper.CalculateSquaredDistance);
    }

    /** Marks the start (-1, 1000) and makes it the only queued cell. */
    method InitializeBuffers()
      requires 0 <= startingPoint < TempData.Length && Cells.Length == TempData.Length && 0 < OpenCells.Length
      modifies this`OpenCellsCount, this`ClosedCellsCount, this`currentPoint, TempData, OpenCells
      ensures TempData[..] == old(TempData[..])[startingPoint := StartMark]
      ensures OpenCells[..] == old(OpenCells[..])[0 := Cells[startingPoint].Index]
      ensures OpenCellsCount == 1 && ClosedCellsCount == 0 && currentPoint == Cells[startingPoint].Index
    {
      OpenCellsCount := 0;
      ClosedCellsCount := 0;

      TempData[startingPoint] := StartMark;
      OpenCells[OpenCellsCount] := Cells[startingPoint].Index;
      OpenCellsCount := OpenCellsCount + 1;

      currentPoint := OpenCells[ClosedCellsCount];
    }

    /**
     * The search loop over the array queue, entered as InitializeBuffers
     * leaves it (only the start queued and marked, in records that were
     * zeroed): it ends in the state Search computes.  The ghost parameters
     * name the adjacency table, the costs and the records before
     * InitializeBuffers.
     */
    method MoveToTarget(targetPos: Float3, ghost graph: seq<NeighborData>, ghost costs: seq<real>,
                        ghost td: seq<Structs.TempData>)
      requires graph == Adjacency() && costs == CostsTo(targetPos) && Searchable(graph, costs, td, startingPoint)
      requires Cells.Length == TempData.Length && CellNeighbors.Length == TempData.Length
      requires TempData.Length <= OpenCells.Length
      requires TempData[..] == td[startingPoint := StartMark] && OpenCells[0] == startingPoint
      requires ClosedCellsCount == 0 && OpenCellsCount == 1 && currentPoint == startingPoint
      modifies this`currentPoint, this`OpenCellsCount, this`ClosedCellsCount, TempData, OpenCells
      ensures TempData[..] == Search(graph, costs, td, startingPoint, endPoint).0
      ensures OpenCells[..|Search(graph, costs, td, startingPoint, endPoint).1|]
           == Search(graph, costs, td, startingPoint, endPoint).1
      ensures ClosedCellsCount == Search(graph, costs, td, startingPoint, endPoint).2
      ensures OpenCellsCount == |Search(graph, costs, td, startingPoint, endPoint).1|
                              - Search(graph, costs, td, startingPoint, endPoint).2
      ensures currentPoint == LastDequeued(Search(graph, costs, td, startingPoint, endPoint).1,
                                           Search(graph, costs, td, startingPoint, endPoint).2)
    {
      InitialInv(graph, costs, td, startingPoint);
      ghost var t, h := td[startingPoint := StartMark], [startingPoint];
      assert OpenCells[..1] == h;
      ghost var final := Run(graph, costs, t, h, 0, startingPoint, endPoint);
      while currentPoint != endPoint && OpenCellsCount > 0
        invariant 0 <= ClosedCellsCount && 0 <= OpenCellsCount
        invariant TempData[..] == t && ClosedCellsCount + OpenCellsCount == |h| <= OpenCells.Length && OpenCells[..|h|] == h
        invariant Inv(graph, costs, t, h, ClosedCellsCount, startingPoint)
        invariant currentPoint == LastDequeued(h, ClosedCellsCount)
        invariant Run(graph, costs, t, h, ClosedCellsCount, startingPoint, endPoint) == final
        decreases |t| - |h|, OpenCellsCount
      {
        t, h := Iterate(targetPos, graph, costs, t, h, final);
      }
    }

    /**
     * The body of the search loop, as the loop sees it: from a state
     * satisfying the search invariant, with the loop guard true, it moves
     * to the next state of the same run, and either the history grows (it
     * never outgrows the cell count) or the queue shrinks.
     */
    method Iterate(targetPos: Float3, ghost graph: seq<NeighborData>, ghost costs: seq<real>,
                   ghost t: seq<Structs.TempData>, ghost h: seq<int>, ghost final: (seq<Structs.TempData>, seq<int>, int))
        returns (ghost t': seq<Structs.TempData>, ghost h': seq<int>)
      requires graph == Adjacency() && costs == CostsTo(targetPos)
      requires Cells.Length == TempData.Length && CellNeighbors.Length == TempData.Length
      requires TempData.Length <= OpenCells.Length
      requires 0 <= ClosedCellsCount && 0 < OpenCellsCount
      requires TempData[..] == t && ClosedCellsCount + OpenCellsCount == |h| <= OpenCells.Length && OpenCells[..|h|] == h
      requires Inv(graph, costs, t, h, ClosedCellsCount, startingPoint)
      requires LastDequeued(h, ClosedCellsCount) != endPoint
      requires Run(graph, costs, t, h, ClosedCellsCount, startingPoint, endPoint) == final
      modifies this`currentPoint, this`OpenCellsCount, this`ClosedCellsCount, TempData, OpenCells
      ensures 0 <= ClosedCellsCount && 0 <= OpenCellsCount
      ensures TempData[..] == t' && ClosedCellsCount + OpenCellsCount == |h'| <= OpenCells.Length && OpenCells[..|h'|] == h'
      ensures Inv(graph, costs, t', h', ClosedCellsCount, startingPoint)
      ensures currentPoint == LastDequeued(h', ClosedCellsCount)
      ensures Run(graph, costs, t', h', ClosedCellsCount, startingPoint, endPoint) == final
      ensures |t'| == |t| && |h| <= |h'| <= |t| && (|h'| == |h| ==> OpenCellsCount < old(OpenCellsCount))
    {
      ghost var head := ClosedCellsCount;
      InvRoom(graph, costs, t, h, head, startingPoint);
      Advance(targetPos, graph, costs, t, h, head);
      t', h' := Step(graph, costs, t, h, head).0, Step(graph, costs, t, h, head).1;
      RunStep(graph, costs, t, h, head, startingPoint, endPoint, t', h', ClosedCellsCount);
    }

    /**
     * One turn of the search loop: dequeue the head of the queue and run the
     * six-slot loop over its neighbours, queuing each unmarked one with the
     * dequeued cell as parent and its squared distance to targetPos as cost.
     */
    method Advance(targetPos: Float3, ghost graph: seq<NeighborData>, ghost costs: seq<real>,
                   ghost td: seq<Structs.TempData>, ghost hist: seq<int>, ghost head: int)
      requires graph == Adjacency() && costs == CostsTo(targetPos)
      requires Cells.Length == TempData.Length && CellNeighbors.Length == TempData.Length
      requires TempData.Length <= OpenCells.Length && Graph(graph) && TempData[..] == td
      requires 0 <= head < |hist| && 0 <= hist[head] < |td| && Room(graph, costs, td, hist, head)
      requires ClosedCellsCount == head && 0 <= OpenCellsCount
      requires ClosedCellsCount + OpenCellsCount == |hist| <= OpenCells.Length && OpenCells[..|hist|] == hist
      modifies this`currentPoint, this`OpenCellsCount, this`ClosedCellsCount, TempData, OpenCells
      ensures currentPoint == hist[head] && ClosedCellsCount == head + 1 && 0 <= OpenCellsCount
      ensures TempData[..] == Step(graph, costs, td, hist, head).0
      ensures ClosedCellsCount + OpenCellsCount == |Step(graph, costs, td, hist, head).1| <= OpenCells.Length
      ensures OpenCells[..|Step(graph, costs, td, hist, head).1|] == Step(graph, costs, td, hist, head).1
    {
      currentPoint := OpenCells[ClosedCellsCount];
      assert currentPoint == hist[head];
      ClosedCellsCount := ClosedCellsCount + 1;
      OpenCellsCount := OpenCellsCount - 1;
      ghost var d, q := VisitNeighbors(targetPos, graph, costs, td, hist, head);
      StepExpands(graph, costs, td, hist, head, d, q);
    }

    /**
     * The six-slot loop over the neighbours of currentPoint, the cell just
     * dequeued from position head of the history.
     */
    method VisitNeighbors(targetPos: Float3, ghost graph: seq<NeighborData>, ghost costs: seq<real>,
                          ghost td: seq<Structs.TempData>, ghost hist: seq<int>, ghost head: int)
        returns (ghost d: seq<Structs.TempData>, ghost q: seq<int>)
      requires graph == Adjacency() && costs == CostsTo(targetPos)
      requires Cells.Length == TempData.Length && CellNeighbors.Length == TempData.Length
      requires TempData.Length <= OpenCells.Length && Graph(graph) && TempData[..] == td
      requires 0 <= head < |hist| && hist[head] == currentPoint && 0 <= currentPoint < |td|
      requires Room(graph, costs, td, hist, head)
      requires 0 <= ClosedCellsCount && 0 <= OpenCellsCount
      requires ClosedCellsCount + OpenCellsCount == |hist| <= OpenCells.Length && OpenCells[..|hist|] == hist
      modifies this`OpenCellsCount, TempData, OpenCells
      ensures (d, q) == Expand(td, currentPoint, Slots(graph, currentPoint), costs)
      ensures TempData[..] == d && 0 <= OpenCellsCount && ClosedCellsCount + OpenCellsCount == |hist| + |q|
      ensures |hist| + |q| <= OpenCells.Length && OpenCells[..|hist| + |q|] == hist + q
    {
      ghost var slots := Slots(graph, currentPoint);
      d, q := td, [];
      assert forall m :: 0 <= m <= SlotCount ==> |hist| + |Expand(td, currentPoint, slots[..m], costs).1| <= |td|;
      var neighborData := CellNeighbors[currentPoint];
      assert neighborData == graph[currentPoint];
      var i := 0;
      while i < SlotCount
        invariant 0 <= i <= SlotCount
        invariant (d, q) == Expand(td, currentPoint, slots[..i], costs)
        invariant TempData[..] == d && 0 <= OpenCellsCount && ClosedCellsCount + OpenCellsCount == |hist| + |q|
        invariant OpenCells[..|hist| + |q|] == hist + q
      {
        assert slots[..i + 1][..i] == slots[..i] && slots[..i + 1][i] == slots[i];
        d, q := ExpandSlot(targetPos, neighborData.Neighbors[i], graph, costs, td, hist, slots[..i + 1], d, q);
        i := i + 1;
      }
      assert slots[..SlotCount] == slots;
    }

    /**
     * One pass of the six-slot loop, for the neighbour index neighborIndex
     * read from the last of slots: skip it if negative or already reached,
     * else record currentPoint as its parent with its squared distance to
     * targetPos, and queue it at the tail.
     */
    method ExpandSlot(targetPos: Float3, neighborIndex: int, ghost graph: seq<NeighborData>, ghost costs: seq<real>,
                      ghost td: seq<Structs.TempData>, ghost hist: seq<int>, ghost slots: seq<int>,
                      ghost d: seq<Structs.TempData>, ghost q: seq<int>)
        returns (ghost d': seq<Structs.TempData>, ghost q': seq<int>)
      requires costs == CostsTo(targetPos) && Cells.Length == TempData.Length && TempData.Length <= OpenCells.Length
      requires |costs| == |td| && SlotsInRange(slots, |td|) && 0 < |slots| && slots[|slots| - 1] == neighborIndex
      requires (d, q) == Expand(td, currentPoint, slots[..|slots| - 1], costs)
      requires |hist| + |Expand(td, currentPoint, slots, costs).1| <= |td|
      requires TempData[..] == d && 0 <= ClosedCellsCount && 0 <= OpenCellsCount
      requires ClosedCellsCount + OpenCellsCount == |hist| + |q| && OpenCells[..|hist| + |q|] == hist + q
      modifies this`OpenCellsCount, TempData, OpenCells
      ensures (d', q') == Expand(td, currentPoint, slots, costs)
      ensures TempData[..] == d' && 0 <= OpenCellsCount && ClosedCellsCount + OpenCellsCount == |hist| + |q'|
      ensures OpenCells[..|hist| + |q'|] == hist + q'
    {
      d', q' := d, q;
      if neighborIndex < 0 || TempData[neighborIndex].FCost > 0.0 {
        return;
      }
      assert Cells[..][neighborIndex] == Cells[neighborIndex];
      assert CellPos(Cells[neighborIndex]) == Cells[neighborIndex].CellPos;
      var cost := PkgCalculationHelper.CalculateSquaredDistance(Cells[neighborIndex].CellPos, targetPos);
      assert costs[neighborIndex] == cost;
      TempData[neighborIndex] := Structs.TempData(currentPoint, cost);
      OpenCells[ClosedCellsCount + OpenCellsCount] := neighborIndex;
      OpenCellsCount := OpenCellsCount + 1;
      assert OpenCells[..|hist| + |q| + 1] == OpenCells[..|hist| + |q|] + [neighborIndex];
      d', q' := d[neighborIndex := Structs.TempData(currentPoint, cost)], q + [neighborIndex];
    }

    /**
     * Appends the centres of the cells from currentPoint back along the
     * parents, the start excluded, and stops on the start.
     */
    method SearchOrigin(ghost graph: seq<NeighborData>, ghost hist: seq<int>, ghost head: int)
      requires Cells.Length == TempData.Length && Rooted(graph, TempData[..], hist, startingPoint)
      requires 0 <= head <= |hist| && currentPoint == LastDequeued(hist, head)
      modifies this`WalkPoints, this`currentPoint
      ensures currentPoint == startingPoint
      ensures WalkPoints == old(WalkPoints) + Positions(Cells[..], CellPos, Walk(TempData[..], old(currentPoint), startingPoint, |hist|))
    {
      ghost var k := if head == 0 then 0 else head - 1;
      ghost var td := TempData[..];
      ghost var cur0 := currentPoint;
      ghost var j := k;
      ghost var walked: seq<int> := [];
      var data := TempData[currentPoint];
      while currentPoint != startingPoint
        invariant 0 <= j < |hist| && hist[j] == currentPoint && j + |walked| <= k
        invariant data == TempData[currentPoint]
        invariant InRange(walked, |td|)
        invariant walked + Walk(td, currentPoint, startingPoint, |hist| - |walked|) == Walk(td, cur0, startingPoint, |hist|)
        invariant WalkPoints == old(WalkPoints) + Positions(Cells[..], CellPos, walked)
        decreases j
      {
        ghost var fuel := |hist| - |walked|;
        ghost var next := ParentStep(graph, td, hist, startingPoint, j, fuel);
        WalkSnoc(td, walked, currentPoint, hist[next], startingPoint, fuel);
        PositionsSnoc(Cells[..], CellPos, walked, currentPoint);
        assert CellPos(Cells[..][currentPoint]) == Cells[currentPoint].CellPos;
        WalkPoints := WalkPoints + [Cells[currentPoint].CellPos];
        walked := walked + [currentPoint];
        currentPoint := data.ParentIndex;
        j := next;
        data := TempData[currentPoint];
      }
      assert walked + [] == walked;
    }
  }
}
