// Assets/Scripts/Jobs/MoveToTargetJob.cs: the search loop of the first
// version, run as a job.  The queue is a growable list; the dequeued cell
// is published through the one-element array CurrentPoint.  The loop
// guard compares the CurrentPoint and EndPoint array handles themselves,
// not the cells they hold: with the two separate allocations the manager
// passes, the guard never stops the loop, which runs until the queue is
// empty.  That is the search of Bfs with a goal no cell can be (-1).

module ScriptsMoveToTargetJob {
  import opened Vectors
  import opened Structs
  import opened NeighborRecord
  import opened Bfs
  import SpCalculationHelper

  /** The goal the loop behaves as if it had: no cell index is negative, so it is never dequeued. */
  const NoGoal: int := -1

  class MoveToTargetJob {
    var TargetPos: Float3

    var CurrentPoint: array<int>
    var EndPoint: array<int>
    var OpenCellsCount: int

    var Cells: seq<Cell>
    var OpenCells: seq<int>
    var TempData: array<TempData>
    var CellNeighbors: array<NeighborData>

    /** The job as the manager fills it in. */
    constructor(targetPos: Float3, currentPoint: array<int>, endPoint: array<int>, openCellsCount: int,
                cells: seq<Cell>, openCells: seq<int>, tempData: array<TempData>, cellNeighbors: array<NeighborData>)
      ensures TargetPos == targetPos && CurrentPoint == currentPoint && EndPoint == endPoint
      ensures OpenCellsCount == openCellsCount && Cells == cells && OpenCells == openCells
      ensures TempData == tempData && CellNeighbors == cellNeighbors
    {
      TargetPos, CurrentPoint, EndPoint, OpenCellsCount := targetPos, currentPoint, endPoint, openCellsCount;
      Cells, OpenCells, TempData, CellNeighbors := cells, openCells, tempData, cellNeighbors;
    }

    ghost function Adjacency(): seq<NeighborData>
      reads this, CellNeighbors
    {
      CellNeighbors[..]
    }

    /** The cost each cell is given when reached: its squared distance to TargetPos. */
    ghost function CostsTo(): seq<real>
      reads this
    {
      Costs(Cells, CellPosOf, TargetPos, SpCalculationHelper.CalculateSquaredDistance)
    }

    /**
     * The state the manager's InitializeBuffers leaves for the job: fresh
     * records with only start marked, start alone in the queue, one record
     * and one adjacency entry per cell, a well-formed adjacency table, no
     * cell centre exactly on the target, and a one-element CurrentPoint.
     */
    ghost predicate Seeded(start: int)
      reads this, TempData, CellNeighbors
    {
      && |Cells| == TempData.Length && CellNeighbors.Length == TempData.Length
      && Graph(Adjacency()) && Positive(CostsTo())
      && 0 <= start < TempData.Length && TempData[..] == Fresh(TempData.Length)[start := StartMark]
      && OpenCells == [start] && OpenCellsCount == 1
      && CurrentPoint.Length == 1
    }

    /**
     * The loop.  With one array passed as both CurrentPoint and EndPoint it
     * does nothing; with two arrays it runs the search until the queue is
     * empty, and CurrentPoint[0] holds the last dequeued cell.
     */
    method Execute(ghost start: int)
      requires Seeded(start)
      modifies this`OpenCellsCount, this`OpenCells, TempData, CurrentPoint
      ensures CurrentPoint == EndPoint ==>
        TempData[..] == old(TempData[..]) && OpenCells == [start] && OpenCellsCount == 1
        && CurrentPoint[..] == old(CurrentPoint[..])
      ensures CurrentPoint != EndPoint ==>
        var r := Search(Adjacency(), CostsTo(), Fresh(TempData.Length), start, NoGoal);
        TempData[..] == r.0 && r.2 == |r.1| && OpenCells == [] && OpenCellsCount == 0
        && CurrentPoint[0] == r.1[|r.1| - 1]
    {
      ghost var graph, costs, td := Adjacency(), CostsTo(), Fresh(TempData.Length);
      InitialInv(graph, costs, td, start);
      ghost var t, h, head := td[start := StartMark], [start], 0;
      ghost var final := Run(graph, costs, t, h, 0, start, NoGoal);
      ghost var cp := CurrentPoint[..];
      while CurrentPoint != EndPoint && OpenCellsCount > 0
        invariant TempData[..] == t && 0 <= head <= |h| && OpenCells == h[head..] && OpenCellsCount == |OpenCells|
        invariant Inv(graph, costs, t, h, head, start)
        invariant CurrentPoint == EndPoint ==> head == 0
        invariant head == 0 ==> t == td[start := StartMark] && h == [start] && CurrentPoint[..] == cp
        invariant head > 0 ==> CurrentPoint[0] == LastDequeued(h, head)
        invariant Run(graph, costs, t, h, head, start, NoGoal) == final
        decreases |t| - |h|, |h| - head
      {
        t, h, head := Iterate(graph, costs, t, h, head, start, final);
      }
      if CurrentPoint != EndPoint {
        assert 0 < head && |h| == head;
      }
    }

    /**
     * The body of the loop: publish and dequeue the front cell, then expand
     * it, moving to the next state of the same run.
     */
    method Iterate(ghost graph: seq<NeighborData>, ghost costs: seq<real>, ghost t: seq<TempData>, ghost h: seq<int>,
                   ghost head: int, ghost start: int, ghost final: (seq<TempData>, seq<int>, int))
        returns (ghost t': seq<TempData>, ghost h': seq<int>, ghost head': int)
      requires |Cells| == TempData.Length && CellNeighbors.Length == TempData.Length && CurrentPoint.Length == 1
      requires graph == Adjacency() && costs == CostsTo()
      requires TempData[..] == t && 0 <= head < |h| && OpenCells == h[head..] && OpenCellsCount == |OpenCells|
      requires Inv(graph, costs, t, h, head, start)
      requires Run(graph, costs, t, h, head, start, NoGoal) == final
      modifies this`OpenCellsCount, this`OpenCells, TempData, CurrentPoint
      ensures TempData[..] == t' && 0 < head' <= |h'| && OpenCells == h'[head'..] && OpenCellsCount == |OpenCells|
      ensures Inv(graph, costs, t', h', head', start)
      ensures CurrentPoint[0] == LastDequeued(h', head')
      ensures Run(graph, costs, t', h', head', start, NoGoal) == final
      ensures |t'| == |t| && |h| <= |h'| <= |t| && (|h'| == |h| ==> |h'| - head' < |h| - head)
    {
      assert LastDequeued(h, head) != NoGoal;
      QueueStep(h, head, []);
      CurrentPoint[0] := OpenCells[0];
      var neighborData := CellNeighbors[CurrentPoint[0]];
      OpenCells := OpenCells[1..];
      OpenCellsCount := OpenCellsCount - 1;
      ghost var d, q := VisitNeighbors(neighborData, graph, costs, t, CurrentPoint[0]);
      QueueStep(h, head, q);
      StepExpands(graph, costs, t, h, head, d, q);
      t', h', head' := d, h + q, head + 1;
      RunStep(graph, costs, t, h, head, start, NoGoal, t', h', head');
    }

    /**
     * The six-slot loop over the record neighborData of the dequeued cell
     * cur: each non-negative, unmarked neighbour gets cur as parent and its
     * squared distance to TargetPos as cost, and is appended to the queue.
     */
    method VisitNeighbors(neighborData: NeighborData, ghost graph: seq<NeighborData>, ghost costs: seq<real>,
                          ghost td: seq<TempData>, cur: int)
        returns (ghost d: seq<TempData>, ghost q: seq<int>)
      requires |Cells| == TempData.Length && CellNeighbors.Length == TempData.Length
      requires graph == Adjacency() && costs == CostsTo() && Graph(graph)
      requires TempData[..] == td && 0 <= cur < |td| && neighborData == graph[cur] && 0 <= OpenCellsCount
      modifies this`OpenCellsCount, this`OpenCells, TempData
      ensures (d, q) == Expand(td, cur, Slots(graph, cur), costs)
      ensures TempData[..] == d && OpenCells == old(OpenCells) + q && OpenCellsCount == old(OpenCellsCount) + |q|
    {
      ghost var slots := Slots(graph, cur);
      d, q := td, [];
      var i := 0;
      while i < SlotCount
        invariant 0 <= i <= SlotCount
        invariant (d, q) == Expand(td, cur, slots[..i], costs)
        invariant TempData[..] == d && OpenCells == old(OpenCells) + q && OpenCellsCount == old(OpenCellsCount) + |q|
      {
        assert slots[..i + 1][..i] == slots[..i] && slots[..i + 1][i] == slots[i];
        var neighborIndex := neighborData.Neighbors[i];
        if neighborIndex < 0 || TempData[neighborIndex].FCost > 0.0 {
        } else {
          var cost := SpCalculationHelper.CalculateSquaredDistance(Cells[neighborIndex].CellPos, TargetPos);
          TempData[neighborIndex] := Structs.TempData(cur, cost);
          OpenCells := OpenCells + [neighborIndex];
          OpenCellsCount := OpenCellsCount + 1;
          d, q := d[neighborIndex := Structs.TempData(cur, cost)], q + [neighborIndex];
        }
        i := i + 1;
      }
      assert slots[..SlotCount] == slots;
    }
  }
}
