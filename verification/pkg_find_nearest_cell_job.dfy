// The com.tecmaid nearest-cell job: the two running minima of the older
// volumes (closest core, then the closest of its first TotalCellsPerCore
// sub-cells) over the com.tecmaid cells, keyed by the com.tecmaid squared
// distance, with the answer left in TargetIndex[0].

module PkgFindNearestCellJob {
  import opened Vectors
  import PkgStructs
  import opened Structs
  import opened NearestCell
  import PkgCalculationHelper

  function PkgCellPos(cell: PkgStructs.Cell): Float3
  {
    cell.CellPos
  }

  /** The chosen core's sub-cells, as the second loop reads them. */
  function ChosenSubCells(cores: seq<GridCore>, totalCores: int, position: Float3): (sub: seq<int>)
    requires 0 <= totalCores <= |cores| && 0 < |cores|
    ensures sub == cores[ClosestCore(cores, totalCores, position, PkgCalculationHelper.CalculateSquaredDistance)].SubCells
  {
    var c := ClosestCore(cores, totalCores, position, PkgCalculationHelper.CalculateSquaredDistance);
    if c < |cores| then cores[c].SubCells else assert false; []
  }

  /**
   * With at least one sub-cell to scan and the first of them closer than
   * float.MaxValue, the answer is one of the chosen core's first
   * TotalCellsPerCore sub-cells, and no earlier one of them is as close.
   */
  lemma ResultInChosenCore(cores: seq<GridCore>, cells: seq<PkgStructs.Cell>, totalCores: int, totalCellsPerCore: int,
                           position: Float3)
    requires Readable(cores, cells, totalCores, totalCellsPerCore, position, PkgCalculationHelper.CalculateSquaredDistance)
    requires 1 <= totalCellsPerCore
    requires PkgCalculationHelper.CalculateSquaredDistance(cells[ChosenSubCells(cores, totalCores, position)[0]].CellPos, position)
             < FloatMax
    ensures var sub := ChosenSubCells(cores, totalCores, position);
      var keys := CellKeys(cells, PkgCellPos, sub, totalCellsPerCore, position, PkgCalculationHelper.CalculateSquaredDistance);
      var result := NearestCellOf(cores, cells, PkgCellPos, totalCores, totalCellsPerCore, position,
                                  PkgCalculationHelper.CalculateSquaredDistance);
      exists m :: 0 <= m < totalCellsPerCore && result == sub[m] && forall j :: 0 <= j < m ==> keys[j] > keys[m]
  {
    var key := PkgCalculationHelper.CalculateSquaredDistance;
    var sub := ChosenSubCells(cores, totalCores, position);
    var keys := CellKeys(cells, PkgCellPos, sub, totalCellsPerCore, position, key);
    assert keys[0] < FloatMax;
    NearestCellIsFirstMinimum(cores, cells, PkgCellPos, totalCores, totalCellsPerCore, position, key);
  }

  class FindNearestCellJob {
    var TotalCells: int
    var TotalCores: int
    var TotalCellsPerCore: int
    var TargetPosition: Float3
    var TargetIndex: array<int>
    var Cells: array<PkgStructs.Cell>
    var Cores: array<GridCore>

    constructor(totalCells: int, totalCores: int, totalCellsPerCore: int, targetPosition: Float3,
                targetIndex: array<int>, cells: array<PkgStructs.Cell>, cores: array<GridCore>)
      ensures TotalCells == totalCells && TotalCores == totalCores && TotalCellsPerCore == totalCellsPerCore
      ensures TargetPosition == targetPosition && TargetIndex == targetIndex && Cells == cells && Cores == cores
    {
      TotalCells, TotalCores, TotalCellsPerCore := totalCells, totalCores, totalCellsPerCore;
      TargetPosition, TargetIndex, Cells, Cores := targetPosition, targetIndex, cells, cores;
    }

    /** The data the two loops read are in range. */
    ghost predicate Readable()
      reads this, Cells, Cores
    {
      NearestCell.Readable(Cores[..], Cells[..], TotalCores, TotalCellsPerCore, TargetPosition,
                           PkgCalculationHelper.CalculateSquaredDistance)
    }

    /** Stores the nearest cell in TargetIndex[0]; Cells and Cores are only read. */
    method Execute()
      requires Readable() && 1 <= TargetIndex.Length
      modifies TargetIndex
      ensures TargetIndex[0] == NearestCellOf(Cores[..], Cells[..], PkgCellPos, TotalCores, TotalCellsPerCore,
                                              TargetPosition, PkgCalculationHelper.CalculateSquaredDistance)
      ensures forall j :: 1 <= j < TargetIndex.Length ==> TargetIndex[j] == old(TargetIndex[j])
    {
      var closest := FindNearestCell(Cores[..], Cells[..], PkgCellPos, TotalCores, TotalCellsPerCore, TargetPosition,
                                     PkgCalculationHelper.CalculateSquaredDistance);
      TargetIndex[0] := closest;
    }
  }
}
