// The single-level nearest-cell job of Assets/Scripts: one running minimum
// over every cell's distance to the player, starting from index -1 and
// float.MaxValue, with the answer left in ClosestCell[0].  The distance is
// the engine's math.distance, which is not part of this model: it enters as
// an abstract key.

module ScriptsFindNearestCellJob {
  import opened Vectors
  import opened Structs
  import opened NearestCell

  /** Every cell's distance to the player, in cell order. */
  function DistanceKeys(cells: seq<Cell>, playerPos: Float3, distance: (Float3, Float3) -> real): (r: seq<real>)
    ensures |r| == |cells|
  {
    seq(|cells|, i requires 0 <= i < |cells| => distance(cells[i].CellPos, playerPos))
  }

  /** The index the running minimum settles on. */
  function NearestIndex(cells: seq<Cell>, playerPos: Float3, distance: (Float3, Float3) -> real): int
  {
    Scan(DistanceKeys(cells, playerPos, distance)).0
  }

  /**
   * The result is -1 exactly when no cell is closer than float.MaxValue (in
   * particular when there are no cells); otherwise it is an index of a cell,
   * its distance is at most every cell's distance, and every earlier cell is
   * strictly farther, so ties go to the smallest index.
   */
  lemma NearestIndexIsFirstMinimum(cells: seq<Cell>, playerPos: Float3, distance: (Float3, Float3) -> real)
    ensures var keys := DistanceKeys(cells, playerPos, distance);
      var r := NearestIndex(cells, playerPos, distance);
      && (r == -1 <==> forall j :: 0 <= j < |cells| ==> keys[j] >= FloatMax)
      && (r != -1 ==> 0 <= r < |cells|
                      && (forall j :: 0 <= j < |cells| ==> keys[r] <= keys[j])
                      && (forall j :: 0 <= j < r ==> keys[r] < keys[j]))
  {
    ScanIsFirstMinimum(DistanceKeys(cells, playerPos, distance));
  }

  /** With at least one cell and every distance below float.MaxValue, the answer names a cell. */
  lemma FiniteDistancesGiveACell(cells: seq<Cell>, playerPos: Float3, distance: (Float3, Float3) -> real)
    requires 0 < |cells|
    requires forall j :: 0 <= j < |cells| ==> distance(cells[j].CellPos, playerPos) < FloatMax
    ensures 0 <= NearestIndex(cells, playerPos, distance) < |cells|
  {
    NearestIndexIsFirstMinimum(cells, playerPos, distance);
    var keys := DistanceKeys(cells, playerPos, distance);
    assert keys[0] < FloatMax;
  }

  class FindNearestCellJob {
    var PlayerPos: Float3
    var Cells: array<Cell>
    var ClosestCell: array<int>

    constructor(playerPos: Float3, cells: array<Cell>, closestCell: array<int>)
      ensures PlayerPos == playerPos && Cells == cells && ClosestCell == closestCell
    {
      PlayerPos := playerPos;
      Cells := cells;
      ClosestCell := closestCell;
    }

    /** The running minimum over Cells; only ClosestCell[0] is written. */
    method Execute(distance: (Float3, Float3) -> real)
      requires 1 <= ClosestCell.Length
      modifies ClosestCell
      ensures ClosestCell[0] == NearestIndex(Cells[..], PlayerPos, distance)
      ensures forall j :: 1 <= j < ClosestCell.Length ==> ClosestCell[j] == old(ClosestCell[j])
    {
      ghost var keys := DistanceKeys(Cells[..], PlayerPos, distance);
      var closestCell := -1;
      var best := FloatMax;
      var i := 0;
      while i < Cells.Length
        invariant 0 <= i <= Cells.Length
        invariant (closestCell, best) == Scan(keys[..i])
      {
        var tempDistance := distance(Cells[i].CellPos, PlayerPos);
        assert keys[..i + 1][..i] == keys[..i];
        if tempDistance < best {
          closestCell := i;
          best := tempDistance;
        }
        i := i + 1;
      }
      assert keys[..Cells.Length] == keys;
      ClosestCell[0] := closestCell;
    }
  }
}
