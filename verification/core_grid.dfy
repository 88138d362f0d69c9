// Index arithmetic of the two-level grid built by the older versions.
// The volume holds X*Y*Z cores, built in nested loops over x, then y, then
// z (z fastest); each core holds k*k*k sub-cells, built in nested loops
// over a, then b, then c (c fastest).  A single running counter numbers the
// cells, so the sub-cells of core ci are the contiguous block
// ci*k^3 .. ci*k^3 + k^3 - 1.  The neighbour slots of these grids are
// found by snapping the point one cell step away to the nearest cell.

module CoreGrid {
  import opened Vectors
  import opened CellIndex
  import opened Structs
  import NearestCell
  import SpCalculationHelper

  /** TotalCellsPerCore: k^3 sub-cells per core. */
  function PerCore(k: int): (r: int)
    ensures k >= 0 ==> r >= 0
    ensures k > 0 ==> r >= k
  {
    if k > 0 then (MulAtLeast(k * k, k); MulAtLeast(k, k); k * k * k)
    else k * k * k
  }

  /** The number of the core built at loop position (x, y, z). */
  function CoreNumber(x: int, y: int, z: int, Y: int, Z: int): int
  {
    FlattenIndex(Int3(z, y, x), Z, Y)
  }

  /** The loop position (x, y, z) at which core ci is built. */
  function CoreCoords(ci: int, Y: int, Z: int): Int3
    requires 0 <= ci && 0 < Y && 0 < Z
  {
    var u := Unflatten(ci, Z, Y);
    Int3(u.z, u.y, u.x)
  }

  /** The position of sub-cell (a, b, c) within its core's block. */
  function SubNumber(a: int, b: int, c: int, k: int): int
  {
    FlattenIndex(Int3(c, b, a), k, k)
  }

  /** The loop position (a, b, c) of the s-th sub-cell of a core. */
  function SubCoords(s: int, k: int): Int3
    requires 0 <= s && 0 < k
  {
    var u := Unflatten(s, k, k);
    Int3(u.z, u.y, u.x)
  }

  /** The running counter's value at sub-cell s of core ci. */
  function CellNumber(ci: int, s: int, k: int): int
  {
    ci * PerCore(k) + s
  }

  /** The indices start, start + 1, ..., start + n - 1. */
  function Block(start: int, n: int): (r: seq<int>)
    requires 0 <= n
    ensures |r| == n
  {
    seq(n, j => start + j)
  }

  /** The SubCells array of core ci. */
  function SubCellsOf(ci: int, k: int): (r: seq<int>)
    requires 0 <= k
    ensures |r| == PerCore(k)
  {
    Block(ci * PerCore(k), PerCore(k))
  }

  /** Loop position (x, y, z) and core number determine each other. */
  lemma CoreNumberCoords(x: int, y: int, z: int, X: int, Y: int, Z: int)
    requires 0 <= x < X && 0 <= y < Y && 0 <= z < Z
    ensures 0 <= CoreNumber(x, y, z, Y, Z) < X * Y * Z
    ensures CoreCoords(CoreNumber(x, y, z, Y, Z), Y, Z) == Int3(x, y, z)
  {
    FlattenInRange(Int3(z, y, x), Z, Y, X);
    UnflattenFlatten(Int3(z, y, x), Z, Y, X);
    MulReverse(Z, Y, X);
  }

  /** Every core number below X*Y*Z comes from a loop position in range. */
  lemma CoreCoordsValid(ci: int, X: int, Y: int, Z: int)
    requires 0 <= ci < X * Y * Z && 0 < Y && 0 < Z
    ensures var p := CoreCoords(ci, Y, Z);
      0 <= p.x < X && 0 <= p.y < Y && 0 <= p.z < Z && CoreNumber(p.x, p.y, p.z, Y, Z) == ci
  {
    MulReverse(X, Y, Z);
    UnflattenValid(ci, Z, Y, X);
    FlattenUnflatten(ci, Z, Y);
  }

  /** Sub-cell position (a, b, c) and its number within the block determine each other. */
  lemma SubNumberCoords(a: int, b: int, c: int, k: int)
    requires 0 <= a < k && 0 <= b < k && 0 <= c < k
    ensures 0 <= SubNumber(a, b, c, k) < PerCore(k)
    ensures SubCoords(SubNumber(a, b, c, k), k) == Int3(a, b, c)
  {
    FlattenInRange(Int3(c, b, a), k, k, k);
    UnflattenFlatten(Int3(c, b, a), k, k, k);
  }

  /** The counter splits uniquely into a core number and a sub-cell number. */
  lemma CellNumberSplit(ci: int, s: int, k: int)
    requires 0 < k && 0 <= s < PerCore(k)
    ensures CellNumber(ci, s, k) / PerCore(k) == ci
    ensures CellNumber(ci, s, k) % PerCore(k) == s
  {
    DivModUnique(CellNumber(ci, s, k), PerCore(k), ci, s);
  }

  /** The volume's cell count factors as cores times sub-cells per core. */
  lemma TotalCellsFactor(X: int, Y: int, Z: int, k: int)
    ensures (X * k) * (Y * k) * (Z * k) == (X * Y * Z) * PerCore(k)
    ensures X * k * Y * k * Z * k == (X * Y * Z) * PerCore(k)
  {
    assert X * k * Y == (X * Y) * k;
    assert X * k * Y * k == (X * Y) * (k * k);
    assert X * k * Y * k * Z == (X * Y * Z) * (k * k);
    assert X * k * Y * k * Z * k == (X * Y * Z) * (k * k * k);
    assert (X * k) * (Y * k) == X * k * Y * k;
    assert (X * k) * (Y * k) * (Z * k) == X * k * Y * k * Z * k;
  }

  /**
   * Cell i belongs to the block of core ci exactly when ci is i / k^3: the
   * blocks are disjoint and every cell lies in one of them.
   */
  lemma {:induction false} InBlockIff(i: int, ci: int, k: int)
    requires 0 < k && 0 <= i
    ensures i in SubCellsOf(ci, k) <==> ci == i / PerCore(k)
  {
    var n := PerCore(k);
    if i in SubCellsOf(ci, k) {
      var j :| 0 <= j < n && SubCellsOf(ci, k)[j] == i;
      DivModUnique(i, n, ci, j);
    }
    if ci == i / n {
      assert SubCellsOf(ci, k)[i % n] == i;
    }
  }

  /** Cell i of a grid of cores * k^3 cells belongs to a core that exists. */
  lemma CoreOfCellInRange(i: int, cores: int, k: int)
    requires 0 < k && 0 <= i < cores * PerCore(k)
    ensures 0 <= i / PerCore(k) < cores
  {
    var n := PerCore(k);
    if i / n >= cores {
      MulLeftMono(n, cores, i / n);
      assert false;
    }
  }

  /** The block of core ci lies below cores * k^3 when ci < cores. */
  lemma BlockInRange(ci: int, cores: int, k: int)
    requires 0 <= ci < cores && 0 <= k
    ensures forall j :: 0 <= j < PerCore(k) ==> 0 <= SubCellsOf(ci, k)[j] < cores * PerCore(k)
  {
    MulLeftMono(PerCore(k), ci + 1, cores);
    MulLeftMono(PerCore(k), 0, ci);
  }

  /** Appending the next index to a block extends it by one. */
  lemma BlockSnoc(start: int, n: int)
    requires 0 <= n
    ensures Block(start, n) + [start + n] == Block(start, n + 1)
  {
    var r := Block(start, n) + [start + n];
    forall j | 0 <= j < n + 1
      ensures r[j] == Block(start, n + 1)[j]
    {
      if j < n {
        assert r[j] == Block(start, n)[j];
      }
    }
  }

  /** Slab a of a core (its k*k sub-cells with that a) fits in the core's block. */
  lemma SlabInRange(a: int, k: int)
    requires 0 <= a < k
    ensures 0 <= k * (k * a) && k * (k * a) + k * k <= PerCore(k)
    ensures k * (k * a) + k * k == k * (k * (a + 1))
    ensures k * (k * k) == PerCore(k)
  {
    MulLeftMono(k, a, k - 1);
    assert k * (a + 1) == k * a + k;
    assert k * (k * (a + 1)) == k * (k * a) + k * k;
    MulLeftMono(k, k * (a + 1), k * k);
    MulLeftMono(k, 0, k * a);
    assert k * (k * k) == k * k * k;
  }

  /** Row b of slab a of a core starts at k*(b + k*a) within the block, and its k cells fit in the slab. */
  lemma RowBounds(a: int, b: int, k: int)
    requires 0 <= a < k && 0 <= b < k
    ensures k * (b + k * a) == k * b + k * (k * a)
    ensures 0 <= k * b && k * b + k == k * (b + 1) && k * (b + 1) <= k * k
  {
    MulLeftMono(k, b + 1, k);
    MulLeftMono(k, 0, b);
  }

  /** Column (x, y) of the core loops starts at core Z*(y + Y*x) and its Z cores fit in the volume. */
  lemma ColumnBounds(x: int, y: int, X: int, Y: int, Z: int)
    requires 0 <= x < X && 0 <= y < Y && 0 <= Z
    ensures 0 <= Z * (y + Y * x) && Z * (y + Y * x) + Z <= X * Y * Z
    ensures Z * (y + Y * x) + Z == Z * ((y + 1) + Y * x)
  {
    RowInRange(y, x, Z, Y, X);
    RowNext(y, x, Z, Y);
    MulReverse(X, Y, Z);
    assert Z * Y * X == Z * (Y * X);
  }

  /** After the last layer the counter equals the number of cores. */
  lemma GridEnd(X: int, Y: int, Z: int)
    ensures Z * (Y * X) == X * Y * Z
  {
    MulReverse(X, Y, Z);
    assert Z * Y * X == Z * (Y * X);
  }

  /** The end of core ci's block lies within cores * k^3. */
  lemma CoreBlockEnd(ci: int, cores: int, k: int)
    requires 0 <= ci < cores && 0 <= k
    ensures 0 <= ci * PerCore(k) && ci * PerCore(k) + PerCore(k) <= cores * PerCore(k)
  {
    MulLeftMono(PerCore(k), ci + 1, cores);
    MulLeftMono(PerCore(k), 0, ci);
  }

  /**
   * The cores of a finished two-level grid: core ci holds the block of core
   * ci, and there are k^3 cells per core.
   */
  predicate Blocked(cores: seq<GridCore>, cellCount: int, k: int)
  {
    && 0 <= k
    && cellCount == |cores| * PerCore(k)
    && forall ci :: 0 <= ci < |cores| ==> cores[ci].SubCells == SubCellsOf(ci, k)
  }

  /** On a finished grid every read of the nearest-cell lookup is in bounds. */
  lemma BlocksReadable<C>(cores: seq<GridCore>, cells: seq<C>, k: int, position: Float3, key: (Float3, Float3) -> real)
    requires Blocked(cores, |cells|, k) && 0 < |cells|
    ensures 0 < |cores|
    ensures NearestCell.Readable(cores, cells, |cores|, PerCore(k), position, key)
  {
    var c := NearestCell.ClosestCore(cores, |cores|, position, key);
    BlockInRange(c, |cores|, k);
  }

  /** The block of the core the lookup chooses for position. */
  function ChosenBlock<C>(cores: seq<GridCore>, cells: seq<C>, k: int, position: Float3, key: (Float3, Float3) -> real): (r: seq<int>)
    requires Blocked(cores, |cells|, k) && 0 < |cells|
    ensures |r| == PerCore(k) && forall j :: 0 <= j < |r| ==> 0 <= r[j] < |cells|
  {
    BlocksReadable(cores, cells, k, position, key);
    cores[NearestCell.ClosestCore(cores, |cores|, position, key)].SubCells
  }

  /** The nearest-cell lookup over all cores and all k^3 sub-cells of the chosen one. */
  function NearestInGrid<C>(cores: seq<GridCore>, cells: seq<C>, cellPos: C -> Float3, k: int, position: Float3,
                            key: (Float3, Float3) -> real): int
    requires Blocked(cores, |cells|, k) && 0 < |cells|
  {
    BlocksReadable(cores, cells, k, position, key);
    NearestCell.NearestCellOf(cores, cells, cellPos, |cores|, PerCore(k), position, key)
  }

  /**
   * On a finished grid the lookup always names a cell, and when some
   * sub-cell of the chosen core is closer than float.MaxValue it names one
   * of that core's sub-cells.
   */
  lemma NearestInGridSound<C>(cores: seq<GridCore>, cells: seq<C>, cellPos: C -> Float3, k: int, position: Float3,
                              key: (Float3, Float3) -> real)
    requires Blocked(cores, |cells|, k) && 0 < |cells|
    ensures 0 <= NearestInGrid(cores, cells, cellPos, k, position, key) < |cells|
    ensures var block := ChosenBlock(cores, cells, k, position, key);
      (exists j :: 0 <= j < |block| && key(cellPos(cells[block[j]]), position) < NearestCell.FloatMax)
      ==> NearestInGrid(cores, cells, cellPos, k, position, key) in block
  {
    BlocksReadable(cores, cells, k, position, key);
    NearestCell.NearestCellIsFirstMinimum(cores, cells, cellPos, |cores|, PerCore(k), position, key);
    var block := ChosenBlock(cores, cells, k, position, key);
    var keys := NearestCell.CellKeys(cells, cellPos, block, PerCore(k), position, key);
    assert forall j :: 0 <= j < |block| ==> keys[j] == key(cellPos(cells[block[j]]), position);
  }

  /** The point one cell step from position along direction (direction * (int)cellSize). */
  function StepTarget(position: Float3, direction: Int3, cellSize: int): Float3
  {
    AddFloat3(position, IntToReal3(ScaleInt3(direction, cellSize)))
  }

  /**
   * Slot value of GetNeighbours for one direction: -1 when the box cast
   * hits, otherwise the nearest cell to the point one step away.  There is
   * no bounds check.
   */
  function SnapSlot(cores: seq<GridCore>, cells: seq<Cell>, k: int, position: Float3, direction: Int3,
                    cellSize: int, hit: (Float3, Int3) -> bool): int
    requires Blocked(cores, |cells|, k) && 0 < |cells|
  {
    if hit(position, direction) then -1
    else NearestInGrid(cores, cells, CellPosOf, k, StepTarget(position, direction, cellSize), SpCalculationHelper.CalculateSquaredDistance)
  }

  /** The slots of a record, one per direction. */
  function SnapSlots(cores: seq<GridCore>, cells: seq<Cell>, k: int, position: Float3, directions: seq<Int3>,
                     cellSize: int, hit: (Float3, Int3) -> bool): (r: seq<int>)
    requires Blocked(cores, |cells|, k) && 0 < |cells|
    ensures |r| == |directions|
  {
    seq(|directions|, j requires 0 <= j < |directions| => SnapSlot(cores, cells, k, position, directions[j], cellSize, hit))
  }

  /**
   * A slot is -1 exactly when the cast hits; otherwise it names a cell of
   * the volume, even for an outward step at the volume's boundary, and when
   * some sub-cell distance is below float.MaxValue it is one of the
   * sub-cells of the core the lookup chose.
   */
  lemma SnapSlotSound(cores: seq<GridCore>, cells: seq<Cell>, k: int, position: Float3, direction: Int3,
                      cellSize: int, hit: (Float3, Int3) -> bool)
    requires Blocked(cores, |cells|, k) && 0 < |cells|
    ensures var s := SnapSlot(cores, cells, k, position, direction, cellSize, hit);
      && (s == -1 <==> hit(position, direction))
      && -1 <= s < |cells|
      && (!hit(position, direction) ==>
            var target := StepTarget(position, direction, cellSize);
            var block := ChosenBlock(cores, cells, k, target, SpCalculationHelper.CalculateSquaredDistance);
            (exists j :: 0 <= j < |block| && SpCalculationHelper.CalculateSquaredDistance(cells[block[j]].CellPos, target) < NearestCell.FloatMax)
            ==> s in block)
  {
    var target := StepTarget(position, direction, cellSize);
    NearestInGridSound(cores, cells, CellPosOf, k, target, SpCalculationHelper.CalculateSquaredDistance);
  }
}
