// Cell and core centres of the two-level grid Assets/Scripts/PathingManager.cs
// builds.  cellSize, cellAmount and amountOfCellsPerMainCell are ints, so
// each centring offset is C# integer arithmetic, (dim - 1) / 2 and
// (k - 1) / 2 truncating, added to the float transform position.  On an
// axis with an even count the grid sits half a step off the float-offset
// grid of the Assets/SpatialPathfinding versions.

module ScriptsGrid {
  import opened Vectors
  import opened CellIndex
  import opened Structs
  import opened CoreGrid
  import SpGrid

  /** mainCellCenter on one axis: origin + ((coord - (dim - 1) / 2) * cellSize) * k, all in ints. */
  function CoreCenterAxis(origin: real, coord: int, dim: int, cellSize: int, k: int): real
  {
    origin + (((coord - TruncDiv(dim - 1, 2)) * cellSize) * k) as real
  }

  /** subcellCenter on one axis: core + (a - (k - 1) / 2) * cellSize, all in ints. */
  function SubCenterAxis(core: real, a: int, k: int, cellSize: int): real
  {
    core + ((a - TruncDiv(k - 1, 2)) * cellSize) as real
  }

  function CoreCenter(origin: Float3, p: Int3, amount: Int3, cellSize: int, k: int): Float3
  {
    Float3(CoreCenterAxis(origin.x, p.x, amount.x, cellSize, k),
           CoreCenterAxis(origin.y, p.y, amount.y, cellSize, k),
           CoreCenterAxis(origin.z, p.z, amount.z, cellSize, k))
  }

  function SubCenter(core: Float3, p: Int3, k: int, cellSize: int): Float3
  {
    Float3(SubCenterAxis(core.x, p.x, k, cellSize),
           SubCenterAxis(core.y, p.y, k, cellSize),
           SubCenterAxis(core.z, p.z, k, cellSize))
  }

  /** Core ci of the finished grid. */
  function VolumeCore(ci: int, origin: Float3, amount: Int3, k: int, cellSize: int): GridCore
    requires 0 <= ci && 0 < amount.y && 0 < amount.z && 0 <= k
  {
    GridCore(CoreCenter(origin, CoreCoords(ci, amount.y, amount.z), amount, cellSize, k), SubCellsOf(ci, k))
  }

  /** Cell i of the finished grid: sub-cell i % k^3 of core i / k^3. */
  function VolumeCell(i: int, origin: Float3, amount: Int3, k: int, cellSize: int): Cell
    requires 0 <= i && 0 < amount.y && 0 < amount.z && 0 < k
  {
    var ci := i / PerCore(k);
    var core := CoreCenter(origin, CoreCoords(ci, amount.y, amount.z), amount, cellSize, k);
    Cell(SubCenter(core, SubCoords(i % PerCore(k), k), k, cellSize), i)
  }

  /** cells[start .. start + n) hold the finished grid's first n cells, in counter order. */
  ghost predicate CellsAppended(cells: seq<Cell>, start: int, n: int, origin: Float3, amount: Int3, k: int, cellSize: int)
  {
    && 0 <= start && 0 <= n && |cells| == start + n
    && (0 < amount.y && 0 < amount.z && 0 < k ==>
          forall i :: start <= i < start + n ==> cells[i] == VolumeCell(i - start, origin, amount, k, cellSize))
  }

  /** Array slots cores[0 .. n) hold the finished grid's cores. */
  ghost predicate CoresBuilt(cores: array<GridCore>, n: int, origin: Float3, amount: Int3, k: int, cellSize: int)
    reads cores
  {
    0 < amount.y && 0 < amount.z && 0 <= k ==>
      forall ci :: 0 <= ci < n && ci < cores.Length ==> cores[ci] == VolumeCore(ci, origin, amount, k, cellSize)
  }

  /** The cell the counter reaches at sub-cell (a, b, c) of core ci. */
  lemma VolumeCellAt(ci: int, a: int, b: int, c: int, origin: Float3, amount: Int3, k: int, cellSize: int)
    requires 0 <= ci && 0 < amount.y && 0 < amount.z
    requires 0 <= a < k && 0 <= b < k && 0 <= c < k
    ensures CellNumber(ci, SubNumber(a, b, c, k), k) >= 0
    ensures VolumeCell(CellNumber(ci, SubNumber(a, b, c, k), k), origin, amount, k, cellSize)
         == Cell(SubCenter(CoreCenter(origin, CoreCoords(ci, amount.y, amount.z), amount, cellSize, k), Int3(a, b, c), k, cellSize),
                 CellNumber(ci, SubNumber(a, b, c, k), k))
  {
    SubNumberCoords(a, b, c, k);
    CellNumberSplit(ci, SubNumber(a, b, c, k), k);
    MulLeftMono(PerCore(k), 0, ci);
  }

  /** Twice the truncated half of n - 1: n - 1 when n is odd, n - 2 when n is even. */
  lemma HalfDown(n: int)
    requires 1 <= n
    ensures n % 2 == 1 ==> 2 * TruncDiv(n - 1, 2) == n - 1
    ensures n % 2 == 0 ==> 2 * TruncDiv(n - 1, 2) == n - 2
  {
  }

  /**
   * Against the float offsets of SpGrid: a core centre agrees on an axis
   * with an odd count and lies half a core (cellSize * k / 2) further on
   * an axis with an even count.
   */
  lemma CoreAxisAgainstFloat(origin: real, coord: int, dim: int, cellSize: int, k: int)
    requires 1 <= dim
    ensures CoreCenterAxis(origin, coord, dim, cellSize, k)
         == SpGrid.CoreCenterAxis(origin, coord, dim, cellSize as real, k)
            + (if dim % 2 == 0 then (cellSize * k) as real / 2.0 else 0.0)
  {
    HalfDown(dim);
    var h := TruncDiv(dim - 1, 2);
    var s := (cellSize * k) as real;
    assert (((coord - h) * cellSize) * k) as real == (coord - h) as real * s;
    assert (coord as real - (dim as real - 1.0) / 2.0) * cellSize as real * k as real
        == (coord as real - (dim as real - 1.0) / 2.0) * s;
    if dim % 2 == 0 {
      assert (coord - h) as real == (coord as real - (dim as real - 1.0) / 2.0) + 0.5;
    } else {
      assert (coord - h) as real == coord as real - (dim as real - 1.0) / 2.0;
    }
  }

  /**
   * The same for a sub-cell within its core: it agrees when k is odd and
   * lies half a cell further when k is even.
   */
  lemma SubAxisAgainstFloat(core: real, a: int, k: int, cellSize: int)
    requires 1 <= k
    ensures SubCenterAxis(core, a, k, cellSize)
         == SpGrid.SubCenterAxis(core, a, k, cellSize as real) + (if k % 2 == 0 then cellSize as real / 2.0 else 0.0)
  {
    HalfDown(k);
    var h := TruncDiv(k - 1, 2);
    assert ((a - h) * cellSize) as real == (a - h) as real * cellSize as real;
    if k % 2 == 0 {
      assert (a - h) as real == (a as real - (k as real - 1.0) / 2.0) + 0.5;
    } else {
      assert (a - h) as real == a as real - (k as real - 1.0) / 2.0;
    }
  }

  /**
   * Neighbouring sub-cells along an axis, in one core or across the
   * boundary to the next core, are exactly cellSize apart.
   */
  lemma LatticeStep(origin: real, coord: int, a: int, dim: int, k: int, cellSize: int)
    requires 0 < k && 0 <= a < k
    ensures var next := if a + 1 < k
                        then SubCenterAxis(CoreCenterAxis(origin, coord, dim, cellSize, k), a + 1, k, cellSize)
                        else SubCenterAxis(CoreCenterAxis(origin, coord + 1, dim, cellSize, k), 0, k, cellSize);
      next == SubCenterAxis(CoreCenterAxis(origin, coord, dim, cellSize, k), a, k, cellSize) + cellSize as real
  {
    var hd, hk := TruncDiv(dim - 1, 2), TruncDiv(k - 1, 2);
    var here := ((coord - hd) * cellSize) * k + (a - hk) * cellSize;
    assert SubCenterAxis(CoreCenterAxis(origin, coord, dim, cellSize, k), a, k, cellSize) == origin + here as real;
    if a + 1 < k {
      assert (a + 1 - hk) * cellSize == (a - hk) * cellSize + cellSize;
    } else {
      assert ((coord + 1 - hd) * cellSize) * k == ((coord - hd) * cellSize) * k + cellSize * k;
      assert cellSize * k == (a - hk) * cellSize + cellSize - (0 - hk) * cellSize;
    }
  }
}
