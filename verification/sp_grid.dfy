// Cell and core centres of the two-level grid in the
// Assets/SpatialPathfinding versions, where the centring offsets are
// floating-point: a core sits at origin + (x - (X-1)/2) * cellSize * k on
// each axis and its sub-cell (a, b, c) at the core centre
// + (a - (k-1)/2) * cellSize.  Positions are exact reals here.

module SpGrid {
  import opened Vectors
  import opened CellIndex
  import opened Structs
  import opened CoreGrid
  import PkgInitializeGridJob

  function CoreCenterAxis(origin: real, coord: int, dim: int, cellSize: real, k: int): real
  {
    origin + ((coord as real - (dim as real - 1.0) / 2.0) * cellSize) * k as real
  }

  function SubCenterAxis(core: real, a: int, k: int, cellSize: real): real
  {
    core + (a as real - (k as real - 1.0) / 2.0) * cellSize
  }

  /** mainCellCenter of the core at loop position p. */
  function CoreCenter(origin: Float3, p: Int3, amount: Int3, cellSize: real, k: int): Float3
  {
    Float3(CoreCenterAxis(origin.x, p.x, amount.x, cellSize, k),
           CoreCenterAxis(origin.y, p.y, amount.y, cellSize, k),
           CoreCenterAxis(origin.z, p.z, amount.z, cellSize, k))
  }

  /** subcellCenter of sub-cell p of the core centred at core. */
  function SubCenter(core: Float3, p: Int3, k: int, cellSize: real): Float3
  {
    Float3(SubCenterAxis(core.x, p.x, k, cellSize),
           SubCenterAxis(core.y, p.y, k, cellSize),
           SubCenterAxis(core.z, p.z, k, cellSize))
  }

  /** Core ci of the finished grid. */
  function VolumeCore(ci: int, origin: Float3, amount: Int3, k: int, cellSize: real): GridCore
    requires 0 <= ci && 0 < amount.y && 0 < amount.z && 0 <= k
  {
    GridCore(CoreCenter(origin, CoreCoords(ci, amount.y, amount.z), amount, cellSize, k), SubCellsOf(ci, k))
  }

  /** Cell i of the finished grid: sub-cell i % k^3 of core i / k^3. */
  function VolumeCell(i: int, origin: Float3, amount: Int3, k: int, cellSize: real): Cell
    requires 0 <= i && 0 < amount.y && 0 < amount.z && 0 < k
  {
    var ci := i / PerCore(k);
    var core := CoreCenter(origin, CoreCoords(ci, amount.y, amount.z), amount, cellSize, k);
    Cell(SubCenter(core, SubCoords(i % PerCore(k), k), k, cellSize), i)
  }

  /** Array slots cores[0 .. n) hold the finished grid's cores. */
  ghost predicate CoresBuilt(cores: array<GridCore>, n: int, origin: Float3, amount: Int3, k: int, cellSize: real)
    reads cores
  {
    0 < amount.y && 0 < amount.z && 0 <= k ==>
      forall ci :: 0 <= ci < n && ci < cores.Length ==> cores[ci] == VolumeCore(ci, origin, amount, k, cellSize)
  }

  /** The cell the counter reaches at sub-cell (a, b, c) of core ci. */
  lemma VolumeCellAt(ci: int, a: int, b: int, c: int, origin: Float3, amount: Int3, k: int, cellSize: real)
    requires 0 <= ci && 0 < amount.y && 0 < amount.z
    requires 0 <= a < k && 0 <= b < k && 0 <= c < k
    ensures CellNumber(ci, SubNumber(a, b, c, k), k) >= 0
    ensures VolumeCell(CellNumber(ci, SubNumber(a, b, c, k), k), origin, amount, k, cellSize)
         == Cell(SubCenter(CoreCenter(origin, CoreCoords(ci, amount.y, amount.z), amount, cellSize, k), Int3(a, b, c), k, cellSize),
                 CellNumber(ci, SubNumber(a, b, c, k), k))
  {
    SubNumberCoords(a, b, c, k);
    CellNumberSplit(ci, SubNumber(a, b, c, k), k);
    MulLeftMono(PerCore(k), 0, ci);
  }

  /**
   * Along each axis, sub-cell a of the core at coordinate coord is centred
   * exactly where a flat grid of dim * k cells of the same size centres
   * its cell coord * k + a: the two-level grid is the flat grid, cut into
   * blocks.
   */
  lemma LatticeAxis(origin: real, coord: int, a: int, dim: int, k: int, cellSize: real)
    ensures SubCenterAxis(CoreCenterAxis(origin, coord, dim, cellSize, k), a, k, cellSize)
         == PkgInitializeGridJob.CenterAxis(origin, coord * k + a, dim * k, cellSize)
  {
    var kr, cr, ar, dr := k as real, coord as real, a as real, dim as real;
    assert (coord * k + a) as real == cr * kr + ar;
    assert (dim * k) as real == dr * kr;
    calc {
      SubCenterAxis(CoreCenterAxis(origin, coord, dim, cellSize, k), a, k, cellSize);
      origin + ((cr - (dr - 1.0) / 2.0) * cellSize) * kr + (ar - (kr - 1.0) / 2.0) * cellSize;
      origin + ((cr * kr + ar) - (dr * kr - 1.0) / 2.0) * cellSize;
    }
  }

  /** Neighbouring sub-cells along an axis, in one core or across two, are cellSize apart. */
  lemma LatticeStep(origin: real, coord: int, a: int, dim: int, k: int, cellSize: real)
    requires 0 < k && 0 <= a < k
    ensures var next := if a + 1 < k
                        then SubCenterAxis(CoreCenterAxis(origin, coord, dim, cellSize, k), a + 1, k, cellSize)
                        else SubCenterAxis(CoreCenterAxis(origin, coord + 1, dim, cellSize, k), 0, k, cellSize);
      next == SubCenterAxis(CoreCenterAxis(origin, coord, dim, cellSize, k), a, k, cellSize) + cellSize
  {
    LatticeAxis(origin, coord, a, dim, k, cellSize);
    if a + 1 < k {
      LatticeAxis(origin, coord, a + 1, dim, k, cellSize);
      PkgInitializeGridJob.CenterStep(origin, coord * k + a, dim * k, cellSize);
    } else {
      LatticeAxis(origin, coord + 1, 0, dim, k, cellSize);
      assert (coord + 1) * k + 0 == coord * k + a + 1;
      PkgInitializeGridJob.CenterStep(origin, coord * k + a, dim * k, cellSize);
    }
  }
}
