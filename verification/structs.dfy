// Plain records shared by the older versions of the pathfinder
// (Assets/Scripts and Assets/SpatialPathfinding/Scripts): a cell is a centre
// and its flat index, a core is a centre and the flat indices of its
// sub-cells, and the per-search bookkeeping of a cell is a parent and a cost.

module Structs {
  import opened Vectors

  /** A voxel cell of the older grids: its centre and its flat index. */
  datatype Cell = Cell(CellPos: Float3, Index: int)

  function CellPosOf(cell: Cell): Float3
  {
    cell.CellPos
  }

  /** A core of the two-level grids: its centre and its sub-cells' flat indices, in creation order. */
  datatype GridCore = GridCore(CorePos: Float3, SubCells: seq<int>)

  /**
   * Search bookkeeping of one cell: the cell it was reached from (-1 for the
   * start) and its cost.  A default (zeroed) record has cost 0, which the
   * searches read as "not yet reached".
   */
  datatype TempData = TempData(ParentIndex: int, FCost: real)
}

// The com.tecmaid version's cell also remembers its 3D grid index.
module PkgStructs {
  import opened Vectors

  /** A voxel cell of the com.tecmaid grid: centre, flat index and 3D index. */
  datatype Cell = Cell(CellPos: Float3, Index: int, Index3D: Int3)
}
