// Nearest-cell lookup.  Every version snaps a point to a cell with a
// running minimum: start from float.MaxValue and take index i whenever its
// distance is strictly below the best so far, so the first of several equal
// minima wins and an index is taken only if its distance is below
// float.MaxValue.  The two-level versions first pick the closest core and
// then the closest of that core's first TotalCellsPerCore sub-cells.

module NearestCell {
  import opened Vectors
  import opened Structs

  /** float.MaxValue, the starting distance of every running minimum. */
  const FloatMax: real := 340282346638528859811704183484516925440.0

  /**
   * The running minimum over keys, left to right: the index it settles on
   * (-1 if no key is below FloatMax) and the distance it holds.
   */
  function Scan(keys: seq<real>): (r: (int, real))
    ensures -1 <= r.0 < |keys|
    ensures r.1 <= FloatMax
  {
    if |keys| == 0 then (-1, FloatMax)
    else
      var prev := Scan(keys[..|keys| - 1]);
      if keys[|keys| - 1] < prev.1 then (|keys| - 1, keys[|keys| - 1]) else prev
  }

  /**
   * The scan's index is the first strict minimum of the keys, provided that
   * minimum is below FloatMax; it is -1 exactly when no key is below
   * FloatMax, and the distance held is min(FloatMax, every key).
   */
  lemma {:induction false} ScanIsFirstMinimum(keys: seq<real>)
    ensures var r := Scan(keys);
      && (r.0 == -1 <==> forall j :: 0 <= j < |keys| ==> keys[j] >= FloatMax)
      && (r.0 == -1 ==> r.1 == FloatMax)
      && (r.0 != -1 ==> keys[r.0] == r.1 < FloatMax)
      && (forall j :: 0 <= j < |keys| ==> r.1 <= keys[j])
      && (forall j :: 0 <= j < r.0 ==> keys[j] > r.1)
  {
    if |keys| > 0 {
      var init := keys[..|keys| - 1];
      ScanIsFirstMinimum(init);
      assert forall j :: 0 <= j < |init| ==> init[j] == keys[j];
    }
  }

  /** Distances of the first n cores' centres to position. */
  function CoreKeys(cores: seq<GridCore>, n: int, position: Float3, key: (Float3, Float3) -> real): (r: seq<real>)
    requires 0 <= n <= |cores|
    ensures |r| == n
  {
    seq(n, i requires 0 <= i < n => key(cores[i].CorePos, position))
  }

  /** The core the first loop settles on: the scan's index, or 0 when it took none. */
  function ClosestCore(cores: seq<GridCore>, totalCores: int, position: Float3, key: (Float3, Float3) -> real): (c: int)
    requires 0 <= totalCores <= |cores|
    ensures 0 <= c && (totalCores > 0 ==> c < totalCores)
  {
    var r := Scan(CoreKeys(cores, totalCores, position, key));
    if r.0 == -1 then 0 else r.0
  }

  /** Distances of the cells named by subCells[0 .. n) to position. */
  function CellKeys<C>(cells: seq<C>, cellPos: C -> Float3, subCells: seq<int>, n: int, position: Float3,
                       key: (Float3, Float3) -> real): (r: seq<real>)
    requires 0 <= n <= |subCells|
    requires forall i :: 0 <= i < n ==> 0 <= subCells[i] < |cells|
    ensures |r| == n
  {
    seq(n, i requires 0 <= i < n => key(cellPos(cells[subCells[i]]), position))
  }

  /**
   * What the source requires of its data: the chosen core exists, has at
   * least TotalCellsPerCore sub-cells, and those name existing cells.
   */
  predicate Readable<C>(cores: seq<GridCore>, cells: seq<C>, totalCores: int, totalCellsPerCore: int,
                        position: Float3, key: (Float3, Float3) -> real)
  {
    && 0 <= totalCores <= |cores| && 0 <= totalCellsPerCore
    && ClosestCore(cores, totalCores, position, key) < |cores|
    && var sub := cores[ClosestCore(cores, totalCores, position, key)].SubCells;
       && totalCellsPerCore <= |sub|
       && forall i :: 0 <= i < totalCellsPerCore ==> 0 <= sub[i] < |cells|
  }

  /** The cell the two loops settle on: the scan's sub-cell, or 0 when it took none. */
  function NearestCellOf<C>(cores: seq<GridCore>, cells: seq<C>, cellPos: C -> Float3, totalCores: int,
                            totalCellsPerCore: int, position: Float3, key: (Float3, Float3) -> real): int
    requires Readable(cores, cells, totalCores, totalCellsPerCore, position, key)
  {
    var sub := cores[ClosestCore(cores, totalCores, position, key)].SubCells;
    var r := Scan(CellKeys(cells, cellPos, sub, totalCellsPerCore, position, key));
    if r.0 == -1 then 0 else sub[r.0]
  }

  /** With at least one cell, the lookup names a cell. */
  lemma NearestCellInRange<C>(cores: seq<GridCore>, cells: seq<C>, cellPos: C -> Float3, totalCores: int,
                              totalCellsPerCore: int, position: Float3, key: (Float3, Float3) -> real)
    requires Readable(cores, cells, totalCores, totalCellsPerCore, position, key) && 0 < |cells|
    ensures 0 <= NearestCellOf(cores, cells, cellPos, totalCores, totalCellsPerCore, position, key) < |cells|
  {
    var sub := cores[ClosestCore(cores, totalCores, position, key)].SubCells;
    var keys := CellKeys(cells, cellPos, sub, totalCellsPerCore, position, key);
    assert |keys| == totalCellsPerCore;
  }

  /**
   * The chosen core is the first core with the strictly smallest distance
   * below FloatMax, and 0 when there is none (in particular with no cores).
   */
  lemma ClosestCoreIsFirstMinimum(cores: seq<GridCore>, totalCores: int, position: Float3, key: (Float3, Float3) -> real)
    requires 0 <= totalCores <= |cores|
    ensures var keys := CoreKeys(cores, totalCores, position, key);
      var c := ClosestCore(cores, totalCores, position, key);
      if exists j :: 0 <= j < totalCores && keys[j] < FloatMax then
        && 0 <= c < totalCores
        && (forall j :: 0 <= j < totalCores ==> keys[c] <= keys[j])
        && (forall j :: 0 <= j < c ==> keys[c] < keys[j])
      else c == 0
  {
    ScanIsFirstMinimum(CoreKeys(cores, totalCores, position, key));
  }

  /**
   * With at least one sub-cell to look at and a sub-cell distance below
   * FloatMax, the result is the first of the chosen core's sub-cells with
   * the strictly smallest distance; in particular it is one of them.
   */
  lemma NearestCellIsFirstMinimum<C>(cores: seq<GridCore>, cells: seq<C>, cellPos: C -> Float3, totalCores: int,
                                     totalCellsPerCore: int, position: Float3, key: (Float3, Float3) -> real)
    requires Readable(cores, cells, totalCores, totalCellsPerCore, position, key)
    ensures var sub := cores[ClosestCore(cores, totalCores, position, key)].SubCells;
      var keys := CellKeys(cells, cellPos, sub, totalCellsPerCore, position, key);
      var result := NearestCellOf(cores, cells, cellPos, totalCores, totalCellsPerCore, position, key);
      if exists j :: 0 <= j < totalCellsPerCore && keys[j] < FloatMax then
        exists m :: 0 <= m < totalCellsPerCore && result == sub[m]
          && (forall j :: 0 <= j < totalCellsPerCore ==> keys[m] <= keys[j])
          && (forall j :: 0 <= j < m ==> keys[m] < keys[j])
      else result == 0
  {
    var sub := cores[ClosestCore(cores, totalCores, position, key)].SubCells;
    var keys := CellKeys(cells, cellPos, sub, totalCellsPerCore, position, key);
    ScanIsFirstMinimum(keys);
    var r := Scan(keys);
    if r.0 != -1 {
      assert 0 <= r.0 < totalCellsPerCore && NearestCellOf(cores, cells, cellPos, totalCores, totalCellsPerCore, position, key) == sub[r.0];
    }
  }

  /**
   * The two running-minimum loops: over the first totalCores cores, then
   * over the first totalCellsPerCore sub-cells of the core chosen.
   */
  method FindNearestCell<C>(cores: seq<GridCore>, cells: seq<C>, cellPos: C -> Float3, totalCores: int,
                            totalCellsPerCore: int, position: Float3, key: (Float3, Float3) -> real)
    returns (closestCell: int)
    requires Readable(cores, cells, totalCores, totalCellsPerCore, position, key)
    ensures closestCell == NearestCellOf(cores, cells, cellPos, totalCores, totalCellsPerCore, position, key)
  {
    var coreKeys := CoreKeys(cores, totalCores, position, key);
    var closestCore := 0;
    var distance := FloatMax;
    var found := -1;
    var i := 0;
    while i < totalCores
      invariant 0 <= i <= totalCores
      invariant (found, distance) == Scan(coreKeys[..i])
      invariant closestCore == if found == -1 then 0 else found
    {
      var tempDistance := key(cores[i].CorePos, position);
      assert coreKeys[..i + 1][..i] == coreKeys[..i];
      if tempDistance < distance {
        distance := tempDistance;
        closestCore := i;
        found := i;
      }
      i := i + 1;
    }
    assert coreKeys[..totalCores] == coreKeys;

    var subCells := cores[closestCore].SubCells;
    var cellKeys := CellKeys(cells, cellPos, subCells, totalCellsPerCore, position, key);
    distance := FloatMax;
    closestCell := 0;
    found := -1;
    i := 0;
    while i < totalCellsPerCore
      invariant 0 <= i <= totalCellsPerCore
      invariant (found, distance) == Scan(cellKeys[..i])
      invariant closestCell == if found == -1 then 0 else subCells[found]
    {
      var tempDistance := key(cellPos(cells[subCells[i]]), position);
      assert cellKeys[..i + 1][..i] == cellKeys[..i];
      if tempDistance < distance {
        distance := tempDistance;
        closestCell := subCells[i];
        found := i;
      }
      i := i + 1;
    }
    assert cellKeys[..totalCellsPerCore] == cellKeys;
  }
}
