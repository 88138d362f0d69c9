# Voxel-grid pathfinder for flying agents, modelled in Dafny

The repository is a Unity project that moves flying agents through
navigation volumes. A navigation volume is a box cut into a grid of cubic
cells. Each cell records up to six neighbours, one per axis direction, or
-1 where there is none or an obstacle blocks the way. An agent's position
and target are snapped to their nearest cells. A search then runs over the
neighbour table, and the parent chain it leaves is walked back into
waypoints. The agent consumes those waypoints from the last index down to
the first. In the com.tecmaid version, routes may cross from one volume into a
linked neighbouring volume.

The search is called A* throughout the source. In every version it is a
first-in-first-out breadth-first search. The recorded cost (the squared
distance to the target) only serves as a "reached" mark and never
orders the queue.

The pathfinder exists in three coexisting versions. They differ in
observable ways, so each is modelled separately, one Dafny module per
source file:

- `Scripts*`: the first version, under `Assets/Scripts`. It has a
  two-level grid with integer centring offsets, a list-based search job
  whose loop guard compares array handles, and a binary min-heap.
- `Sp*`: the older spatial-pathfinding version, under
  `Assets/SpatialPathfinding/Scripts`. It has two navigation-volume
  variants with a two-level grid of cores and sub-cells, a list-queue
  search job, a main-thread manager, agents and links.
- `Pkg*`: the Unity package `com.tecmaid.spatialpathfinding`. It has a
  single-level grid whose neighbours come from 3D-index arithmetic, an
  array-queue search job, the multi-volume router and scheduler, agents,
  links and paths.

Shared specification modules state the behaviour the versions have in
common:

- `Vectors`: int3, float3 and Vector3 with exact components.
- `CellIndex`: flat numbering x + W·(y + H·z) and its inverse.
- `Directions`: the six axis directions.
- `NeighborRecord`: the six-slot neighbour record.
- `CoreGrid` and `SpGrid`: core and sub-cell index arithmetic and centres
  of the two-level grids.
- `NearestCell`: the first-strict-minimum scans.
- `BoundingBoxChecker`: box containment and the closest point of a box.
- `Structs`: cells, cores and per-search records.
- `Bfs`: the search, stated on values. A step expands the head of the
  queue, and the whole history of queued cells is kept. Proved about it:
  the search invariant, termination, that every reachable cell gets
  marked, and that the walked parent chain is a path of the neighbour
  graph.

Code that changes state in the source is modelled as classes with
`modifies` frames, arrays and loops with invariants. Each such method is
proved against these specification functions. Positions and distances
are exact reals.

## Model

| member | source | states |
|---|---|---|
| CellIndex.FlattenInRange | Packages/com.tecmaid.spatialpathfinding/Runtime/Jobs/GetNeighborsSimpleJob.cs:43-45 | every 3D index that passes the validity check flattens into [0, W*H*D) |
| CellIndex.FlattenUnflatten | Packages/com.tecmaid.spatialpathfinding/Runtime/Jobs/GetNeighborsSimpleJob.cs:43-45 | flattening the (x, y, z) decomposition of a flat index gives the index back |
| CellIndex.UnflattenValid | Packages/com.tecmaid.spatialpathfinding/Runtime/Jobs/GetNeighborsSimpleJob.cs:43-45 | the decomposition of every flat index below W*H*D passes the validity check |
| CellIndex.UnflattenFlatten | Packages/com.tecmaid.spatialpathfinding/Runtime/Jobs/GetNeighborsSimpleJob.cs:43-45 | decomposing the flat index of a valid 3D index gives the 3D index back |
| CellIndex.FlattenInjective | Packages/com.tecmaid.spatialpathfinding/Runtime/Jobs/GetNeighborsSimpleJob.cs:43-45 | two valid 3D indices with the same flat index are equal |
| CellIndex.UnflattenInjective | Packages/com.tecmaid.spatialpathfinding/Runtime/Jobs/GetNeighborsSimpleJob.cs:43-45 | two in-range flat indices with the same decomposition are equal |
| Directions.AxisDirectionsUnit | Packages/com.tecmaid.spatialpathfinding/Runtime/Volume/NavigationVolume.cs:93-106 | every one of the six directions is a unit step along one axis |
| Directions.AxisDirectionsOpposite | Packages/com.tecmaid.spatialpathfinding/Runtime/Volume/NavigationVolume.cs:93-106 | slots 0/1, 2/3 and 4/5 hold opposite directions, so the set is closed under negation |
| Directions.AxisDirectionsDistinct | Packages/com.tecmaid.spatialpathfinding/Runtime/Volume/NavigationVolume.cs:93-106 | the six directions are pairwise distinct |
| Directions.FillAxisDirections | Packages/com.tecmaid.spatialpathfinding/Runtime/Volume/NavigationVolume.cs:93-106 | the array written holds exactly +z, -z, +x, -x, +y, -y |
| NeighborRecord.NewNeighborData | Assets/SpatialPathfinding/Scripts/Volume/NeighborData.cs:10-18 | the record's count is 6 and it holds a copy of the array's first six entries |
| NeighborRecord.FromArray | Assets/Scripts/NeighborData.cs:7-11 | the record keeps the whole array, and its count is the array's length |
| NeighborRecord.FromArraySixSlots | Assets/Scripts/NeighborData.cs:7-11 | built from a six-slot array, this record is a well-formed six-slot record like the one above |
| BoundingBoxChecker.IsPositionInsideVolume | Packages/com.tecmaid.spatialpathfinding/Runtime/Helpers/BoundingBoxChecker.cs:11-22 | inside exactly when every coordinate lies between the bounds' min and max, both inclusive; only a box with min at most max on every axis contains a point |
| BoundingBoxChecker.ClosestPoint | Packages/com.tecmaid.spatialpathfinding/Runtime/PathingManager.cs:130 | the closest point of an unrotated box lies in the box, and it is the query point exactly when that point is inside |
| BoundingBoxChecker.CornersInside | Packages/com.tecmaid.spatialpathfinding/Runtime/Helpers/BoundingBoxChecker.cs:11-22 | both corners of a well-formed box count as inside |
| BoundingBoxChecker.FacesInside | Packages/com.tecmaid.spatialpathfinding/Runtime/Helpers/BoundingBoxChecker.cs:11-22 | the comparisons are inclusive: a point on a face counts as inside |
| BoundingBoxChecker.InsideIffZeroDistance | Packages/com.tecmaid.spatialpathfinding/Runtime/Helpers/BoundingBoxChecker.cs:11-22 | a point is inside exactly when its squared distance to the box's closest point is zero |
| NearestCell.Scan | Assets/SpatialPathfinding/Scripts/Volume/NavigationVolume.cs:122-135 | the running minimum settles on an index in [-1, n) and holds a distance of at most float.MaxValue |
| NearestCell.ScanIsFirstMinimum | Assets/SpatialPathfinding/Scripts/Volume/NavigationVolume.cs:122-135 | the index taken is the first strict minimum; it is -1 exactly when no distance is below float.MaxValue; the distance held is the minimum of float.MaxValue and every key |
| NearestCell.ClosestCore | Assets/SpatialPathfinding/Scripts/Volume/NavigationVolume.cs:122-135 | the core chosen is in range whenever there is a core |
| NearestCell.ClosestCoreIsFirstMinimum | Assets/SpatialPathfinding/Scripts/Volume/NavigationVolume.cs:122-135 | the chosen core is the first core with the strictly smallest distance below float.MaxValue, and core 0 when there is none |
| NearestCell.NearestCellInRange | Assets/SpatialPathfinding/Scripts/Volume/NavigationVolume.cs:137-160 | with at least one cell, the lookup names a cell |
| NearestCell.NearestCellIsFirstMinimum | Assets/SpatialPathfinding/Scripts/Volume/NavigationVolume.cs:137-160 | the result is the first sub-cell of the chosen core at the strictly smallest distance, and cell 0 when no distance is below float.MaxValue |
| NearestCell.FindNearestCell | Assets/SpatialPathfinding/Scripts/Volume/NavigationVolume.cs:120-161 | the two running-minimum loops return exactly the two-level first-minimum lookup |
| CoreGrid.CoreNumberCoords | Assets/SpatialPathfinding/Scripts/Volume/NavigationVolume.cs:169-206 | the loop position (x, y, z) and the running core number determine each other |
| CoreGrid.CoreCoordsValid | Assets/SpatialPathfinding/Scripts/Volume/NavigationVolume.cs:169-206 | every core number below X*Y*Z comes from a loop position in range |
| CoreGrid.SubNumberCoords | Assets/SpatialPathfinding/Scripts/Volume/NavigationVolume.cs:182-199 | a sub-cell's (a, b, c) and its number within the core determine each other |
| CoreGrid.CellNumberSplit | Assets/SpatialPathfinding/Scripts/Volume/NavigationVolume.cs:194-199 | the running cell counter splits uniquely into a core number and a sub-cell number |
| CoreGrid.TotalCellsFactor | Assets/SpatialPathfinding/Scripts/Volume/NavigationVolume.cs:50-52 | TotalCells is TotalCores times TotalCellsPerCore |
| CoreGrid.InBlockIff | Assets/SpatialPathfinding/Scripts/Volume/NavigationVolume.cs:180-204 | cell i is in core ci's list exactly when ci = i / k^3: the lists are disjoint and cover every cell |
| CoreGrid.CoreOfCellInRange | Assets/SpatialPathfinding/Scripts/Volume/NavigationVolume.cs:180-204 | every cell belongs to a core that exists |
| CoreGrid.BlocksReadable | Assets/SpatialPathfinding/Scripts/Volume/NavigationVolume.cs:140-149 | on a finished grid every array read of the nearest-cell lookup is in bounds |
| CoreGrid.NearestInGridSound | Assets/SpatialPathfinding/Scripts/Volume/NavigationVolume.cs:120-161 | on a finished grid the lookup always names a cell, and one of the chosen core's sub-cells when any is closer than float.MaxValue |
| CoreGrid.SnapSlotSound | Assets/SpatialPathfinding/Scripts/Volume/NavigationVolume.cs:101-112 | a slot is -1 exactly when the cast hits; otherwise it names a cell of the volume, even for an outward step at the boundary |
| SpGrid.VolumeCellAt | Assets/SpatialPathfinding/Scripts/Volume/NavigationVolume.cs:175-199 | the cell the counter reaches at sub-cell (a, b, c) of core ci is centred at that sub-cell's offset from the core centre |
| SpGrid.LatticeAxis | Assets/SpatialPathfinding/Scripts/Volume/NavigationVolume.cs:175-192 | on each axis the two-level grid is the flat grid of dim*k cells: sub-cell a of core coord sits where flat cell coord*k + a does |
| SpGrid.LatticeStep | Assets/SpatialPathfinding/Scripts/Volume/NavigationVolume.cs:188-192 | neighbouring sub-cells along an axis, in one core or across two, are exactly cellSize apart |
| SpNavigationVolume.NavigationVolume.constructor | Assets/SpatialPathfinding/Scripts/Volume/NavigationVolume.cs:48-57 | the three totals are the products of the configured counts, and the arrays are sized by them |
| SpNavigationVolume.NavigationVolume.InitializeDirections | Assets/SpatialPathfinding/Scripts/Volume/NavigationVolume.cs:74-87 | the directions array holds the six axis directions, and directionCount is 6 |
| SpNavigationVolume.NavigationVolume.FindNearestCell | Assets/SpatialPathfinding/Scripts/Volume/NavigationVolume.cs:120-161 | the result is the two-level first-minimum lookup over the volume's cores and cells |
| SpNavigationVolume.NavigationVolume.GetNeighbours | Assets/SpatialPathfinding/Scripts/Volume/NavigationVolume.cs:97-118 | cell index's record gets the six snapped slots (-1 where the cast hits); every other record is unchanged |
| SpNavigationVolume.NavigationVolume.GetAllCellNeighbors | Assets/SpatialPathfinding/Scripts/Volume/NavigationVolume.cs:89-95 | every cell's record holds the snapped slots computed from that cell's own centre |
| SpNavigationVolume.NavigationVolume.InitializeGrid | Assets/SpatialPathfinding/Scripts/Volume/NavigationVolume.cs:163-210 | every core and every cell is built: centres at their offsets and each core listing its block of k^3 cells |
| SpNavigationVolume.NavigationVolume.InitializeLayer | Assets/SpatialPathfinding/Scripts/Volume/NavigationVolume.cs:171-208 | one x layer adds Y*Z cores and their cells, and both counters advance to the layer's end |
| SpNavigationVolume.NavigationVolume.InitializeColumn | Assets/SpatialPathfinding/Scripts/Volume/NavigationVolume.cs:173-207 | one (x, y) column adds Z cores and their cells |
| SpNavigationVolume.NavigationVolume.InitializeCore | Assets/SpatialPathfinding/Scripts/Volume/NavigationVolume.cs:180-202 | one core's loops add its k^3 cells, and its list is exactly its block of cell numbers |
| SpNavigationVolume.NavigationVolume.InitializeSlab | Assets/SpatialPathfinding/Scripts/Volume/NavigationVolume.cs:184-201 | the b loop adds k*k cells and extends the list by their numbers |
| SpNavigationVolume.NavigationVolume.InitializeRow | Assets/SpatialPathfinding/Scripts/Volume/NavigationVolume.cs:186-200 | the c loop adds k cells and extends the list by their numbers |
| SpNavigationLink.NavigationLink.GenerateLinks | Assets/SpatialPathfinding/Scripts/NavigationLink.cs:21-33 | throws exactly when a lookup is empty; each sub-link gets the first volume found at the other's position and the other as its neighbour, up to the first empty lookup, the rest left as it was |
| SpNavigationLink.NavigationLink.LinkVolumes | Assets/SpatialPathfinding/Scripts/NavigationLink.cs:35-39 | throws exactly when a sub-link has no volume; each linked volume's Links gains the sub-link standing in it, both in order when the two share a volume, and none after the throwing Add |
| SpNavigationLink.NavigationLink.Start | Assets/SpatialPathfinding/Scripts/NavigationLink.cs:15-39 | throws exactly when a lookup is empty or finds no volume; link2 takes the first volume at link1's position and link1 as neighbour when that lookup is non-empty, link1 the volume at link2's position and link2 when both are, each otherwise unchanged; each found volume's list grows by exactly the sub-links added before any throw |
| SpNavigationPath.CopyFrom | Assets/SpatialPathfinding/Scripts/Structs/NavigationPath.cs:17 | the element-wise copy leaves the destination equal to the source |
| SpNavigationPath.NavigationPath.constructor | Assets/SpatialPathfinding/Scripts/Structs/NavigationPath.cs:14-18 | the path owns a fresh array holding exactly the given waypoints |
| SpNavigationPath.NavigationPath.StartingPoint | Assets/SpatialPathfinding/Scripts/Structs/NavigationPath.cs:11 | the starting point is a waypoint, and the waypoints are it followed by the rest |
| SpNavigationPath.NavigationPath.EndingPoint | Assets/SpatialPathfinding/Scripts/Structs/NavigationPath.cs:12 | the ending point is a waypoint, and the waypoints are the others followed by it |
| SpCalculationHelper.CalculateSquaredDistance | Assets/SpatialPathfinding/Scripts/Helpers/CalculationHelper.cs:8-15 | the squared distance is never negative |
| SpCalculationHelper.SquaredDistanceAsSquares | Assets/SpatialPathfinding/Scripts/Helpers/CalculationHelper.cs:8-15 | it is the sum of the three squared coordinate differences |
| SpCalculationHelper.SquaredDistanceSymmetric | Assets/SpatialPathfinding/Scripts/Helpers/CalculationHelper.cs:8-15 | it does not depend on the order of the two points |
| SpCalculationHelper.SquaredDistanceZeroIff | Assets/SpatialPathfinding/Scripts/Helpers/CalculationHelper.cs:8-15 | over exact arithmetic it is zero exactly when the points coincide |
| SpCalculationHelper.Int3ToVector3 | Assets/SpatialPathfinding/Scripts/Helpers/CalculationHelper.cs:17-20 | each integer component is carried over unchanged |
| SpFlyingAgent.FlyingAgent.constructor | Assets/SpatialPathfinding/Scripts/FlyingAgent.cs:11-34 | a new agent stands in no volume, has no path and its cursor is 0 |
| SpFlyingAgent.FlyingAgent.AddActiveVolume | Assets/SpatialPathfinding/Scripts/FlyingAgent.cs:43-46 | only the agent's volume changes |
| SpFlyingAgent.FlyingAgent.SetPath | Assets/SpatialPathfinding/Scripts/FlyingAgent.cs:48-53 | the agent takes the path with its cursor on the last waypoint, and it has a waypoint to follow exactly when the path is not empty |
| SpFlyingAgent.FlyingAgent.RequestPath | Assets/SpatialPathfinding/Scripts/FlyingAgent.cs:60-68 | the started-pathing event is raised exactly when the agent stands in a volume |
| SpFlyingAgent.FlyingAgent.Move | Assets/SpatialPathfinding/Scripts/FlyingAgent.cs:71-105 | exactly one of finish, advance or step happens: finish iff the cursor is 0 and Waypoints[0] is within stoppingDistance; advance iff not finished and the current waypoint is within reach (then the cursor steps down and stays on the path); otherwise a locomotion step towards the current waypoint |
| SpAStarJob.AStarJob.Execute | Assets/SpatialPathfinding/Scripts/Jobs/AStarJob.cs:26-32 | both positions are snapped to their nearest cells; the records, queue and cursor end where the FIFO search from the start computes; WalkPoints gains the centres along the parent chain of the cell the loop stopped on |
| SpAStarJob.AStarJob.SearchAndWalk | Assets/SpatialPathfinding/Scripts/Jobs/AStarJob.cs:29-31 | after the snapping, the records and queue are those of the search, and WalkPoints gains the walked centres |
| SpAStarJob.AStarJob.FindPoints | Assets/SpatialPathfinding/Scripts/Jobs/AStarJob.cs:34-38 | startingPoint and endPoint are the nearest cells of the player and the target |
| SpAStarJob.AStarJob.FindNearestCell | Assets/SpatialPathfinding/Scripts/Jobs/AStarJob.cs:40-79 | the result is the two-level first-minimum lookup of the position in the volume |
| SpAStarJob.AStarJob.InitializeBuffers | Assets/SpatialPathfinding/Scripts/Jobs/AStarJob.cs:81-90 | fresh zeroed records with only the start marked (-1, 1000); the start's index is appended to the queue; currentPoint is the queue's front |
| SpAStarJob.AStarJob.MoveToTarget | Assets/SpatialPathfinding/Scripts/Jobs/AStarJob.cs:92-119 | the loop ends in the state the reference search computes: its records, its not-yet-dequeued cells as the queue, and the last dequeued cell as currentPoint |
| SpAStarJob.AStarJob.Iterate | Assets/SpatialPathfinding/Scripts/Jobs/AStarJob.cs:99-117 | one pass moves to the next state of the same run and keeps the search invariant; the history grows, never beyond the cell count, or the queue shrinks |
| SpAStarJob.AStarJob.VisitNeighbors | Assets/SpatialPathfinding/Scripts/Jobs/AStarJob.cs:106-117 | the six-slot loop is the reference expansion: each non-negative, unmarked neighbour gets the current cell as parent and its squared distance to the target as cost, and is queued |
| SpAStarJob.AStarJob.SearchOrigin | Assets/SpatialPathfinding/Scripts/Jobs/AStarJob.cs:121-133 | WalkPoints gains the centres of the parent chain from currentPoint back to the start, the start excluded, and the cursor ends on the start |
| SpPathingManager.ArrayReverse | Assets/SpatialPathfinding/Scripts/PathingManager.cs:61 | the array afterwards is the old contents read back to front |
| SpPathingManager.PathingManager.AStar | Assets/SpatialPathfinding/Scripts/PathingManager.cs:48-69 | both positions are snapped; the result holds the centres of the search route, start side first, the start excluded and the cell the loop stopped on last; the manager is left idle |
| SpPathingManager.PathingManager.Route | Assets/SpatialPathfinding/Scripts/PathingManager.cs:54-59 | after the snapping, the records are the search's and the walk list is the centres along the parent chain, goal side first |
| SpPathingManager.PathingManager.FindPoints | Assets/SpatialPathfinding/Scripts/PathingManager.cs:71-75 | startingPoint and endPoint are the nearest cells of the player and the target |
| SpPathingManager.PathingManager.InitializeBuffers | Assets/SpatialPathfinding/Scripts/PathingManager.cs:77-86 | fresh zeroed records with only the start marked; the start is queued and currentPoint is the queue's front |
| SpPathingManager.PathingManager.MoveToTarget | Assets/SpatialPathfinding/Scripts/PathingManager.cs:88-115 | the loop ends in the reference search's state, with the count equal to the queue's length |
| SpPathingManager.PathingManager.Iterate | Assets/SpatialPathfinding/Scripts/PathingManager.cs:95-113 | one pass moves to the next state of the same run and keeps the search invariant |
| SpPathingManager.PathingManager.VisitNeighbors | Assets/SpatialPathfinding/Scripts/PathingManager.cs:102-113 | the six-slot loop is the reference expansion of the dequeued cell |
| SpPathingManager.PathingManager.SearchOrigin | Assets/SpatialPathfinding/Scripts/PathingManager.cs:117-131 | the walk list gains the centres of the parent chain back to the start, start excluded, and is returned |
| SpPathingManager.PathingManager.FindNearestCell | Assets/SpatialPathfinding/Scripts/PathingManager.cs:133-167 | the result is the two-level first-minimum lookup |
| SpPathingManager.PathingManager.ClearBuffers | Assets/SpatialPathfinding/Scripts/PathingManager.cs:169-176 | the queue, its count and the walk list are emptied |
| Bfs.InitialInv | Packages/com.tecmaid.spatialpathfinding/Runtime/Jobs/AStarJob.cs:90-100 | marking the start (-1, 1000) in fresh records and queueing it alone establishes the search invariant |
| Bfs.StepPreserves | Packages/com.tecmaid.spatialpathfinding/Runtime/Jobs/AStarJob.cs:107-128 | one pass of the loop keeps the invariant, only extends the queue's history, and the history never outgrows the cell count |
| Bfs.Run | Packages/com.tecmaid.spatialpathfinding/Runtime/Jobs/AStarJob.cs:107-128 | the loop keeps the record count, only extends the history and never moves the head backwards |
| Bfs.RunKeeps | Packages/com.tecmaid.spatialpathfinding/Runtime/Jobs/AStarJob.cs:107-128 | the loop ends in a state that keeps the invariant, with the goal dequeued last or the queue empty |
| Bfs.RunStep | Packages/com.tecmaid.spatialpathfinding/Runtime/Jobs/AStarJob.cs:107-128 | one guarded pass keeps the invariant, sets the last dequeued cell, and leaves the outcome of the rest of the loop unchanged |
| Bfs.InvBound | Packages/com.tecmaid.spatialpathfinding/Runtime/Jobs/AStarJob.cs:125 | the queue's history never holds more entries than there are cells, so the fixed-size queue never overflows |
| Bfs.ClosedReach | Packages/com.tecmaid.spatialpathfinding/Runtime/Jobs/AStarJob.cs:107-128 | once the queue is empty, every cell a slot path reaches from the start has been queued |
| Bfs.FindsReachableGoal | Packages/com.tecmaid.spatialpathfinding/Runtime/Jobs/AStarJob.cs:107-128 | if a slot path leads from the start to the goal, the loop stops on the goal |
| Bfs.ExhaustedMarksReachable | Packages/com.tecmaid.spatialpathfinding/Runtime/Jobs/AStarJob.cs:107-128 | with no goal to stop on, every cell reachable from the start ends up queued and marked |
| Bfs.Walk | Packages/com.tecmaid.spatialpathfinding/Runtime/Jobs/AStarJob.cs:131-142 | every cell the walk back along the parents visits is in range |
| Bfs.WalkChain | Packages/com.tecmaid.spatialpathfinding/Runtime/Jobs/AStarJob.cs:131-142 | from a queued cell the walk is empty exactly at the start, begins at that cell, follows recorded parents, and visits only cells queued earlier |
| Bfs.WalkIsPath | Packages/com.tecmaid.spatialpathfinding/Runtime/Jobs/AStarJob.cs:131-142 | the walk never repeats a cell, and read from the start it follows neighbour slots |
| Bfs.GoalWalk | Packages/com.tecmaid.spatialpathfinding/Runtime/Jobs/AStarJob.cs:131-142 | when the loop stopped on the goal, the walk from the goal is its parent chain, and reversed after the start it is a slot path from the start to the goal |
| Bfs.Search | Packages/com.tecmaid.spatialpathfinding/Runtime/Jobs/AStarJob.cs:90-128 | the search stops on the goal or with the queue empty, and its history fits in the cell count |
| Bfs.SearchInv | Packages/com.tecmaid.spatialpathfinding/Runtime/Jobs/AStarJob.cs:90-128 | the search ends in a state satisfying the invariant |
| Bfs.SearchRooted | Packages/com.tecmaid.spatialpathfinding/Runtime/Jobs/AStarJob.cs:90-128 | after the search every queued cell's parent chain leads back to the start |
| Bfs.SearchFindsGoal | Packages/com.tecmaid.spatialpathfinding/Runtime/Jobs/AStarJob.cs:90-128 | a goal some slot path reaches from the start is the cell the search stops on |
| Bfs.SearchMarksReachable | Packages/com.tecmaid.spatialpathfinding/Runtime/Jobs/AStarJob.cs:90-128 | with an unreachable goal the loop empties the queue, and every reachable cell is queued and marked |
| Bfs.SearchFromGoal | Packages/com.tecmaid.spatialpathfinding/Runtime/Jobs/AStarJob.cs:99-107 | when the start is the goal, the loop never runs and the walk back is empty |
| Bfs.SearchOriginPath | Packages/com.tecmaid.spatialpathfinding/Runtime/Jobs/AStarJob.cs:33-39 | the walk from the cell the loop stopped on is its parent chain: distinct, shorter than the cell count, and reversed after the start a slot path from the start to that cell |
| Bfs.SearchRoute | Packages/com.tecmaid.spatialpathfinding/Runtime/Jobs/AStarJob.cs:33-39 | the route the managers return (the walk read back to front) is a distinct slot path ending at the cell the loop stopped on, empty exactly when that cell is the start, and ending at the goal whenever the goal is reachable |
| Bfs.ZeroCostSelfLoop | Assets/Scripts/Jobs/MoveToTargetJob.cs:28-48 | with cell 1 snapping back onto itself and its centre on the target, every pass after the first leaves the records unchanged, cell 1 unmarked and the queue [1], so the loop that stops only on an empty queue never ends |
| Bfs.ZeroCostRequeues | Packages/com.tecmaid.spatialpathfinding/Runtime/Jobs/AStarJob.cs:120-126 | in a four-cell diamond whose last cell's centre lies on the target, three passes queue that cell twice |
| Bfs.ExpandOnce | Packages/com.tecmaid.spatialpathfinding/Runtime/Jobs/AStarJob.cs:116-127 | the intended expansion, which queues a slot neighbour only when it has not been queued before, keeps the record count |
| Bfs.ExpandOnceDistinct | Packages/com.tecmaid.spatialpathfinding/Runtime/Jobs/AStarJob.cs:116-127 | the intended expansion never queues a cell twice, whatever the costs |
| Bfs.ExpandOnceAgrees | Packages/com.tecmaid.spatialpathfinding/Runtime/Jobs/AStarJob.cs:116-127 | when every cost is positive the written expansion does exactly what the intended one does, and the history stays distinct |
| ScriptsHeap.RootMin | Assets/Scripts/Heap.cs:12-15 | in a heap the root is no larger than any slot |
| ScriptsHeap.RootIsMinimum | Assets/Scripts/Heap.cs:12-15 | the root of a non-empty heap is one of its elements and a least one |
| ScriptsHeap.Heap.constructor | Assets/Scripts/Heap.cs:6-10 | a new heap has a fresh array of the given capacity and no elements |
| ScriptsHeap.Heap.Peek | Assets/Scripts/Heap.cs:12-15 | on a non-empty heap the result is a least element, and nothing changes |
| ScriptsHeap.Heap.Add | Assets/Scripts/Heap.cs:17-22 | the heap stays ordered, grows by one, and its contents gain exactly the element; the slots past it are untouched |
| ScriptsHeap.Heap.Pop | Assets/Scripts/Heap.cs:24-32 | the result is a least element; the heap stays ordered, shrinks by one, and its contents lose exactly the result |
| ScriptsHeap.Heap.ReCalculateDown | Assets/Scripts/Heap.cs:34-58 | the sift-down, with each child compared against the held element, leaves the first Size slots ordered with the same contents and the rest untouched |
| ScriptsHeap.Heap.SmallestIndex | Assets/Scripts/Heap.cs:41-48 | the result is index when no child in the heap is smaller than the held element, and otherwise the child holding the least value below it, the left one on a tie |
| ScriptsHeap.Heap.ReCalculateUp | Assets/Scripts/Heap.cs:60-75 | the sift-up of the last slot leaves the first index + 1 slots ordered with the same contents and the rest untouched |
| ScriptsHeap.PopAsWritten | Assets/Scripts/Heap.cs:24-58 | pop as written returns slot 0 and keeps the array's length |
| ScriptsHeap.PopAsWrittenBreaksOrder | Assets/Scripts/Heap.cs:45-53 | popping the heap 1 .. 7 as written leaves 7 above its children 4 and 5, and the fourth pop returns 5 while 4 is still held |
| ScriptsFindNearestCellJob.NearestIndexIsFirstMinimum | Assets/Scripts/Jobs/FindNearestCellJob.cs:19-35 | the answer is -1 exactly when no cell is closer than float.MaxValue; otherwise it is the first cell at the strictly smallest distance |
| ScriptsFindNearestCellJob.FiniteDistancesGiveACell | Assets/Scripts/Jobs/FindNearestCellJob.cs:19-35 | with at least one cell and every distance below float.MaxValue, the answer names a cell |
| ScriptsFindNearestCellJob.FindNearestCellJob.Execute | Assets/Scripts/Jobs/FindNearestCellJob.cs:19-35 | ClosestCell[0] receives the first-minimum answer, and no other slot of ClosestCell changes |
| ScriptsInitializeGridJob.CenterStep | Assets/Scripts/Jobs/InitializeGridJob.cs:18-22 | neighbouring coordinates on an axis are centred exactly CellSize apart |
| ScriptsInitializeGridJob.CenterMirror | Assets/Scripts/Jobs/InitializeGridJob.cs:18-22 | with the integer offset (dim - 1) / 2, mirrored cells are symmetric about the origin when dim is odd, and their midpoint lies half a cell past it when dim is even |
| ScriptsInitializeGridJob.InitializeGridJob.Execute | Assets/Scripts/Jobs/InitializeGridJob.cs:14-26 | Cells[index] receives the cell numbered index, centred at the grid position the index decodes to, x fastest; no other slot changes |
| ScriptsMoveToTargetJob.MoveToTargetJob.Execute | Assets/Scripts/Jobs/MoveToTargetJob.cs:23-50 | with one array passed as both CurrentPoint and EndPoint nothing changes; with two arrays the loop runs the search to an empty queue, and CurrentPoint[0] holds the last dequeued cell |
| ScriptsMoveToTargetJob.MoveToTargetJob.Iterate | Assets/Scripts/Jobs/MoveToTargetJob.cs:30-48 | one pass publishes and dequeues the front cell and expands it, moving to the next state of the same run |
| ScriptsMoveToTargetJob.MoveToTargetJob.VisitNeighbors | Assets/Scripts/Jobs/MoveToTargetJob.cs:37-48 | the six-slot loop is the reference expansion of the dequeued cell |
| Vectors.TruncDiv | Assets/Scripts/PathingManager.cs:257 | C# integer division: the Euclidean quotient for a non-negative dividend, and the quotient rounded toward zero for a negative one |
| ScriptsGrid.VolumeCellAt | Assets/Scripts/PathingManager.cs:256-278 | the cell the counter reaches at sub-cell (a, b, c) of core ci is centred at that sub-cell's integer offset from the core centre |
| ScriptsGrid.CoreAxisAgainstFloat | Assets/Scripts/PathingManager.cs:256-259 | with integer offsets a core centre matches the floating-point version on an axis with an odd count, and lies half a core further on an axis with an even count |
| ScriptsGrid.SubAxisAgainstFloat | Assets/Scripts/PathingManager.cs:269-273 | a sub-cell centre matches the floating-point version when k is odd, and lies half a cell further when k is even |
| ScriptsGrid.LatticeStep | Assets/Scripts/PathingManager.cs:269-273 | neighbouring sub-cells along an axis, in one core or across two, are exactly cellSize apart |
| ScriptsPathingManager.RunMoveToTargetJob | Assets/Scripts/PathingManager.cs:128-149 | the scheduled copy of the job, run on two separately allocated arrays, leaves the records of the search run to exhaustion, an empty shared queue and the last dequeued cell; the count read from the manager's own copy is the one passed in |
| ScriptsPathingManager.PathingManager.constructor | Assets/Scripts/PathingManager.cs:51-65 | for any unsigned k, including the default 0, and unsigned counts: the cell total is the product of the counts, the lists are empty, the arrays are sized by the totals, and the six directions are filled |
| ScriptsPathingManager.PathingManager.InitializeDirections | Assets/Scripts/PathingManager.cs:116-124 | the directions array holds +z, -z, +x, -x, +y, -y |
| ScriptsPathingManager.PathingManager.Start | Assets/Scripts/PathingManager.cs:67-77 | the grid is built, the core and per-core totals are counted, and every cell's record is filled |
| ScriptsPathingManager.PathingManager.ReadyGraph | Assets/Scripts/PathingManager.cs:213-242 | once the records are filled, every cell has six slots, each -1 or the index of a cell |
| ScriptsPathingManager.PathingManager.AStar | Assets/Scripts/PathingManager.cs:79-94 | the player and target are recorded and snapped, currentPoint ends on the start, and the manager is idle again |
| ScriptsPathingManager.PathingManager.Route | Assets/Scripts/PathingManager.cs:83-91 | the walk listed is the centres along the parent chain of the last cell the exhausted search dequeued, whatever the goal; the manager is then idle |
| ScriptsPathingManager.PathingManager.FindPoints | Assets/Scripts/PathingManager.cs:96-103 | both positions are recorded and snapped to cells of the grid |
| ScriptsPathingManager.PathingManager.InitializeBuffers | Assets/Scripts/PathingManager.cs:105-114 | fresh zeroed records with only the start marked (-1, 1000); the start is queued, and currentPoint is the queue's front |
| ScriptsPathingManager.PathingManager.MoveToTarget | Assets/Scripts/PathingManager.cs:126-153 | the records and last dequeued cell read back are those of the search run until the queue is empty; the queue is empty and the count is unchanged |
| ScriptsPathingManager.PathingManager.SearchOrigin | Assets/Scripts/PathingManager.cs:155-167 | the walk list gains the centres of the parent chain from currentPoint back to the start, start excluded |
| ScriptsPathingManager.PathingManager.ClearBuffers | Assets/Scripts/PathingManager.cs:169-175 | the walk list and the queue are emptied and the count reset |
| ScriptsPathingManager.PathingManager.FindNearestCell | Assets/Scripts/PathingManager.cs:177-211 | the result is the two-level first-minimum lookup, and it names a cell |
| ScriptsPathingManager.PathingManager.GetAllCellNeighbors | Assets/Scripts/PathingManager.cs:213-219 | every cell's record holds the snapped slots computed from its own centre |
| ScriptsPathingManager.PathingManager.GetNeighbours | Assets/Scripts/PathingManager.cs:221-242 | cell index's record is -1 where the ray cast hits and otherwise the cell nearest one step away; every other record is unchanged |
| ScriptsPathingManager.PathingManager.InitializeGrid | Assets/Scripts/PathingManager.cs:244-291 | cells only grows, gaining every core's block of cells in counter order; every core is stored; on an empty start list cell i has Index i |
| ScriptsPathingManager.PathingManager.GridFinished | Assets/Scripts/PathingManager.cs:250-290 | after the x loop the counter equals the cell total and every core is stored |
| ScriptsPathingManager.PathingManager.InitializeSlice | Assets/Scripts/PathingManager.cs:252-289 | one x layer appends Y*Z cores' cells and stores those cores |
| ScriptsPathingManager.PathingManager.InitializeColumn | Assets/Scripts/PathingManager.cs:254-288 | one (x, y) column appends Z cores' cells and stores those cores |
| ScriptsPathingManager.PathingManager.InitializeCore | Assets/Scripts/PathingManager.cs:261-283 | one core's loops append its k^3 cells, and its list is exactly its block of cell numbers |
| ScriptsPathingManager.PathingManager.InitializeSlab | Assets/Scripts/PathingManager.cs:265-282 | the b loop appends k*k cells and extends the list by their numbers |
| ScriptsPathingManager.PathingManager.InitializeRow | Assets/Scripts/PathingManager.cs:267-281 | the c loop appends k cells and extends the list by their numbers |
| SpVolumesNavigationVolume.NavigationVolume.constructor | Assets/SpatialPathfinding/Scripts/Volumes/NavigationVolume.cs:27-35 | the cell total is the product of the counts, the cell list is empty, and the arrays are sized by the totals |
| SpVolumesNavigationVolume.NavigationVolume.Start | Assets/SpatialPathfinding/Scripts/Volumes/NavigationVolume.cs:37-45 | the grid is built, the totals are counted, and every cell's record holds the slots snapped from its centre |
| SpVolumesNavigationVolume.NavigationVolume.FindNearestCell | Assets/SpatialPathfinding/Scripts/Volumes/NavigationVolume.cs:78-112 | the result is the two-level first-minimum lookup |
| SpVolumesNavigationVolume.NavigationVolume.GetNeighbours | Assets/SpatialPathfinding/Scripts/Volumes/NavigationVolume.cs:55-76 | cell index's record has one slot per direction of the scene's manager: -1 where the ray cast hits, otherwise the snapped cell; every other record is unchanged |
| SpVolumesNavigationVolume.NavigationVolume.GetAllCellNeighbors | Assets/SpatialPathfinding/Scripts/Volumes/NavigationVolume.cs:47-53 | every cell's record holds the slots snapped from its own centre |
| SpVolumesNavigationVolume.NavigationVolume.InitializeGrid | Assets/SpatialPathfinding/Scripts/Volumes/NavigationVolume.cs:114-161 | cells only grows, gaining every core's block of cells in counter order; every core is stored; on an empty start list cell i has Index i |
| SpVolumesNavigationVolume.NavigationVolume.GridFinished | Assets/SpatialPathfinding/Scripts/Volumes/NavigationVolume.cs:120-160 | after the x loop the counter equals the cell total and every core is stored |
| SpVolumesNavigationVolume.NavigationVolume.InitializeSlice | Assets/SpatialPathfinding/Scripts/Volumes/NavigationVolume.cs:122-159 | one x layer appends Y*Z cores' cells and stores those cores |
| SpVolumesNavigationVolume.NavigationVolume.InitializeColumn | Assets/SpatialPathfinding/Scripts/Volumes/NavigationVolume.cs:124-158 | one (x, y) column appends Z cores' cells and stores those cores |
| SpVolumesNavigationVolume.NavigationVolume.InitializeCore | Assets/SpatialPathfinding/Scripts/Volumes/NavigationVolume.cs:131-153 | one core's loops append its k^3 cells, and its list is exactly its block of cell numbers |
| SpVolumesNavigationVolume.NavigationVolume.InitializeSlab | Assets/SpatialPathfinding/Scripts/Volumes/NavigationVolume.cs:135-152 | the b loop appends k*k cells and extends the list by their numbers |
| SpVolumesNavigationVolume.NavigationVolume.InitializeRow | Assets/SpatialPathfinding/Scripts/Volumes/NavigationVolume.cs:137-151 | the c loop appends k cells and extends the list by their numbers |
| PkgCalculationHelper.CalculateSquaredDistance | Packages/com.tecmaid.spatialpathfinding/Runtime/Helpers/CalculationHelper.cs:11-18 | the squared distance is never negative |
| PkgCalculationHelper.SquaredDistanceAsSquares | Packages/com.tecmaid.spatialpathfinding/Runtime/Helpers/CalculationHelper.cs:11-18 | it is the sum of the three squared coordinate differences |
| PkgCalculationHelper.SquaredDistanceSymmetric | Packages/com.tecmaid.spatialpathfinding/Runtime/Helpers/CalculationHelper.cs:11-18 | it does not depend on the order of the two points |
| PkgCalculationHelper.SquaredDistanceZeroIff | Packages/com.tecmaid.spatialpathfinding/Runtime/Helpers/CalculationHelper.cs:11-18 | over exact arithmetic it is zero exactly when the points coincide |
| PkgCalculationHelper.Int3ToFloat3 | Packages/com.tecmaid.spatialpathfinding/Runtime/Helpers/CalculationHelper.cs:20-23 | each integer component is carried over unchanged |
| PkgCalculationHelper.Float3ToVector3 | Packages/com.tecmaid.spatialpathfinding/Runtime/Helpers/CalculationHelper.cs:25-28 | each component is carried over unchanged |
| PkgCalculationHelper.ConversionsInjective | Packages/com.tecmaid.spatialpathfinding/Runtime/Helpers/CalculationHelper.cs:20-28 | the conversions lose nothing: distinct vectors stay distinct |
| PkgNavigationLink.NavigationLink.LinkVolumes | Packages/com.tecmaid.spatialpathfinding/Runtime/Volume/NavigationLink.cs:48-52 | it throws exactly when a sub-link has no volume; each volume reached before the throw gains the sub-link standing in it, both in order when the two share a volume |
| PkgNavigationLink.NavigationLink.GenerateLinks | Packages/com.tecmaid.spatialpathfinding/Runtime/Volume/NavigationLink.cs:20-46 | each sub-link is wired to the volume found at the other's position and to the other as neighbour, up to the first empty lookup, which is caught and logged; whatever was set before it stays; equal volumes afterwards log the same-volume warning |
| PkgNavigationPath.NavigationPath.constructor | Packages/com.tecmaid.spatialpathfinding/Runtime/Structs/NavigationPath.cs:15-23 | the path owns a fresh array holding the list element for element, so clearing the list later leaves the path intact |
| PkgNavigationPath.NavigationPath.StartingPoint | Packages/com.tecmaid.spatialpathfinding/Runtime/Structs/NavigationPath.cs:12 | the starting point is a waypoint, and the waypoints are it followed by the rest |
| PkgNavigationPath.NavigationPath.EndingPoint | Packages/com.tecmaid.spatialpathfinding/Runtime/Structs/NavigationPath.cs:13 | the ending point (index ^1) is a waypoint, and the waypoints are the others followed by it |
| PkgNavigationPathSegment.NavigationPathSegment.constructor | Packages/com.tecmaid.spatialpathfinding/Runtime/Structs/NavigationPathSegment.cs:12-20 | the segment's list holds the source list's elements in order |
| PkgFindNearestCellJob.ChosenSubCells | Packages/com.tecmaid.spatialpathfinding/Runtime/Jobs/FindNearestCellJob.cs:43-48 | the copied array is the chosen core's sub-cell list |
| PkgFindNearestCellJob.ResultInChosenCore | Packages/com.tecmaid.spatialpathfinding/Runtime/Jobs/FindNearestCellJob.cs:23-64 | when some scanned sub-cell is closer than float.MaxValue, the answer is one of the chosen core's first TotalCellsPerCore sub-cells, and no earlier one of them is as close |
| PkgFindNearestCellJob.FindNearestCellJob.Execute | Packages/com.tecmaid.spatialpathfinding/Runtime/Jobs/FindNearestCellJob.cs:18-21 | TargetIndex[0] receives the two-level first-minimum lookup; no other slot changes |
| PkgGetNeighborsSimpleJob.SimpleSlots | Packages/com.tecmaid.spatialpathfinding/Runtime/Jobs/GetNeighborsSimpleJob.cs:40-54 | a cell has one slot per direction, six in all |
| PkgGetNeighborsSimpleJob.SimpleSlotSound | Packages/com.tecmaid.spatialpathfinding/Runtime/Jobs/GetNeighborsSimpleJob.cs:42-53 | a slot is non-negative exactly when the adjacent cell is in the grid and not obscured, and then it is that cell's flat index, a cell of the grid whose 3D index is the moved one |
| PkgGetNeighborsSimpleJob.NoObscuredNeighbor | Packages/com.tecmaid.spatialpathfinding/Runtime/Jobs/GetNeighborsSimpleJob.cs:45-48 | no slot ever names an obscured cell |
| PkgGetNeighborsSimpleJob.OwnFlagIgnored | Packages/com.tecmaid.spatialpathfinding/Runtime/Jobs/GetNeighborsSimpleJob.cs:42-53 | a cell's own obscured flag does not affect its slots |
| PkgGetNeighborsSimpleJob.SimpleSlotSymmetric | Packages/com.tecmaid.spatialpathfinding/Runtime/Jobs/GetNeighborsSimpleJob.cs:42-53 | with the six axis directions, adjacency between unobscured cells is symmetric: b in slot j of a puts a in the opposite slot of b |
| PkgGetNeighborsSimpleJob.GetNeighborsSimpleJob.Execute | Packages/com.tecmaid.spatialpathfinding/Runtime/Jobs/GetNeighborsSimpleJob.cs:27-33 | every cell below TotalCells gets the record of its six slots; the records past it are unchanged |
| PkgGetNeighborsSimpleJob.GetNeighborsSimpleJob.GetNeighborsSimple | Packages/com.tecmaid.spatialpathfinding/Runtime/Jobs/GetNeighborsSimpleJob.cs:35-57 | the scratch array's six slots are overwritten with the cell's slots, its record is a copy of them, and no other record changes |
| PkgInitializeGridJob.GridCellIndex | Packages/com.tecmaid.spatialpathfinding/Runtime/Jobs/InitializeGridJob.cs:32-42 | slot index holds the cell numbered index, whose 3D index is valid and flattens back to index |
| PkgInitializeGridJob.CenterMirror | Packages/com.tecmaid.spatialpathfinding/Runtime/Jobs/InitializeGridJob.cs:34-37 | cells coord and dim - 1 - coord lie symmetrically about the origin |
| PkgInitializeGridJob.CenterStep | Packages/com.tecmaid.spatialpathfinding/Runtime/Jobs/InitializeGridJob.cs:34-37 | neighbouring coordinates on an axis are centred exactly cellSize apart |
| PkgInitializeGridJob.CenterShift | Packages/com.tecmaid.spatialpathfinding/Runtime/Jobs/InitializeGridJob.cs:34-37 | moving a cell by a whole number of cells moves its centre by that many cellSizes |
| PkgInitializeGridJob.GridCellOf | Packages/com.tecmaid.spatialpathfinding/Runtime/Jobs/InitializeGridJob.cs:34-40 | the cell stored for a valid 3D index is the one built from that index |
| PkgInitializeGridJob.InitializeGridJob.Execute | Packages/com.tecmaid.spatialpathfinding/Runtime/Jobs/InitializeGridJob.cs:19-22 | every slot below W*H*D holds its grid cell, and the slots past it are unchanged |
| PkgInitializeGridJob.InitializeGridJob.InitializeGrid | Packages/com.tecmaid.spatialpathfinding/Runtime/Jobs/InitializeGridJob.cs:24-46 | the loops write exactly the slots 0 .. W*H*D - 1, x fastest, each with Index equal to its slot; the rest of the array is left alone |
| PkgInitializeGridJob.InitializeGridJob.InitializeLayer | Packages/com.tecmaid.spatialpathfinding/Runtime/Jobs/InitializeGridJob.cs:30-44 | layer z's H rows of W cells are written, and the slots past them are unchanged |
| PkgInitializeGridJob.InitializeGridJob.InitializeRow | Packages/com.tecmaid.spatialpathfinding/Runtime/Jobs/InitializeGridJob.cs:32-43 | row (y, z)'s W cells are written, and the slots outside the row are unchanged |
| PkgNavigationVolume.NeighborSlots | Packages/com.tecmaid.spatialpathfinding/Runtime/Volume/NavigationVolume.cs:118-130 | a cell has one slot per direction, six in all |
| PkgNavigationVolume.SlotOutsideIgnoresCast | Packages/com.tecmaid.spatialpathfinding/Runtime/Volume/NavigationVolume.cs:120-121 | a slot that leaves the grid is -1 whatever the obstacle cast reports |
| PkgNavigationVolume.SlotSound | Packages/com.tecmaid.spatialpathfinding/Runtime/Volume/NavigationVolume.cs:120-129 | a slot is non-negative exactly when the moved 3D index is valid and the cast does not hit; it is then the flat index of a grid cell whose 3D index is the moved one |
| PkgNavigationVolume.SlotGeometry | Packages/com.tecmaid.spatialpathfinding/Runtime/Volume/NavigationVolume.cs:116-157 | on a grid built by InitializeGrid, the cell a slot names lies exactly one cellSize from the cell along the slot's direction |
| PkgNavigationVolume.CenterMove | Packages/com.tecmaid.spatialpathfinding/Runtime/Volume/NavigationVolume.cs:145-148 | moving a 3D index by a direction moves its centre by the direction times cellSize |
| PkgNavigationVolume.NavigationVolume.constructor | Packages/com.tecmaid.spatialpathfinding/Runtime/Volume/NavigationVolume.cs:47-62 | the three sizes are read from the grid size, TotalCells is their product, and Cells and CellNeighbors get exactly TotalCells entries |
| PkgNavigationVolume.NavigationVolume.InitializeDirections | Packages/com.tecmaid.spatialpathfinding/Runtime/Volume/NavigationVolume.cs:93-106 | the directions array holds the six axis directions, and directionCount is 6 |
| PkgNavigationVolume.NavigationVolume.InitializeGrid | Packages/com.tecmaid.spatialpathfinding/Runtime/Volume/NavigationVolume.cs:135-157 | every slot i below TotalCells holds the cell numbered i, with its 3D index and centre |
| PkgNavigationVolume.NavigationVolume.InitializeRow | Packages/com.tecmaid.spatialpathfinding/Runtime/Volume/NavigationVolume.cs:143-154 | row (y, z)'s W cells are written at their slots |
| PkgNavigationVolume.NavigationVolume.GetNeighbours | Packages/com.tecmaid.spatialpathfinding/Runtime/Volume/NavigationVolume.cs:116-133 | the scratch array's first directionCount slots hold the cell's slots, the rest keep their old values, the cell's record is a copy of all six, and no other record changes |
| PkgNavigationVolume.NavigationVolume.GetAllCellNeighbors | Packages/com.tecmaid.spatialpathfinding/Runtime/Volume/NavigationVolume.cs:108-114 | every cell's record holds its six slots, seen from its own centre |
| PkgAStarJob.AStarJob.Execute | Packages/com.tecmaid.spatialpathfinding/Runtime/Jobs/AStarJob.cs:33-39 | both positions are snapped; the records, array queue and head end where the reference search from the start computes; WalkPoints gains the centres along the parent chain of the last dequeued cell |
| PkgAStarJob.AStarJob.SearchAndWalk | Packages/com.tecmaid.spatialpathfinding/Runtime/Jobs/AStarJob.cs:36-38 | after the snapping, the records and queue are those of the search, and WalkPoints gains the walked centres |
| PkgAStarJob.AStarJob.FindPoints | Packages/com.tecmaid.spatialpathfinding/Runtime/Jobs/AStarJob.cs:41-45 | startingPoint and endPoint are the nearest cells of the player and the target |
| PkgAStarJob.AStarJob.FindNearestCell | Packages/com.tecmaid.spatialpathfinding/Runtime/Jobs/AStarJob.cs:47-88 | the result is the two-level first-minimum lookup |
| PkgAStarJob.AStarJob.InitializeBuffers | Packages/com.tecmaid.spatialpathfinding/Runtime/Jobs/AStarJob.cs:90-100 | the start is marked (-1, 1000) and is the only queued cell; the head is 0 and currentPoint is the start's Index |
| PkgAStarJob.AStarJob.MoveToTarget | Packages/com.tecmaid.spatialpathfinding/Runtime/Jobs/AStarJob.cs:102-129 | the loop over the array queue ends in the reference search's state: records, queued history, head at the count of dequeued cells, and the last dequeued cell |
| PkgAStarJob.AStarJob.Iterate | Packages/com.tecmaid.spatialpathfinding/Runtime/Jobs/AStarJob.cs:107-128 | one guarded pass moves to the next state of the same run, keeps the invariant and never writes past the queue array |
| PkgAStarJob.AStarJob.Advance | Packages/com.tecmaid.spatialpathfinding/Runtime/Jobs/AStarJob.cs:109-127 | one pass dequeues the head and leaves the records and queue of the reference step |
| PkgAStarJob.AStarJob.VisitNeighbors | Packages/com.tecmaid.spatialpathfinding/Runtime/Jobs/AStarJob.cs:116-127 | the six-slot loop is the reference expansion of the dequeued cell, written into the array queue after its tail |
| PkgAStarJob.AStarJob.ExpandSlot | Packages/com.tecmaid.spatialpathfinding/Runtime/Jobs/AStarJob.cs:118-126 | one slot: skipped when negative or already reached, otherwise recorded with the dequeued cell as parent and its squared distance as cost, and queued at the tail |
| PkgAStarJob.AStarJob.SearchOrigin | Packages/com.tecmaid.spatialpathfinding/Runtime/Jobs/AStarJob.cs:131-142 | WalkPoints gains the centres of the parent chain from currentPoint back to the start, start excluded, and the cursor ends on the start |
| PkgFlyingAgent.WithinSelf | Packages/com.tecmaid.spatialpathfinding/Runtime/FlyingAgent.cs:92 | an agent standing on a waypoint is within any non-negative distance of it |
| PkgFlyingAgent.WithinZero | Packages/com.tecmaid.spatialpathfinding/Runtime/FlyingAgent.cs:92 | within distance 0 means standing exactly on the waypoint |
| PkgFlyingAgent.FlyingAgent.constructor | Packages/com.tecmaid.spatialpathfinding/Runtime/FlyingAgent.cs:12-41 | a new agent stands in no volume, has no path, and its cursor is 0 |
| PkgFlyingAgent.FlyingAgent.SetActiveVolume | Packages/com.tecmaid.spatialpathfinding/Runtime/FlyingAgent.cs:48-51 | only the agent's volume changes |
| PkgFlyingAgent.FlyingAgent.SetPath | Packages/com.tecmaid.spatialpathfinding/Runtime/FlyingAgent.cs:53-58 | the agent takes the path with its cursor on the last waypoint, and it has a waypoint to follow exactly when the path is not empty |
| PkgFlyingAgent.FlyingAgent.RequestPath | Packages/com.tecmaid.spatialpathfinding/Runtime/FlyingAgent.cs:71-86 | no manager gives the first warning, no volume the second, and the started-pathing event is raised exactly when both are present |
| PkgFlyingAgent.FlyingAgent.CheckWaypointPosition | Packages/com.tecmaid.spatialpathfinding/Runtime/FlyingAgent.cs:88-102 | at cursor 0 the agent finishes exactly when within stoppingDistance of Waypoints[0]; above 0 the cursor steps down exactly when within distanceUntilWaypointReached of the current waypoint; otherwise nothing changes |
| PkgFlyingAgent.FlyingAgent.Move | Packages/com.tecmaid.spatialpathfinding/Runtime/FlyingAgent.cs:65-69 | a tick finishes exactly when the agent was at its goal; the cursor steps down exactly when above 0 and within reach; the agent then takes one locomotion step towards the waypoint the cursor names, on the finishing tick too |
| PkgPathingManager.RemoveFirst | Packages/com.tecmaid.spatialpathfinding/Runtime/PathingManager.cs:78-81 | List.Remove: one element fewer when the agent is listed, the list unchanged when it is not, and nothing new appears |
| PkgPathingManager.RemoveFirstMultiset | Packages/com.tecmaid.spatialpathfinding/Runtime/PathingManager.cs:80 | List.Remove takes away exactly one copy of the agent, when there is one |
| PkgPathingManager.RemoveFirstDistinct | Packages/com.tecmaid.spatialpathfinding/Runtime/PathingManager.cs:78-81 | on a list without duplicates the removed agent is gone altogether, every other agent stays, and the list stays duplicate-free |
| PkgPathingManager.PlanPassStep | Packages/com.tecmaid.spatialpathfinding/Runtime/PathingManager.cs:90-99 | one turn of the planning loop: the agent at the index is planned, and the rest of the pass runs on the lists as that turn left them |
| PkgPathingManager.PlanPassDone | Packages/com.tecmaid.spatialpathfinding/Runtime/PathingManager.cs:90 | past the end of the calculable list the pass plans nothing and changes neither list |
| PkgPathingManager.PlanPassMovable | Packages/com.tecmaid.spatialpathfinding/Runtime/PathingManager.cs:90-99 | the movable list only grows, at its end, by agents it did not hold, so no agent is movable twice; every queued agent ends up still queued or newly movable; an agent already movable keeps its count in the queue |
| PkgPathingManager.PlanPassIsSuffixPass | Packages/com.tecmaid.spatialpathfinding/Runtime/PathingManager.cs:90-99 | on a duplicate-free queue the index-driven loop equals a pass told from the index on, leaving the part already passed untouched |
| PkgPathingManager.SuffixPassFromList | Packages/com.tecmaid.spatialpathfinding/Runtime/PathingManager.cs:90-99 | every agent a pass plans or leaves queued comes from the part of the queue it walks, and the movable list keeps its old entries as a prefix |
| PkgPathingManager.SkipAfterNewlyMovable | Packages/com.tecmaid.spatialpathfinding/Runtime/PathingManager.cs:94-97 | removing a newly movable agent while the index advances skips the agent behind it: that agent is not planned in this pass and becomes the head of what stays queued |
| PkgPathingManager.MovePassRemovesFinished | Packages/com.tecmaid.spatialpathfinding/Runtime/PathingManager.cs:106-121 | after a movement pass an agent stays movable exactly when it was not ticked into finishing; every ticked agent was movable; both lists are duplicate-free |
| PkgPathingManager.SkipAfterFinished | Packages/com.tecmaid.spatialpathfinding/Runtime/PathingManager.cs:113-116 | an agent right behind a finishing one is neither ticked nor removed in that pass, and the finishing agent leaves the list |
| PkgPathingManager.MovePassNoneFinished | Packages/com.tecmaid.spatialpathfinding/Runtime/PathingManager.cs:113-116 | when no agent finishes, every movable agent is ticked once and the list is unchanged |
| PkgPathingManager.TickStep | Packages/com.tecmaid.spatialpathfinding/Runtime/PathingManager.cs:113-116 | one turn of the movement loop: the agent at the index ticks and, when it finishes, List.Remove takes it out at that index; the rest of the pass sees only agents that were ahead of it |
| PkgPathingManager.MoveFromIsMovePass | Packages/com.tecmaid.spatialpathfinding/Runtime/PathingManager.cs:113-116 | on a duplicate-free list the index-driven loop ticks what the pass over the agents ahead of the index ticks, and leaves the passed agents followed by what that pass leaves |
| PkgPathingManager.SelectLink | Packages/com.tecmaid.spatialpathfinding/Runtime/PathingManager.cs:167-178 | the scan's choice is -1 or a link with access; a chosen link's distance is strictly below the origin's; the distance kept never exceeds the origin's |
| PkgPathingManager.SelectLinkIsFirstMinimum | Packages/com.tecmaid.spatialpathfinding/Runtime/PathingManager.cs:167-178 | the scan picks the first link with access whose distance is least among links with access, and picks none exactly when no link with access is strictly closer than the origin |
| PkgPathingManager.SelectNoneFromZero | Packages/com.tecmaid.spatialpathfinding/Runtime/PathingManager.cs:171 | from an origin distance of 0 no link is ever chosen |
| PkgPathingManager.PlanLegs | Packages/com.tecmaid.spatialpathfinding/Runtime/PathingManager.cs:181-206 | a chosen link never leads back into the origin; with no link chosen the route is one search from the agent to its target, otherwise the target leg from the partner sub-link followed by the origin leg to the chosen sub-link |
| PkgPathingManager.PlanGoalInsideOrigin | Packages/com.tecmaid.spatialpathfinding/Runtime/PathingManager.cs:130-133 | a target inside the origin's box is reached by one search in the origin and no link is chosen |
| PkgPathingManager.PlanReadFromBack | Packages/com.tecmaid.spatialpathfinding/Runtime/PathingManager.cs:181-206 | read from the back, as the agent consumes it, a two-volume route is the origin leg then the target leg |
| PkgPathingManager.LinkedPlannable | Packages/com.tecmaid.spatialpathfinding/Runtime/PathingManager.cs:181-206 | from a volume whose sub-links are all paired, a route can be planned to any target |
| PkgPathingManager.PathingManager.constructor | Packages/com.tecmaid.spatialpathfinding/Runtime/PathingManager.cs:23-45 | both agent lists and the waypoint list start empty, and no origin or target volume is set |
| PkgPathingManager.PathingManager.AddAgentToCalculation | Packages/com.tecmaid.spatialpathfinding/Runtime/PathingManager.cs:73-76 | the agent is appended to the calculable list, even when already queued |
| PkgPathingManager.PathingManager.RemoveAgentFromMovable | Packages/com.tecmaid.spatialpathfinding/Runtime/PathingManager.cs:78-81 | the first occurrence of the agent leaves the movable list; a duplicate-free list stays duplicate-free and no longer holds it |
| PkgPathingManager.PathingManager.RequestPath | Packages/com.tecmaid.spatialpathfinding/Runtime/FlyingAgent.cs:71-86 | with the manager present, the agent is queued exactly when it stands in a volume, and warned otherwise |
| PkgPathingManager.PathingManager.CalculateClosestVolumes | Packages/com.tecmaid.spatialpathfinding/Runtime/PathingManager.cs:165-179 | the chosen link, the distance kept and the target volume are those of the scan SelectLink; without a choice the index and target are unchanged; the last distance measured is the last link's |
| PkgPathingManager.PathingManager.GenerateWaypoints | Packages/com.tecmaid.spatialpathfinding/Runtime/PathingManager.cs:181-206 | same volume: one search from the agent to the target is appended; otherwise the target leg from the partner sub-link, then the origin leg from the agent to the chosen sub-link |
| PkgPathingManager.PathingManager.ChooseTarget | Packages/com.tecmaid.spatialpathfinding/Runtime/PathingManager.cs:123-133 | origin is the agent's volume; the target volume and link index are those the routing selection names |
| PkgPathingManager.PathingManager.CalculateAStarPath | Packages/com.tecmaid.spatialpathfinding/Runtime/PathingManager.cs:123-143 | the agent gets a fresh path holding the planned route, with the cursor on its last waypoint, and the shared waypoint list is cleared |
| PkgPathingManager.PathingManager.CalculateAllAgentPaths | Packages/com.tecmaid.spatialpathfinding/Runtime/PathingManager.cs:83-104 | the planned agents and both lists are those of the pass PlanPass; the movable list stays duplicate-free; planned agents hold fresh paths with the cursor on the last waypoint; queued agents not planned keep path and cursor |
| PkgPathingManager.PathingManager.MoveAllAgents | Packages/com.tecmaid.spatialpathfinding/Runtime/PathingManager.cs:106-121 | the ticked agents and the movable list are those of the pass MovePass; each ticked agent has moved by one tick from where it stood; every other movable agent is as it was |
| PkgPathingManager.PathingManager.TickAgent | Packages/com.tecmaid.spatialpathfinding/Runtime/PathingManager.cs:113-116 | the agent ticks and leaves the movable list exactly when it finishes; the list stays duplicate-free |
| PkgPathingManager.PathingManager.PlanAgent | Packages/com.tecmaid.spatialpathfinding/Runtime/PathingManager.cs:92-98 | the agent is planned; if it was not movable it is appended to the movable list and removed from the queue, otherwise both lists are unchanged |

## Left out

- Engine physics: `Physics.BoxCast`, `Physics.Raycast` and the overlap-sphere lookup are not modelled. Obstacle tests enter as the parameter `hit`. The link lookup enters as the parameter `lookup` in the com.tecmaid link, and as its two results `hits1` and `hits2` in the older link.
- Engine geometry and distance: `Bounds.ClosestPoint` is not modelled. The router takes it as the parameter `closest`; `BoundingBoxChecker.ClosestPoint` is the clamp it is proved against. The engine's `math.distance` used by the first version's nearest-cell job is an abstract key.
- `CheckTraverseAccess`: its source is not part of this model. It enters the router as the parameter `access`.
- The search jobs seen from the router: `GenerateWaypoints` takes the per-volume search as the parameter `search`. The search jobs themselves are modelled in their own modules.
- `SmoothPath` and the `PATHSMOOTHING` modifier of the com.tecmaid manager: physics casts over waypoints. The model plans as with the default modifier `NONE`.
- Agent locomotion: `ApplyRotationAndPosition`, speed curves, `Time.deltaTime` and rotations. This is the parameter `step`, which gives the next position from the current one and the waypoint steered at.
- The coroutine agents under `Assets/Scripts/Agent` and `Assets/SpatialPathfinding/Scripts/Agent`, and `Assets/AgentController.cs`: frame-driven engine callbacks.
- `Update` of the com.tecmaid manager: this per-frame composition of `CalculateAllAgentPaths` and `MoveAllAgents` is not one method. Both halves are modelled.
- Job scheduling: `Schedule`/`Complete`, Burst, allocation and `Dispose` of native buffers, and both `JobFactory.cs` files are not modelled. Jobs are built by their constructors with the buffers they are handed, and native buffers are arrays or sequences. A job is a struct and runs as a copy, so a scalar field the job writes is not seen by its caller, while the native containers it holds are shared; RunMoveToTargetJob models this with a second job object.
- Both `GetNeighborsJob.cs` files are batched physics commands. The neighbour tables are modelled through the volumes' own loops and `GetNeighborsSimpleJob`.
- `Assets/SpatialPathfinding/Scripts/Heap.cs`: its sift-up never updates the element it compares, and its sift-down orders as a max-heap, so there is no heap contract to state. Only the first version's heap is modelled.
- Timing (stopwatches), singletons (`CreateInstance`), static event delegates, and the engine hooks `Awake`, `OnValidate`, `OnTriggerEnter`, `CollectAgents` and the gizmo drawing are not modelled. Sizing done in `Awake` and `Start` is modelled as the constructors and `Start` methods. Events are returned to the caller as values.
- Warnings written to the console are returned as values. The log itself is not modelled.
- `NavigationVolumeCulling`, `NavigationObstacle`, the editor tooling and `PathSmoothingJob` (a stub) are not modelled.
- Floating point: positions, sizes and distances are exact reals, and `float.MaxValue` is kept as its exact value. Rounding is not modelled. The first version's integer centring offsets are C# truncating division, written out.
- PkgAStarJob.AStarJob.Execute: requires that no cell's centre lies exactly on the target, so every cost is positive. The source also runs when a cost is 0, but it then queues a cell twice (see Findings). The same requirement holds, for the same reason, on SpAStarJob.AStarJob.Execute and SpPathingManager.PathingManager.AStar.
- ScriptsMoveToTargetJob.MoveToTargetJob.Execute and ScriptsPathingManager.PathingManager.AStar: require every cost to be positive as well. In the first version a zero cost can do worse than queue a cell twice: that job stops only on an empty queue, and a cell whose open slot snaps back onto itself is queued again on every pass, so the loop does not terminate (see Findings).
- SpAStarJob.AStarJob.Execute: also requires the positions to be snappable (the chosen core's sub-cell list holds at least TotalCellsPerCore entries), which the source needs to stay in bounds.
- PkgPathingManager.PathingManager.CalculateAllAgentPaths: states each planned agent's fresh path and cursor, but not the waypoints of that path. Those are stated per agent by CalculateAStarPath. It requires every queued agent to stand in a volume whose sub-links are all paired; the source fails on a null volume there.
- PkgFlyingAgent.FlyingAgent.CheckWaypointPosition, PkgFlyingAgent.FlyingAgent.Move, SpFlyingAgent.FlyingAgent.Move, PkgPathingManager.PathingManager.MoveAllAgents and PkgPathingManager.PathingManager.TickAgent: require every agent that moves to hold a non-empty path (`Following`). The program does reach an empty path: when an agent and its target snap to the same cell the search walk is empty (Bfs.SearchFromGoal), and SetPath then leaves the cursor at -1. Such an agent throws at `Waypoints[0]` on its first tick (Packages/com.tecmaid.spatialpathfinding/Runtime/FlyingAgent.cs:92, Assets/SpatialPathfinding/Scripts/FlyingAgent.cs:73). The throw aborts the movement loop (Packages/com.tecmaid.spatialpathfinding/Runtime/PathingManager.cs:113-116), so in every frame the agents behind it do not move and it never leaves the movable list. That failure is not modelled.
- PkgPathingManager.PathingManager.MoveAllAgents: takes the agents whose tick finishes as a ghost set. The requires fixes the set to exactly the agents at their goal, so it adds no choice.
- ScriptsPathingManager.PathingManager.constructor: requires cellSize of at least 1, the inspector range of `cellSize`, and unsigned components of `cellAmount`. A negative component makes `Awake` allocate with a negative size, or, when two are negative, leaves cores and records that `InitializeGrid`'s loops never fill; those configurations are not modelled. Any unsigned `amountOfCellsPerMainCell`, including its default 0, is accepted.
- SpNavigationLink.NavigationLink.Start and SpNavigationLink.NavigationLink.GenerateLinks: require the two sub-links to be distinct objects, as does PkgNavigationLink.NavigationLink.GenerateLinks. With one object in both fields the second half of GenerateLinks overwrites the first, and that aliasing is not modelled.
- PkgAStarJob.AStarJob.Execute: requires the cores, TotalCores and TotalCellsPerCore to describe the volume's grid, as the SpatialPathfinding factory fills them (Assets/SpatialPathfinding/Scripts/Helpers/JobFactory.cs:17-33). The com.tecmaid factory (Packages/com.tecmaid.spatialpathfinding/Runtime/Helpers/JobFactory.cs:14-31) sets none of the three and assigns width, height and depth fields the job does not declare, so the model assumes a factory that fills the cores.
- ScriptsPathingManager.PathingManager.AStar, ScriptsPathingManager.PathingManager.FindPoints and ScriptsPathingManager.PathingManager.FindNearestCell: require a non-empty grid. The constructor also accepts an empty one (the default `amountOfCellsPerMainCell` of 0, or a zero `cellAmount` component), and on it every repeated `AStar` call throws: with k = 0, `FindNearestCell` skips its cell loop and returns 0, and `InitializeBuffers` then writes `tempData[0]` of an empty array (Assets/Scripts/PathingManager.cs:107-108); with no cores it throws at `cores[closestCore]` (Assets/Scripts/PathingManager.cs:197). Those throws are not modelled.
- `CalculationHelper.FlattenIndex` and `CalculationHelper.CheckIfIndexValid`, which the com.tecmaid neighbour code calls (Packages/com.tecmaid.spatialpathfinding/Runtime/Volume/NavigationVolume.cs:120-123, Packages/com.tecmaid.spatialpathfinding/Runtime/Jobs/GetNeighborsSimpleJob.cs:43-45), are not part of this model: the CalculationHelper.cs at hand defines neither. CellIndex.FlattenIndex and CellIndex.CheckIfIndexValid reconstruct them as `x + W * (y + H * z)` and the half-open range test, to agree with the x-fastest numbering of `InitializeGrid` (Packages/com.tecmaid.spatialpathfinding/Runtime/Volume/NavigationVolume.cs:137-153). The neighbour lemmas and the index round trips rest on these bodies.
- Integer width: totals, counters and indices are unbounded integers. The source computes the grid totals in 32-bit arithmetic (Assets/Scripts/PathingManager.cs:53, Packages/com.tecmaid.spatialpathfinding/Runtime/Volume/NavigationVolume.cs:53, and a `uint` product cast to `int` in Assets/SpatialPathfinding/Scripts/Volume/NavigationVolume.cs:50-52), so a grid of more than 2^31 - 1 cells wraps around there and does not in the model.
- Bfs.Walk: follows at most `fuel` parents. The search lemmas use the history length as fuel and prove that the walk then reaches the start, so the bound cuts nothing off in the cases the model uses.

## Findings

| source | as written | input that shows it | evidently intended | confidence | as-written member | corrected member |
|---|---|---|---|---|---|---|
| Packages/com.tecmaid.spatialpathfinding/Runtime/Jobs/AStarJob.cs:120-126 | a positive cost is the "reached" mark, but a neighbour whose centre lies exactly on the target gets cost 0, so it stays unmarked and can be queued again; the array queue can then overflow | a four-cell diamond (0 linked to 1 and 2, both linked to 3) with cell 3's centre on the target: cell 3 is queued twice, five queue entries for four cells | queue a cell only if it was never queued before, whatever its cost | not executed | Bfs.ZeroCostRequeues | Bfs.ExpandOnce, with Bfs.ExpandOnceDistinct and Bfs.ExpandOnceAgrees (equal to the written loop whenever every cost is positive) |
| Assets/Scripts/Heap.cs:45-53 | after the first shift, the sift-down compares the children with Elements[smallestIndex], the stale value left in the hole, instead of the element being sifted | popping the heap [1,2,3,4,5,6,7] leaves 7 above 4 and 5, and the fourth pop returns 5 while 4 is still held | compare the children with the held element | not executed | ScriptsHeap.PopAsWritten, ScriptsHeap.PopAsWrittenBreaksOrder | ScriptsHeap.Heap.ReCalculateDown, ScriptsHeap.Heap.Pop |
| Assets/Scripts/Jobs/MoveToTargetJob.cs:28-48 | the loop stops only on an empty queue, since `CurrentPoint != EndPoint` compares two distinct buffers, and a cell reached with cost 0 stays unmarked; a boundary cell whose outward slot snaps back onto itself (Assets/Scripts/PathingManager.cs:227-231) is then queued again by every pass | two cells, 0 linked to 1 and 1's open slot naming 1 itself, with cell 1's centre on the target: after every pass the queue is [1] again and the records do not change, so the job never returns | queue a cell only if it was never queued before, whatever its cost, so the queue empties after at most one pass per cell | not executed | Bfs.ZeroCostSelfLoop | Bfs.ExpandOnce, with Bfs.ExpandOnceDistinct (the history stays duplicate-free, so no cell is queued twice) and Bfs.ExpandOnceAgrees |
