// Assets/SpatialPathfinding/Scripts/FlyingAgent.cs: the older agent.  Each
// tick does exactly one of three things: finish (cursor at 0 and within
// stoppingDistance of Waypoints[0]), advance (within stoppingDistance of
// the current waypoint: the cursor steps down and the agent stays put) or
// move (a locomotion step towards the current waypoint, given as the
// parameter step).  Both tests use stoppingDistance.  The events are
// returned to the caller.

module SpFlyingAgent {
  import opened Vectors
  import SpCalculationHelper
  import opened SpNavigationPath
  import SpNavigationVolume

  /** The float3 view of a Vector3 that math.distance works on. */
  function AsFloat3(v: Vector3): Float3
  {
    Float3(v.x, v.y, v.z)
  }

  /** math.distance(a, b) <= r over exact arithmetic. */
  predicate Within(a: Vector3, b: Vector3, r: real)
  {
    0.0 <= r && SpCalculationHelper.CalculateSquaredDistance(AsFloat3(a), AsFloat3(b)) <= Square(r)
  }

  /** What a call of Move did. */
  datatype Tick = Finished | Advanced | Moved

  class FlyingAgent {
    var ActiveVolume: SpNavigationVolume.NavigationVolume?
    var Position: Vector3
    var TargetPos: Vector3
    const stoppingDistance: real
    var activePath: NavigationPath?
    var currentWayPointIndex: int

    constructor(position: Vector3, targetPos: Vector3, stoppingDistance: real)
      ensures ActiveVolume == null && Position == position && TargetPos == targetPos
      ensures this.stoppingDistance == stoppingDistance
      ensures activePath == null && currentWayPointIndex == 0
    {
      ActiveVolume, Position, TargetPos := null, position, targetPos;
      this.stoppingDistance := stoppingDistance;
      activePath, currentWayPointIndex := null, 0;
    }

    /** The agent holds a non-empty path and the cursor indexes one of its waypoints. */
    ghost predicate Following()
      reads this`activePath, this`currentWayPointIndex
    {
      activePath != null && 0 <= currentWayPointIndex < activePath.Waypoints.Length
    }

    /** Replaces the volume the agent stands in and nothing else. */
    method AddActiveVolume(activeVolume: SpNavigationVolume.NavigationVolume?)
      modifies this`ActiveVolume
      ensures ActiveVolume == activeVolume
    {
      ActiveVolume := activeVolume;
    }

    /** Takes the path and puts the cursor on its last waypoint. */
    method SetPath(calculatedPath: NavigationPath)
      modifies this`activePath, this`currentWayPointIndex
      ensures activePath == calculatedPath
      ensures currentWayPointIndex == calculatedPath.Waypoints.Length - 1
      ensures Following() <==> 0 < calculatedPath.Waypoints.Length
    {
      activePath := calculatedPath;
      currentWayPointIndex := activePath.Waypoints.Length - 1;
    }

    /** OnAgentStartedPathing is raised exactly when the agent stands in a volume; otherwise it only warns. */
    method RequestPath() returns (started: bool)
      ensures started <==> ActiveVolume != null
    {
      if ActiveVolume == null {
        return false;
      }
      started := true;
    }

    /**
     * One tick.  Exactly one branch runs; an advance happens only above
     * index 0, because at 0 its test is the finish test that just failed,
     * so the cursor never leaves the path.
     */
    method Move(step: (Vector3, Vector3) -> Vector3) returns (t: Tick)
      requires Following()
      modifies this`currentWayPointIndex, this`Position
      ensures Following()
      ensures t == Finished <==>
        old(currentWayPointIndex) == 0 && Within(old(Position), activePath.Waypoints[0], stoppingDistance)
      ensures t == Advanced <==>
        t != Finished && Within(old(Position), activePath.Waypoints[old(currentWayPointIndex)], stoppingDistance)
      ensures t == Advanced ==> 0 < old(currentWayPointIndex)
      ensures t == Finished ==> currentWayPointIndex == old(currentWayPointIndex) && Position == old(Position)
      ensures t == Advanced ==> currentWayPointIndex == old(currentWayPointIndex) - 1 && Position == old(Position)
      ensures t == Moved ==>
        currentWayPointIndex == old(currentWayPointIndex)
        && Position == step(old(Position), activePath.Waypoints[currentWayPointIndex])
    {
      if currentWayPointIndex <= 0 && Within(Position, activePath.Waypoints[0], stoppingDistance) {
        return Finished;
      } else if Within(Position, activePath.Waypoints[currentWayPointIndex], stoppingDistance) {
        currentWayPointIndex := currentWayPointIndex - 1;
        t := Advanced;
      } else {
        Position := step(Position, activePath.Waypoints[currentWayPointIndex]);
        t := Moved;
      }
    }
  }
}
