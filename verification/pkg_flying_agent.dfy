// Packages/com.tecmaid.spatialpathfinding/Runtime/FlyingAgent.cs: the
// agent's waypoint cursor.  A path is consumed from its last index down to
// 0: SetPath puts the cursor on the last waypoint, each tick within reach of
// the current waypoint steps it one lower, and at index 0 a tick within
// stoppingDistance of Waypoints[0] raises the finished event.  Position is
// the agent's transform position (InitialPos); locomotion is a parameter
// step giving the next position from the current one and the waypoint
// steered at.  The finished event is returned to the caller, which runs the
// manager's handler.

module PkgFlyingAgent {
  import opened Vectors
  import opened PkgCalculationHelper
  import opened PkgNavigationPath
  import PkgNavigationVolume

  /**
   * math.distance(a, b) <= r over exact arithmetic: the distance is the
   * square root of the squared distance, so it is at most r exactly when r
   * is not negative and the squared distance is at most r squared.
   */
  predicate Within(a: Float3, b: Float3, r: real)
  {
    0.0 <= r && CalculateSquaredDistance(a, b) <= Square(r)
  }

  /** Standing on a waypoint is within any non-negative distance of it. */
  lemma WithinSelf(a: Float3, r: real)
    ensures Within(a, a, r) <==> 0.0 <= r
  {
    SquaredDistanceZeroIff(a, a);
  }

  /** Within distance 0 means standing exactly on the point. */
  lemma WithinZero(a: Float3, b: Float3)
    ensures Within(a, b, 0.0) <==> a == b
  {
    SquaredDistanceZeroIff(a, b);
    assert Square(0.0) == 0.0;
  }

  /** What RequestPath did: warned about a missing manager or volume, or raised OnAgentStartedPathing. */
  datatype Request = NoManager | NotInsideVolume | Started

  class FlyingAgent {
    var ActiveVolume: PkgNavigationVolume.NavigationVolume?
    var Position: Float3
    var TargetPos: Float3
    const stoppingDistance: real
    const distanceUntilWaypointReached: real
    var activePath: NavigationPath?
    var currentWayPointIndex: int

    constructor(position: Float3, targetPos: Float3, stoppingDistance: real, distanceUntilWaypointReached: real)
      ensures ActiveVolume == null && Position == position && TargetPos == targetPos
      ensures this.stoppingDistance == stoppingDistance
      ensures this.distanceUntilWaypointReached == distanceUntilWaypointReached
      ensures activePath == null && currentWayPointIndex == 0
    {
      ActiveVolume, Position, TargetPos := null, position, targetPos;
      this.stoppingDistance, this.distanceUntilWaypointReached := stoppingDistance, distanceUntilWaypointReached;
      activePath, currentWayPointIndex := null, 0;
    }

    /** The agent holds a non-empty path and the cursor indexes one of its waypoints. */
    ghost predicate Following()
      reads this`activePath, this`currentWayPointIndex
    {
      activePath != null && 0 <= currentWayPointIndex < activePath.Waypoints.Length
    }

    /** On the last waypoint to reach (index 0) and within stoppingDistance of it: the next tick finishes. */
    ghost predicate AtGoal()
      requires Following()
      reads this`activePath, this`currentWayPointIndex, this`Position, activePath.Waypoints
    {
      currentWayPointIndex == 0 && Within(Position, activePath.Waypoints[0], stoppingDistance)
    }

    /**
     * What a tick from cursor cursor and position pos leaves: the cursor one
     * lower when it was above 0 and pos was within distanceUntilWaypointReached
     * of that waypoint, and otherwise where it was; and the position one step
     * from pos towards the waypoint the cursor then names.
     */
    ghost predicate TickedFrom(cursor: int, pos: Float3, step: (Float3, Float3) -> Float3)
      requires Following()
      reads this`activePath, this`currentWayPointIndex, this`Position, activePath.Waypoints
    {
      && 0 <= cursor < activePath.Waypoints.Length
      && currentWayPointIndex
         == (if 0 < cursor && Within(pos, activePath.Waypoints[cursor], distanceUntilWaypointReached) then cursor - 1 else cursor)
      && Position == step(pos, activePath.Waypoints[currentWayPointIndex])
    }

    /** Replaces the volume the agent stands in and nothing else. */
    method SetActiveVolume(activeVolume: PkgNavigationVolume.NavigationVolume?)
      modifies this`ActiveVolume
      ensures ActiveVolume == activeVolume
    {
      ActiveVolume := activeVolume;
    }

    /**
     * Takes the path and puts the cursor on its last waypoint; the agent
     * follows it exactly when the path is not empty (an empty path leaves
     * the cursor at -1).
     */
    method SetPath(calculatedPath: NavigationPath)
      modifies this`activePath, this`currentWayPointIndex
      ensures activePath == calculatedPath
      ensures currentWayPointIndex == calculatedPath.Waypoints.Length - 1
      ensures Following() <==> 0 < calculatedPath.Waypoints.Length
    {
      activePath := calculatedPath;
      currentWayPointIndex := activePath.Waypoints.Length - 1;
    }

    /**
     * The tests before OnAgentStartedPathing; managerPresent says whether
     * PathingManager.Instance is set.  The event is raised exactly when
     * both a manager and a volume are there.
     */
    method RequestPath(managerPresent: bool) returns (r: Request)
      ensures r == NoManager <==> !managerPresent
      ensures r == NotInsideVolume <==> managerPresent && ActiveVolume == null
      ensures r == Started <==> managerPresent && ActiveVolume != null
    {
      if !managerPresent {
        return NoManager;
      }
      if ActiveVolume == null {
        return NotInsideVolume;
      }
      r := Started;
    }

    /**
     * One cursor check.  At index 0 the agent finishes when within
     * stoppingDistance of Waypoints[0], leaving the cursor as it is; above 0
     * the cursor steps down by one when within distanceUntilWaypointReached
     * of the current waypoint.  The cursor never leaves the path.
     */
    method CheckWaypointPosition() returns (finished: bool)
      requires Following()
      modifies this`currentWayPointIndex
      ensures Following()
      ensures finished <==> old(currentWayPointIndex) == 0 && Within(Position, activePath.Waypoints[0], stoppingDistance)
      ensures currentWayPointIndex == old(currentWayPointIndex) - 1 <==>
        0 < old(currentWayPointIndex)
        && Within(Position, activePath.Waypoints[old(currentWayPointIndex)], distanceUntilWaypointReached)
      ensures currentWayPointIndex == old(currentWayPointIndex) || currentWayPointIndex == old(currentWayPointIndex) - 1
    {
      finished := false;
      if currentWayPointIndex <= 0 {
        if Within(Position, activePath.Waypoints[0], stoppingDistance) {
          finished := true;
          return;
        }
      } else if Within(Position, activePath.Waypoints[currentWayPointIndex], distanceUntilWaypointReached) {
        currentWayPointIndex := currentWayPointIndex - 1;
      }
    }

    /**
     * A tick: the cursor check, then a step towards the current waypoint.
     * The step is taken on the finishing tick too, since the early return
     * of CheckWaypointPosition leaves only CheckWaypointPosition.
     */
    method Move(step: (Float3, Float3) -> Float3) returns (finished: bool)
      requires Following()
      modifies this`currentWayPointIndex, this`Position
      ensures Following()
      ensures finished <==> old(AtGoal())
      ensures TickedFrom(old(currentWayPointIndex), old(Position), step)
    {
      finished := CheckWaypointPosition();
      Position := step(Position, activePath.Waypoints[currentWayPointIndex]);
    }
  }
}
