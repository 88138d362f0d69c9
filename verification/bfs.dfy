// The search every version of the pathfinder runs under the name AStar: a
// first-in-first-out queue seeded with the start cell.  A dequeued cell's
// six neighbour slots are read in order; a slot is skipped when it is
// negative or names a cell whose recorded cost is positive, and otherwise
// that cell gets the dequeued cell as parent, the squared distance of its
// centre to the target as cost, and a place at the back of the queue.  The
// cost is only ever used as the "already reached" mark; it never orders the
// queue.  Parents are then followed back from the last dequeued cell to the
// start.
//
// The queue's whole history (every cell ever queued, in order) is the
// sequence hist; the cells dequeued so far are hist[..head] and the queue
// itself is hist[head..].

module Bfs {
  import opened Vectors
  import opened Structs
  import opened NeighborRecord

  /** The record InitializeBuffers gives the start: no parent, cost 1000. */
  const StartMark: TempData := TempData(-1, 1000.0)

  /** A freshly allocated record: parent 0, cost 0. */
  const Unreached: TempData := TempData(0, 0.0)

  /** The searches' visited test: a cell counts as reached once its cost is positive. */
  predicate Marked(t: TempData)
  {
    t.FCost > 0.0
  }

  /** Every cell has at least six slots, and each slot is negative or the index of a cell. */
  predicate Graph(graph: seq<NeighborData>)
  {
    forall c :: 0 <= c < |graph| ==>
      |graph[c].Neighbors| >= SlotCount && forall i :: 0 <= i < SlotCount ==> graph[c].Neighbors[i] < |graph|
  }

  /** The six slots the expansion loop reads. */
  function Slots(graph: seq<NeighborData>, c: int): (r: seq<int>)
    requires Graph(graph) && 0 <= c < |graph|
    ensures |r| == SlotCount && forall i :: 0 <= i < SlotCount ==> r[i] < |graph|
  {
    graph[c].Neighbors[..SlotCount]
  }

  /** b is named by one of a's six slots. */
  predicate Edge(graph: seq<NeighborData>, a: int, b: int)
  {
    0 <= a < |graph| && |graph[a].Neighbors| >= SlotCount && 0 <= b && b in graph[a].Neighbors[..SlotCount]
  }

  /** A walk that follows slots from each cell to the next. */
  predicate IsPath(graph: seq<NeighborData>, p: seq<int>)
  {
    forall i :: 0 <= i < |p| - 1 ==> Edge(graph, p[i], p[i + 1])
  }

  /** The cost each cell would be given: the key of its centre and the target. */
  function Costs<C>(cells: seq<C>, cellPos: C -> Float3, target: Float3, key: (Float3, Float3) -> real): (r: seq<real>)
    ensures |r| == |cells| && forall c :: 0 <= c < |cells| ==> r[c] == key(cellPos(cells[c]), target)
  {
    seq(|cells|, i requires 0 <= i < |cells| => key(cellPos(cells[i]), target))
  }

  predicate Positive(costs: seq<real>)
  {
    forall c :: 0 <= c < |costs| ==> costs[c] > 0.0
  }

  predicate SlotsInRange(slots: seq<int>, n: int)
  {
    forall i :: 0 <= i < |slots| ==> slots[i] < n
  }

  predicate InRange(s: seq<int>, n: int)
  {
    forall i :: 0 <= i < |s| ==> 0 <= s[i] < n
  }

  predicate Distinct(s: seq<int>)
  {
    forall i, j :: 0 <= i < j < |s| ==> s[i] != s[j]
  }

  /**
   * The six-slot loop for the dequeued cell cur, as written: the records
   * after the loop, and the cells it queued, in order.
   */
  function Expand(td: seq<TempData>, cur: int, slots: seq<int>, costs: seq<real>): (r: (seq<TempData>, seq<int>))
    requires |costs| == |td| && SlotsInRange(slots, |td|)
    ensures |r.0| == |td|
    decreases |slots|
  {
    if slots == [] then (td, [])
    else
      var p := Expand(td, cur, slots[..|slots| - 1], costs);
      var s := slots[|slots| - 1];
      if s < 0 || Marked(p.0[s]) then p
      else (p.0[s := TempData(cur, costs[s])], p.1 + [s])
  }

  /** One iteration of the search loop: dequeue hist[head] and expand it. */
  function Step(graph: seq<NeighborData>, costs: seq<real>, td: seq<TempData>, hist: seq<int>, head: int)
    : (r: (seq<TempData>, seq<int>))
    requires Graph(graph) && |graph| == |td| && |costs| == |td|
    requires 0 <= head < |hist| && 0 <= hist[head] < |td|
    ensures |r.0| == |td|
  {
    var e := Expand(td, hist[head], Slots(graph, hist[head]), costs);
    (e.0, hist + e.1)
  }

  /** Step is the six-slot expansion of the dequeued cell, appended to the history. */
  lemma StepExpands(graph: seq<NeighborData>, costs: seq<real>, td: seq<TempData>, hist: seq<int>, head: int,
                    d: seq<TempData>, q: seq<int>)
    requires Graph(graph) && |graph| == |td| && |costs| == |td|
    requires 0 <= head < |hist| && 0 <= hist[head] < |td|
    requires (d, q) == Expand(td, hist[head], Slots(graph, hist[head]), costs)
    ensures Step(graph, costs, td, hist, head).0 == d && Step(graph, costs, td, hist, head).1 == hist + q
    ensures |hist + q| == |hist| + |q|
  {
  }

  /** A cell is marked exactly when it has been queued. */
  ghost predicate MarksMatch(td: seq<TempData>, hist: seq<int>)
  {
    forall c :: 0 <= c < |td| ==> (Marked(td[c]) <==> c in hist)
  }

  /**
   * Every queued cell but the start records as parent a cell queued before
   * it and already dequeued, whose slots name it.
   */
  ghost predicate ParentsOk(graph: seq<NeighborData>, td: seq<TempData>, hist: seq<int>, head: int)
    requires InRange(hist, |td|) && 0 <= head <= |hist|
  {
    forall k :: 0 < k < |hist| ==> ParentDone(graph, td, hist, head, k)
  }

  /** The k-th queued cell's parent was queued before it and is among the first head dequeued. */
  ghost predicate ParentDone(graph: seq<NeighborData>, td: seq<TempData>, hist: seq<int>, head: int, k: int)
    requires 0 <= head <= |hist| && 0 <= k < |hist|
  {
    ParentBefore(graph, td, hist, k) && td[hist[k]].ParentIndex in hist[..head]
  }

  /** Every slot in slots is negative or names a marked cell. */
  ghost predicate AllMarked(td: seq<TempData>, slots: seq<int>)
    requires SlotsInRange(slots, |td|)
  {
    forall i :: 0 <= i < |slots| && slots[i] >= 0 ==> Marked(td[slots[i]])
  }

  /** The first upto dequeued cells have all their slot neighbours marked. */
  ghost predicate ClosedOk(graph: seq<NeighborData>, td: seq<TempData>, hist: seq<int>, upto: int)
    requires Graph(graph) && |graph| == |td| && InRange(hist, |td|) && 0 <= upto <= |hist|
  {
    forall j :: 0 <= j < upto ==> Closed(graph, td, hist, j)
  }

  /** The j-th queued cell has all its slot neighbours marked. */
  ghost predicate Closed(graph: seq<NeighborData>, td: seq<TempData>, hist: seq<int>, j: int)
    requires Graph(graph) && |graph| == |td| && InRange(hist, |td|) && 0 <= j < |hist|
  {
    AllMarked(td, Slots(graph, hist[j]))
  }

  /** Everything the search keeps true except the closure of the dequeued cells. */
  ghost predicate InvCore(graph: seq<NeighborData>, costs: seq<real>, td: seq<TempData>, hist: seq<int>, head: int,
                          start: int)
  {
    && |graph| == |td| && |costs| == |td| && Graph(graph) && Positive(costs)
    && 0 <= start < |td| && 0 < |hist| && hist[0] == start && 0 <= head <= |hist|
    && InRange(hist, |td|) && Distinct(hist)
    && MarksMatch(td, hist)
    && td[start] == StartMark
    && ParentsOk(graph, td, hist, head)
  }

  /** The search invariant. */
  ghost predicate Inv(graph: seq<NeighborData>, costs: seq<real>, td: seq<TempData>, hist: seq<int>, head: int,
                      start: int)
  {
    InvCore(graph, costs, td, hist, head, start) && ClosedOk(graph, td, hist, head)
  }

  /** InitializeBuffers on fresh records establishes the invariant, with only the start queued. */
  lemma InitialInv(graph: seq<NeighborData>, costs: seq<real>, td: seq<TempData>, start: int)
    requires |graph| == |td| && |costs| == |td| && Graph(graph) && Positive(costs)
    requires 0 <= start < |td|
    requires forall c :: 0 <= c < |td| ==> !Marked(td[c])
    ensures Inv(graph, costs, td[start := StartMark], [start], 0, start)
  {
    var td' := td[start := StartMark];
    forall c | 0 <= c < |td'|
      ensures Marked(td'[c]) <==> c in [start]
    {
    }
  }

  /** Marks only grow, so closure facts about earlier marks carry over to an extended history. */
  lemma ClosedGrow(graph: seq<NeighborData>, td: seq<TempData>, td': seq<TempData>, hist: seq<int>, hist': seq<int>,
                   upto: int)
    requires Graph(graph) && |graph| == |td| && |td'| == |td|
    requires InRange(hist, |td|) && InRange(hist', |td|) && 0 <= upto <= |hist| && hist <= hist'
    requires forall c :: 0 <= c < |td| && Marked(td[c]) ==> Marked(td'[c])
    requires ClosedOk(graph, td, hist, upto)
    ensures ClosedOk(graph, td', hist', upto)
  {
    forall j | 0 <= j < upto
      ensures Closed(graph, td', hist', j)
    {
      assert Closed(graph, td, hist, j);
      assert hist'[j] == hist[j];
      assert AllMarked(td, Slots(graph, hist[j]));
    }
  }

  /** Queuing an unmarked cell s marks it and keeps the history distinct. */
  lemma RelaxMarks(td: seq<TempData>, h: seq<int>, s: int, t: TempData)
    requires InRange(h, |td|) && Distinct(h) && MarksMatch(td, h)
    requires 0 <= s < |td| && !Marked(td[s]) && Marked(t)
    ensures s !in h
    ensures InRange(h + [s], |td|) && Distinct(h + [s]) && MarksMatch(td[s := t], h + [s])
  {
    var td' := td[s := t];
    var h' := h + [s];
    forall c | 0 <= c < |td'|
      ensures Marked(td'[c]) <==> c in h'
    {
      if c != s {
        assert c in h' <==> c in h;
      }
    }
  }

  /** Queuing s with the dequeued cell h[head] as parent keeps every recorded parent valid. */
  lemma RelaxParents(graph: seq<NeighborData>, td: seq<TempData>, h: seq<int>, head: int, s: int, cost: real)
    requires InRange(h, |td|) && 0 <= head < |h| && ParentsOk(graph, td, h, head + 1)
    requires 0 <= s < |td| && s !in h && Edge(graph, h[head], s)
    ensures InRange(h + [s], |td|)
    ensures ParentsOk(graph, td[s := TempData(h[head], cost)], h + [s], head + 1)
  {
    var cur := h[head];
    var td' := td[s := TempData(cur, cost)];
    var h' := h + [s];
    var done := head + 1;
    forall k | 0 < k < |h'|
      ensures ParentDone(graph, td', h', done, k)
    {
      assert h'[..head + 1] == h[..head + 1];
      if k < |h| {
        assert ParentDone(graph, td, h, head + 1, k);
        assert h'[k] == h[k] && h[k] != s;
        assert h'[..k] == h[..k];
      } else {
        assert td'[h'[k]].ParentIndex == cur && h'[head] == cur;
      }
    }
  }

  /**
   * Queuing an unmarked slot neighbour s of the dequeued cell h[head]
   * keeps the invariant: s is new to the history, becomes marked, and
   * records h[head], which it is a slot neighbour of, as parent.
   */
  lemma RelaxKeeps(graph: seq<NeighborData>, costs: seq<real>, td: seq<TempData>, h: seq<int>, head: int, start: int,
                   s: int, done: seq<int>)
    requires InvCore(graph, costs, td, h, head + 1, start) && 0 <= head && ClosedOk(graph, td, h, head)
    requires 0 <= s < |td| && !Marked(td[s]) && Edge(graph, h[head], s)
    requires SlotsInRange(done, |td|) && AllMarked(td, done)
    ensures var td' := td[s := TempData(h[head], costs[s])];
      && InvCore(graph, costs, td', h + [s], head + 1, start)
      && ClosedOk(graph, td', h + [s], head)
      && AllMarked(td', done + [s])
  {
    var td' := td[s := TempData(h[head], costs[s])];
    RelaxMarks(td, h, s, TempData(h[head], costs[s]));
    RelaxParents(graph, td, h, head, s, costs[s]);
    assert start in h;
    ClosedGrow(graph, td, td', h, h + [s], head);
  }

  /** Dequeuing one more cell keeps every parent among the dequeued cells. */
  lemma ParentsWiden(graph: seq<NeighborData>, td: seq<TempData>, hist: seq<int>, head: int)
    requires InRange(hist, |td|) && 0 <= head < |hist| && ParentsOk(graph, td, hist, head)
    ensures ParentsOk(graph, td, hist, head + 1)
  {
    var done := head + 1;
    forall k | 0 < k < |hist|
      ensures ParentDone(graph, td, hist, done, k)
    {
      assert ParentDone(graph, td, hist, head, k);
      assert hist[..head] <= hist[..head + 1];
    }
  }

  /**
   * After the first m slots of the six-slot loop for the dequeued cell
   * hist[head], the invariant holds with that cell counted as dequeued,
   * except that of its slots only the first m are known to be negative or
   * marked.
   */
  ghost predicate ExpandOk(graph: seq<NeighborData>, costs: seq<real>, td: seq<TempData>, hist: seq<int>, head: int,
                           start: int, m: int)
    requires Graph(graph) && |graph| == |td| && |costs| == |td| && InRange(hist, |td|)
    requires 0 <= head < |hist| && 0 <= m <= SlotCount
  {
    var slots := Slots(graph, hist[head]);
    var e := Expand(td, hist[head], slots[..m], costs);
    && InvCore(graph, costs, e.0, hist + e.1, head + 1, start)
    && ClosedOk(graph, e.0, hist + e.1, head)
    && AllMarked(e.0, slots[..m])
  }

  /** The slot m - 1 keeps ExpandOk. */
  lemma ExpandOne(graph: seq<NeighborData>, costs: seq<real>, td: seq<TempData>, hist: seq<int>, head: int, start: int,
                  m: int)
    requires Graph(graph) && |graph| == |td| && |costs| == |td| && InRange(hist, |td|)
    requires 0 <= head < |hist| && 0 < m <= SlotCount
    requires ExpandOk(graph, costs, td, hist, head, start, m - 1)
    ensures ExpandOk(graph, costs, td, hist, head, start, m)
  {
    var cur := hist[head];
    var slots := Slots(graph, cur);
    assert slots[..m][..m - 1] == slots[..m - 1];
    var p := Expand(td, cur, slots[..m - 1], costs);
    var s := slots[m - 1];
    assert slots[..m][m - 1] == s;
    assert slots[..m - 1] + [s] == slots[..m];
    if s >= 0 && !Marked(p.0[s]) {
      assert Edge(graph, cur, s);
      assert (hist + p.1)[head] == cur;
      RelaxKeeps(graph, costs, p.0, hist + p.1, head, start, s, slots[..m - 1]);
      assert hist + p.1 + [s] == hist + (p.1 + [s]);
    }
  }

  /** The first m slots of the six-slot loop keep ExpandOk. */
  lemma {:induction false} ExpandKeeps(graph: seq<NeighborData>, costs: seq<real>, td: seq<TempData>, hist: seq<int>,
                                       head: int, start: int, m: int)
    requires Inv(graph, costs, td, hist, head, start) && head < |hist| && 0 <= m <= SlotCount
    ensures ExpandOk(graph, costs, td, hist, head, start, m)
  {
    if m == 0 {
      var slots := Slots(graph, hist[head]);
      assert slots[..0] == [];
      assert hist + [] == hist;
      ParentsWiden(graph, td, hist, head);
    } else {
      ExpandKeeps(graph, costs, td, hist, head, start, m - 1);
      ExpandOne(graph, costs, td, hist, head, start, m);
    }
  }

  /**
   * One iteration of the search loop keeps the invariant, only extends the
   * history, and the history never outgrows the cell count.
   */
  lemma StepPreserves(graph: seq<NeighborData>, costs: seq<real>, td: seq<TempData>, hist: seq<int>, head: int,
                      start: int)
    requires Inv(graph, costs, td, hist, head, start) && head < |hist|
    ensures Inv(graph, costs, Step(graph, costs, td, hist, head).0, Step(graph, costs, td, hist, head).1, head + 1, start)
    ensures hist <= Step(graph, costs, td, hist, head).1 && |Step(graph, costs, td, hist, head).1| <= |td|
  {
    var cur := hist[head];
    var slots := Slots(graph, cur);
    ExpandKeeps(graph, costs, td, hist, head, start, SlotCount);
    assert slots[..SlotCount] == slots;
    var r := Step(graph, costs, td, hist, head);
    assert r.1[head] == cur;
    DistinctBound(r.1, |td|);
  }

  /** The cell the loop last dequeued, or the start before the first iteration. */
  function LastDequeued(hist: seq<int>, head: int): int
    requires 0 < |hist| && 0 <= head <= |hist|
  {
    if head == 0 then hist[0] else hist[head - 1]
  }

  /**
   * The search loop from a state satisfying the invariant: while the last
   * dequeued cell is not end and the queue is not empty, dequeue and
   * expand.  The result holds the final records, history and head.
   */
  ghost function Run(graph: seq<NeighborData>, costs: seq<real>, td: seq<TempData>, hist: seq<int>, head: int,
                     start: int, end: int): (r: (seq<TempData>, seq<int>, int))
    requires Inv(graph, costs, td, hist, head, start)
    ensures |r.0| == |td| && hist <= r.1 && head <= r.2 <= |r.1|
    decreases |td| - |hist|, |hist| - head
  {
    if LastDequeued(hist, head) == end || head == |hist| then (td, hist, head)
    else
      StepPreserves(graph, costs, td, hist, head, start);
      var s := Step(graph, costs, td, hist, head);
      Run(graph, costs, s.0, s.1, head + 1, start, end)
  }

  /**
   * What the search loop keeps and achieves: the result satisfies the
   * invariant and has the goal popped or the
   * queue empty; if the goal had not been dequeued and passed over on
   * entry, it never is.
   */
  lemma {:induction false} RunKeeps(graph: seq<NeighborData>, costs: seq<real>, td: seq<TempData>, hist: seq<int>,
                                    head: int, start: int, end: int)
    requires Inv(graph, costs, td, hist, head, start)
    ensures Inv(graph, costs, Run(graph, costs, td, hist, head, start, end).0,
                Run(graph, costs, td, hist, head, start, end).1, Run(graph, costs, td, hist, head, start, end).2, start)
    ensures LastDequeued(Run(graph, costs, td, hist, head, start, end).1, Run(graph, costs, td, hist, head, start, end).2)
              == end
         || Run(graph, costs, td, hist, head, start, end).2 == |Run(graph, costs, td, hist, head, start, end).1|
    ensures (end in hist[..head] ==> LastDequeued(hist, head) == end) ==>
            (end in Run(graph, costs, td, hist, head, start, end).1[..Run(graph, costs, td, hist, head, start, end).2]
             ==> LastDequeued(Run(graph, costs, td, hist, head, start, end).1,
                              Run(graph, costs, td, hist, head, start, end).2) == end)
    decreases |td| - |hist|, |hist| - head
  {
    if LastDequeued(hist, head) == end || head == |hist| {
    } else {
      StepPreserves(graph, costs, td, hist, head, start);
      var s := Step(graph, costs, td, hist, head);
      GoalNotPassed(hist, s.1, head, end);
      RunKeeps(graph, costs, s.0, s.1, head + 1, start, end);
      assert Run(graph, costs, td, hist, head, start, end) == Run(graph, costs, s.0, s.1, head + 1, start, end);
    }
  }

  /** Dequeuing a cell other than the goal does not pass the goal over. */
  lemma GoalNotPassed(hist: seq<int>, hist': seq<int>, head: int, end: int)
    requires 0 <= head < |hist| && hist <= hist'
    requires LastDequeued(hist, head) != end
    ensures (end in hist[..head] ==> LastDequeued(hist, head) == end) ==>
            (end in hist'[..head + 1] ==> LastDequeued(hist', head + 1) == end)
  {
    assert hist'[..head + 1] == hist[..head] + [hist[head]];
  }

  /** Once the queue is empty, every cell a slot path reaches from the start has been queued. */
  lemma {:induction false} ClosedReach(graph: seq<NeighborData>, costs: seq<real>, td: seq<TempData>, hist: seq<int>,
                                       start: int, p: seq<int>)
    requires Inv(graph, costs, td, hist, |hist|, start)
    requires 0 < |p| && p[0] == start && IsPath(graph, p)
    ensures p[|p| - 1] in hist
  {
    if |p| > 1 {
      var q := p[..|p| - 1];
      ClosedReach(graph, costs, td, hist, start, q);
      var a, b := q[|q| - 1], p[|p| - 1];
      assert Edge(graph, a, b);
      var j :| 0 <= j < |hist| && hist[j] == a;
      assert Closed(graph, td, hist, j);
      var i :| 0 <= i < SlotCount && Slots(graph, a)[i] == b;
      assert Marked(td[b]);
    }
  }

  /** If a slot path leads from the start to the goal, the search stops on the goal. */
  lemma FindsReachableGoal(graph: seq<NeighborData>, costs: seq<real>, td: seq<TempData>, hist: seq<int>, head: int,
                           start: int, end: int, p: seq<int>)
    requires Inv(graph, costs, td, hist, head, start)
    requires end in hist[..head] ==> LastDequeued(hist, head) == end
    requires 0 < |p| && p[0] == start && p[|p| - 1] == end && IsPath(graph, p)
    ensures var r := Run(graph, costs, td, hist, head, start, end); LastDequeued(r.1, r.2) == end
  {
    RunKeeps(graph, costs, td, hist, head, start, end);
    var r := Run(graph, costs, td, hist, head, start, end);
    if r.2 == |r.1| {
      assert r.1[..r.2] == r.1;
      ClosedReach(graph, costs, r.0, r.1, start, p);
    }
  }

  /** Run to exhaustion (no goal can stop it), the search marks every cell reachable from the start. */
  lemma ExhaustedMarksReachable(graph: seq<NeighborData>, costs: seq<real>, td: seq<TempData>, hist: seq<int>,
                                head: int, start: int, p: seq<int>)
    requires Inv(graph, costs, td, hist, head, start)
    requires 0 < |p| && p[0] == start && IsPath(graph, p)
    ensures var r := Run(graph, costs, td, hist, head, start, -1);
      p[|p| - 1] in r.1 && 0 <= p[|p| - 1] < |r.0| && Marked(r.0[p[|p| - 1]])
  {
    RunKeeps(graph, costs, td, hist, head, start, -1);
    var r := Run(graph, costs, td, hist, head, start, -1);
    assert LastDequeued(r.1, r.2) >= 0;
    ClosedReach(graph, costs, r.0, r.1, start, p);
  }

  /**
   * SearchOrigin's walk: the cells from cur back along ParentIndex,
   * stopping before start, following at most fuel parents.
   */
  function Walk(td: seq<TempData>, cur: int, start: int, fuel: nat): (w: seq<int>)
    ensures InRange(w, |td|)
    decreases fuel
  {
    if cur == start || fuel == 0 || !(0 <= cur < |td|) then []
    else [cur] + Walk(td, td[cur].ParentIndex, start, fuel - 1)
  }

  /** Each entry's slots name the entry before it. */
  predicate IsBackPath(graph: seq<NeighborData>, q: seq<int>)
  {
    forall i :: 0 <= i < |q| - 1 ==> Edge(graph, q[i + 1], q[i])
  }

  /** The k-th queued cell's parent was queued before it and names it in a slot. */
  ghost predicate ParentBefore(graph: seq<NeighborData>, td: seq<TempData>, hist: seq<int>, k: int)
    requires 0 <= k < |hist|
  {
    0 <= hist[k] < |td| && td[hist[k]].ParentIndex in hist[..k] && Edge(graph, td[hist[k]].ParentIndex, hist[k])
  }

  /** The part of the invariant the walk needs: every queued cell's parent was queued before it. */
  ghost predicate Rooted(graph: seq<NeighborData>, td: seq<TempData>, hist: seq<int>, start: int)
  {
    0 < |hist| && hist[0] == start && InRange(hist, |td|) && Distinct(hist) && ParentsBefore(graph, td, hist)
  }

  /** Every queued cell but the first has its parent queued before it. */
  ghost predicate ParentsBefore(graph: seq<NeighborData>, td: seq<TempData>, hist: seq<int>)
  {
    forall k :: 0 < k < |hist| ==> ParentBefore(graph, td, hist, k)
  }

  lemma InvRooted(graph: seq<NeighborData>, costs: seq<real>, td: seq<TempData>, hist: seq<int>, head: int, start: int)
    requires Inv(graph, costs, td, hist, head, start)
    ensures Rooted(graph, td, hist, start)
  {
    forall k | 0 < k < |hist|
      ensures ParentBefore(graph, td, hist, k)
    {
      assert ParentDone(graph, td, hist, head, k);
    }
  }

  /** Each entry of w is a cell whose parent is the next entry, or the start after the last. */
  ghost predicate ParentChain(td: seq<TempData>, w: seq<int>, start: int)
  {
    forall i :: 0 <= i < |w| ==> 0 <= w[i] < |td| && td[w[i]].ParentIndex == (w + [start])[i + 1]
  }

  /** Every entry of w is a cell queued no later than the k-th, other than the start. */
  ghost predicate QueuedBy(w: seq<int>, start: int, hist: seq<int>, k: int)
    requires 0 <= k < |hist|
  {
    forall i :: 0 <= i < |w| ==> w[i] != start && w[i] in hist[..k + 1]
  }

  lemma ChainCons(td: seq<TempData>, cur: int, rest: seq<int>, start: int)
    requires ParentChain(td, rest, start) && 0 <= cur < |td| && td[cur].ParentIndex == (rest + [start])[0]
    ensures ParentChain(td, [cur] + rest, start)
  {
    var w := [cur] + rest;
    assert w + [start] == [cur] + (rest + [start]);
    forall i | 0 < i < |w|
      ensures 0 <= w[i] < |td| && td[w[i]].ParentIndex == (w + [start])[i + 1]
    {
      assert w[i] == rest[i - 1];
      assert (w + [start])[i + 1] == (rest + [start])[i];
    }
  }

  lemma QueuedCons(hist: seq<int>, j: int, k: int, rest: seq<int>, start: int)
    requires 0 <= j < k < |hist| && hist[k] != start && QueuedBy(rest, start, hist, j)
    ensures QueuedBy([hist[k]] + rest, start, hist, k)
  {
    var w := [hist[k]] + rest;
    forall i | 0 <= i < |w|
      ensures w[i] != start && w[i] in hist[..k + 1]
    {
      if i == 0 {
        assert hist[..k + 1][k] == hist[k];
      } else {
        assert w[i] == rest[i - 1];
        var m :| 0 <= m < j + 1 && hist[..j + 1][m] == rest[i - 1];
        assert hist[..k + 1][m] == rest[i - 1];
      }
    }
  }

  /**
   * The k-th queued cell, when it is not the start, has its parent at an
   * earlier position j, reached by a slot, and the walk from it is that
   * cell followed by the walk from its parent.
   */
  lemma ParentStep(graph: seq<NeighborData>, td: seq<TempData>, hist: seq<int>, start: int, k: int, fuel: nat)
    returns (j: int)
    requires 0 <= k < |hist| && fuel >= k
    requires ParentsBefore(graph, td, hist) && hist[0] == start && hist[k] != start
    ensures 0 <= j < k && 0 <= hist[k] < |td| && hist[j] == td[hist[k]].ParentIndex && Edge(graph, hist[j], hist[k])
    ensures Walk(td, hist[k], start, fuel) == [hist[k]] + Walk(td, hist[j], start, fuel - 1)
  {
    assert ParentBefore(graph, td, hist, k);
    j :| 0 <= j < k && hist[..k][j] == td[hist[k]].ParentIndex;
  }

  /**
   * From the k-th queued cell, with fuel at least k, the walk reaches the
   * start: it begins at that cell, each entry's parent is the next entry
   * (the start after the last), and every entry is a cell queued no later
   * than the k-th, other than the start.
   */
  lemma {:induction false} WalkChain(graph: seq<NeighborData>, td: seq<TempData>, hist: seq<int>,
                                     start: int, k: int, fuel: nat)
    requires 0 <= k < |hist| && fuel >= k
    requires ParentsBefore(graph, td, hist) && hist[0] == start
    ensures Walk(td, hist[k], start, fuel) == [] <==> hist[k] == start
    ensures Walk(td, hist[k], start, fuel) != [] ==> Walk(td, hist[k], start, fuel)[0] == hist[k]
    ensures ParentChain(td, Walk(td, hist[k], start, fuel), start)
    ensures QueuedBy(Walk(td, hist[k], start, fuel), start, hist, k)
    decreases fuel
  {
    if hist[k] != start {
      var j := ParentStep(graph, td, hist, start, k, fuel);
      WalkChain(graph, td, hist, start, j, fuel - 1);
      var rest := Walk(td, hist[j], start, fuel - 1);
      assert (rest + [start])[0] == hist[j];
      ChainCons(td, hist[k], rest, start);
      QueuedCons(hist, j, k, rest, start);
    }
  }

  /**
   * The walk never repeats a cell, and read backwards from the start it
   * follows slots: each entry is named by a slot of the entry after it.
   */
  lemma {:induction false} WalkIsPath(graph: seq<NeighborData>, td: seq<TempData>, hist: seq<int>,
                                      start: int, k: int, fuel: nat)
    requires 0 <= k < |hist| && fuel >= k
    requires ParentsBefore(graph, td, hist) && Distinct(hist) && hist[0] == start
    ensures Distinct(Walk(td, hist[k], start, fuel))
    ensures IsBackPath(graph, Walk(td, hist[k], start, fuel) + [start])
    decreases fuel
  {
    if hist[k] != start {
      var j := ParentStep(graph, td, hist, start, k, fuel);
      WalkAvoids(graph, td, hist, start, j, k, fuel - 1);
      WalkIsPath(graph, td, hist, start, j, fuel - 1);
      WalkPathCons(graph, hist[k], Walk(td, hist[j], start, fuel - 1), start);
    }
  }

  /** The walk from the j-th queued cell avoids every later queued cell and leads to hist[j]'s parent chain. */
  lemma WalkAvoids(graph: seq<NeighborData>, td: seq<TempData>, hist: seq<int>, start: int, j: int, k: int, fuel: nat)
    requires 0 <= j < k < |hist| && fuel >= j
    requires ParentsBefore(graph, td, hist) && Distinct(hist) && hist[0] == start
    ensures hist[k] !in Walk(td, hist[j], start, fuel)
    ensures (Walk(td, hist[j], start, fuel) + [start])[0] == hist[j]
  {
    WalkChain(graph, td, hist, start, j, fuel);
    NotInEarlier(hist, j, k, Walk(td, hist[j], start, fuel), start);
  }

  /** Putting a new cell whose slot names the head of rest + [start] in front keeps both properties. */
  lemma WalkPathCons(graph: seq<NeighborData>, cur: int, rest: seq<int>, start: int)
    requires Distinct(rest) && IsBackPath(graph, rest + [start]) && cur !in rest
    requires Edge(graph, (rest + [start])[0], cur)
    ensures Distinct([cur] + rest) && IsBackPath(graph, [cur] + rest + [start])
  {
    ConsDistinct(cur, rest);
    ConsBackPath(graph, cur, rest + [start]);
    assert [cur] + rest + [start] == [cur] + (rest + [start]);
  }

  /** A cell of a distinct history is not among the cells queued before it. */
  lemma NotInEarlier(hist: seq<int>, j: int, k: int, rest: seq<int>, start: int)
    requires Distinct(hist) && 0 <= j < k < |hist|
    requires QueuedBy(rest, start, hist, j)
    ensures hist[k] !in rest
  {
    forall i | 0 <= i < |rest|
      ensures rest[i] != hist[k]
    {
      var m :| 0 <= m < j + 1 && hist[..j + 1][m] == rest[i];
      assert hist[m] == rest[i];
    }
  }

  lemma ConsDistinct(x: int, s: seq<int>)
    requires Distinct(s) && x !in s
    ensures Distinct([x] + s)
  {
    var w := [x] + s;
    forall a, b | 0 <= a < b < |w|
      ensures w[a] != w[b]
    {
      assert w[b] == s[b - 1];
      if a > 0 {
        assert w[a] == s[a - 1];
      }
    }
  }

  lemma ConsBackPath(graph: seq<NeighborData>, x: int, q: seq<int>)
    requires IsBackPath(graph, q) && 0 < |q| && Edge(graph, q[0], x)
    ensures IsBackPath(graph, [x] + q)
  {
    var w := [x] + q;
    forall i | 0 <= i < |w| - 1
      ensures Edge(graph, w[i + 1], w[i])
    {
      if i > 0 {
        assert w[i] == q[i - 1] && w[i + 1] == q[i];
      }
    }
  }

  /** A distinct sequence of cell indices has at most as many entries as there are cells. */
  lemma {:induction false} DistinctBound(s: seq<int>, n: int)
    requires 0 <= n && InRange(s, n) && Distinct(s)
    ensures |s| <= n
    decreases n
  {
    if |s| > 0 {
      var t := Without(s, n - 1);
      assert InRange(t, n - 1) by {
        forall i | 0 <= i < |t|
          ensures 0 <= t[i] < n - 1
        {
          assert t[i] in s && t[i] != n - 1;
        }
      }
      assert 0 <= s[0] < n;
      DistinctBound(t, n - 1);
    }
  }

  /** s with every occurrence of x removed. */
  function Without(s: seq<int>, x: int): (r: seq<int>)
    ensures forall i :: 0 <= i < |r| ==> r[i] != x && r[i] in s
    ensures x !in s ==> r == s
    ensures Distinct(s) ==> Distinct(r) && |s| <= |r| + 1
    decreases |s|
  {
    if s == [] then []
    else
      var rest := Without(s[1..], x);
      if s[0] == x then
        assert Distinct(s) ==> x !in s[1..];
        rest
      else
        [s[0]] + rest
  }

  /** s read back to front. */
  function Reverse<T>(s: seq<T>): (r: seq<T>)
    ensures |r| == |s| && forall i :: 0 <= i < |s| ==> r[i] == s[|s| - 1 - i]
  {
    seq(|s|, i requires 0 <= i < |s| => s[|s| - 1 - i])
  }

  /** Read back to front, a back path is a slot path. */
  lemma ReverseBackPath(graph: seq<NeighborData>, q: seq<int>)
    requires IsBackPath(graph, q)
    ensures IsPath(graph, Reverse(q))
  {
    var r := Reverse(q);
    forall i | 0 <= i < |r| - 1
      ensures Edge(graph, r[i], r[i + 1])
    {
      assert r[i] == q[|q| - 1 - i] && r[i + 1] == q[|q| - 1 - i - 1];
    }
  }

  /**
   * When the search loop stops on the goal, SearchOrigin's walk from the
   * goal, with fuel the history length, is the goal's parent chain: it
   * starts at the goal (empty exactly when the goal is the start), never
   * repeats a cell, and, reversed after appending the start, is a slot path
   * from the start to the goal.
   */
  lemma GoalWalk(graph: seq<NeighborData>, costs: seq<real>, td: seq<TempData>, hist: seq<int>, head: int,
                 start: int, end: int)
    requires Inv(graph, costs, td, hist, head, start) && LastDequeued(hist, head) == end
    ensures var w := Walk(td, end, start, |hist|);
      && (w == [] <==> end == start)
      && (w != [] ==> w[0] == end)
      && Distinct(w)
      && |w| < |td|
      && var p := Reverse(w + [start]);
         p[0] == start && p[|p| - 1] == end && IsPath(graph, p)
  {
    InvRooted(graph, costs, td, hist, head, start);
    var k := if head == 0 then 0 else head - 1;
    assert hist[k] == end;
    WalkChain(graph, td, hist, start, k, |hist|);
    WalkIsPath(graph, td, hist, start, k, |hist|);
    var w := Walk(td, end, start, |hist|);
    ReverseBackPath(graph, w + [start]);
    assert InRange(w + [start], |td|) by {
      forall i | 0 <= i < |w + [start]|
        ensures 0 <= (w + [start])[i] < |td|
      {
        if i < |w| {
          assert (w + [start])[i] == w[i];
        }
      }
    }
    assert Distinct(w + [start]) by {
      assert start !in w;
      forall a, b | 0 <= a < b < |w + [start]|
        ensures (w + [start])[a] != (w + [start])[b]
      {
        assert (w + [start])[a] == w[a];
        if b < |w| {
          assert (w + [start])[b] == w[b];
        }
      }
    }
    DistinctBound(w + [start], |td|);
    if w == [] {
      assert end == start;
    }
  }

  /** Partway through the six-slot loop the history still fits in the cell count. */
  lemma ExpandFits(graph: seq<NeighborData>, costs: seq<real>, td: seq<TempData>, hist: seq<int>, head: int,
                   start: int, m: int)
    requires Inv(graph, costs, td, hist, head, start) && head < |hist| && 0 <= m <= SlotCount
    ensures |hist| + |Expand(td, hist[head], Slots(graph, hist[head])[..m], costs).1| <= |td|
  {
    ExpandKeeps(graph, costs, td, hist, head, start, m);
    var e := Expand(td, hist[head], Slots(graph, hist[head])[..m], costs);
    DistinctBound(hist + e.1, |td|);
  }

  /**
   * Room for the array queue: the six-slot loop for hist[head], stopped
   * after any number of slots, leaves the history within the cell count.
   */
  ghost predicate Room(graph: seq<NeighborData>, costs: seq<real>, td: seq<TempData>, hist: seq<int>, head: int)
    requires Graph(graph) && |graph| == |td| && |costs| == |td| && 0 <= head < |hist| && 0 <= hist[head] < |td|
  {
    forall m :: 0 <= m <= SlotCount ==>
      |hist| + |Expand(td, hist[head], Slots(graph, hist[head])[..m], costs).1| <= |td|
  }

  lemma InvRoom(graph: seq<NeighborData>, costs: seq<real>, td: seq<TempData>, hist: seq<int>, head: int, start: int)
    requires Inv(graph, costs, td, hist, head, start) && head < |hist|
    ensures Room(graph, costs, td, hist, head)
  {
    forall m | 0 <= m <= SlotCount
      ensures |hist| + |Expand(td, hist[head], Slots(graph, hist[head])[..m], costs).1| <= |td|
    {
      ExpandFits(graph, costs, td, hist, head, start, m);
    }
  }

  /**
   * One turn of the search loop, for a caller that runs it step by step:
   * when the loop guard holds and (td', hist', head') is the stepped state,
   * Run from here is Run from there, and the stepped state keeps the
   * invariant, only extends the history (within the cell count) and makes
   * hist[head] the last dequeued cell.
   */
  lemma RunStep(graph: seq<NeighborData>, costs: seq<real>, td: seq<TempData>, hist: seq<int>, head: int,
                start: int, end: int, td': seq<TempData>, hist': seq<int>, head': int)
    requires Inv(graph, costs, td, hist, head, start) && head < |hist| && LastDequeued(hist, head) != end
    requires td' == Step(graph, costs, td, hist, head).0 && hist' == Step(graph, costs, td, hist, head).1
    requires head' == head + 1
    ensures Inv(graph, costs, td', hist', head', start)
    ensures |td'| == |td| && hist <= hist' && |hist'| <= |td|
    ensures LastDequeued(hist', head') == hist[head]
    ensures Run(graph, costs, td', hist', head', start, end) == Run(graph, costs, td, hist, head, start, end)
  {
    StepPreserves(graph, costs, td, hist, head, start);
  }

  /** The history of a search never holds more entries than there are cells. */
  lemma InvBound(graph: seq<NeighborData>, costs: seq<real>, td: seq<TempData>, hist: seq<int>, head: int, start: int)
    requires Inv(graph, costs, td, hist, head, start)
    ensures |hist| <= |td|
  {
    DistinctBound(hist, |td|);
  }

  /**
   * What every search demands of its inputs: one adjacency record and one
   * positive cost per cell, a start cell, and records none of which is
   * marked yet (a freshly allocated, zeroed buffer).
   */
  predicate Searchable(graph: seq<NeighborData>, costs: seq<real>, td: seq<TempData>, start: int)
  {
    && |graph| == |td| && |costs| == |td| && Graph(graph) && Positive(costs)
    && 0 <= start < |td|
    && forall c :: 0 <= c < |td| ==> !Marked(td[c])
  }

  /**
   * InitializeBuffers followed by the search loop: the start is marked and
   * queued alone, then the loop runs.  The result stops on the goal or
   * with the queue empty, and its history fits in the cell count (so an
   * array queue of one slot per cell never overflows).
   */
  ghost function Search(graph: seq<NeighborData>, costs: seq<real>, td: seq<TempData>, start: int, end: int)
    : (r: (seq<TempData>, seq<int>, int))
    requires Searchable(graph, costs, td, start)
    ensures 0 < |r.1| <= |td| && 0 <= r.2 <= |r.1| && |r.0| == |td|
    ensures LastDequeued(r.1, r.2) == end || r.2 == |r.1|
  {
    InitialInv(graph, costs, td, start);
    RunKeeps(graph, costs, td[start := StartMark], [start], 0, start, end);
    var r := Run(graph, costs, td[start := StartMark], [start], 0, start, end);
    InvBound(graph, costs, r.0, r.1, r.2, start);
    r
  }

  /** The search ends in a state satisfying the invariant. */
  lemma SearchInv(graph: seq<NeighborData>, costs: seq<real>, td: seq<TempData>, start: int, end: int)
    requires Searchable(graph, costs, td, start)
    ensures Inv(graph, costs, Search(graph, costs, td, start, end).0, Search(graph, costs, td, start, end).1,
                Search(graph, costs, td, start, end).2, start)
  {
    InitialInv(graph, costs, td, start);
    RunKeeps(graph, costs, td[start := StartMark], [start], 0, start, end);
  }

  /**
   * The cells SearchOrigin visits after the search: the parent chain of
   * the cell the loop stopped on, back to the start (excluded).
   */
  ghost function SearchWalk(graph: seq<NeighborData>, costs: seq<real>, td: seq<TempData>, start: int, end: int)
    : seq<int>
    requires Searchable(graph, costs, td, start)
  {
    var r := Search(graph, costs, td, start, end);
    Walk(r.0, LastDequeued(r.1, r.2), start, |r.1|)
  }

  /** After the search every queued cell's parent chain leads back to the start. */
  lemma SearchRooted(graph: seq<NeighborData>, costs: seq<real>, td: seq<TempData>, start: int, end: int)
    requires Searchable(graph, costs, td, start)
    ensures Rooted(graph, Search(graph, costs, td, start, end).0, Search(graph, costs, td, start, end).1, start)
  {
    var r := Search(graph, costs, td, start, end);
    SearchInv(graph, costs, td, start, end);
    InvRooted(graph, costs, r.0, r.1, r.2, start);
  }

  /** A goal some slot path reaches from the start is the cell the search stops on. */
  lemma SearchFindsGoal(graph: seq<NeighborData>, costs: seq<real>, td: seq<TempData>, start: int, end: int,
                        p: seq<int>)
    requires Searchable(graph, costs, td, start)
    requires 0 < |p| && p[0] == start && p[|p| - 1] == end && IsPath(graph, p)
    ensures var r := Search(graph, costs, td, start, end); LastDequeued(r.1, r.2) == end
  {
    InitialInv(graph, costs, td, start);
    FindsReachableGoal(graph, costs, td[start := StartMark], [start], 0, start, end, p);
  }

  /**
   * SearchOrigin after the search: the walk from the cell the loop stopped
   * on is that cell's parent chain, repeats no cell, has fewer entries than
   * there are cells, and reversed after the start is a slot path from the
   * start to that cell; it is empty exactly when that cell is the start.
   */
  lemma SearchOriginPath(graph: seq<NeighborData>, costs: seq<real>, td: seq<TempData>, start: int, end: int)
    requires Searchable(graph, costs, td, start)
    ensures var r := Search(graph, costs, td, start, end);
      var last := LastDequeued(r.1, r.2);
      var w := Walk(r.0, last, start, |r.1|);
      && (w == [] <==> last == start)
      && (w != [] ==> w[0] == last)
      && Distinct(w) && |w| < |td|
      && var p := Reverse(w + [start]);
         p[0] == start && p[|p| - 1] == last && IsPath(graph, p)
  {
    var r := Search(graph, costs, td, start, end);
    SearchInv(graph, costs, td, start, end);
    GoalWalk(graph, costs, r.0, r.1, r.2, start, LastDequeued(r.1, r.2));
  }

  /**
   * With no goal to stop on, the loop runs until the queue is empty and
   * every cell a slot path reaches from the start ends up queued and marked.
   */
  lemma SearchMarksReachable(graph: seq<NeighborData>, costs: seq<real>, td: seq<TempData>, start: int, p: seq<int>)
    requires Searchable(graph, costs, td, start)
    requires 0 < |p| && p[0] == start && IsPath(graph, p)
    ensures var r := Search(graph, costs, td, start, -1);
      r.2 == |r.1| && p[|p| - 1] in r.1 && 0 <= p[|p| - 1] < |r.0| && Marked(r.0[p[|p| - 1]])
  {
    InitialInv(graph, costs, td, start);
    ExhaustedMarksReachable(graph, costs, td[start := StartMark], [start], 0, start, p);
    var r := Search(graph, costs, td, start, -1);
    SearchInv(graph, costs, td, start, -1);
    assert LastDequeued(r.1, r.2) >= 0;
  }

  /**
   * The route the managers return: SearchOrigin's walk read back to front.
   * It is the slot path from the start to the cell the loop stopped on,
   * without the start: empty exactly when that cell is the start,
   * otherwise ending on that cell, never repeating a cell, and following
   * a slot of the start at its first step.
   */
  lemma SearchRoute(graph: seq<NeighborData>, costs: seq<real>, td: seq<TempData>, start: int, end: int)
    requires Searchable(graph, costs, td, start)
    ensures var r := Search(graph, costs, td, start, end);
      var last := LastDequeued(r.1, r.2);
      var route := Reverse(SearchWalk(graph, costs, td, start, end));
      && (route == [] <==> last == start)
      && (route != [] ==> route[|route| - 1] == last)
      && Distinct(route) && |route| < |td|
      && IsPath(graph, [start] + route)
  {
    var r := Search(graph, costs, td, start, end);
    var w := SearchWalk(graph, costs, td, start, end);
    SearchOriginPath(graph, costs, td, start, end);
    ReverseSnoc(w, start);
    var route := Reverse(w);
    assert Distinct(route) by {
      forall a, b | 0 <= a < b < |route|
        ensures route[a] != route[b]
      {
        assert route[a] == w[|w| - 1 - a] && route[b] == w[|w| - 1 - b];
      }
    }
    if route != [] {
      assert route[|route| - 1] == w[0];
    }
  }

  /** A search whose goal is its start stops at once, and the walk back is empty. */
  lemma SearchFromGoal(graph: seq<NeighborData>, costs: seq<real>, td: seq<TempData>, start: int)
    requires Searchable(graph, costs, td, start)
    ensures Search(graph, costs, td, start, start).1 == [start] && Search(graph, costs, td, start, start).2 == 0
    ensures SearchWalk(graph, costs, td, start, start) == []
  {
    InitialInv(graph, costs, td, start);
  }

  /** The centres of the cells of w, in order. */
  function Positions<C>(cells: seq<C>, cellPos: C -> Float3, w: seq<int>): (r: seq<Float3>)
    requires InRange(w, |cells|)
    ensures |r| == |w| && forall i :: 0 <= i < |w| ==> r[i] == cellPos(cells[w[i]])
  {
    seq(|w|, i requires 0 <= i < |w| => cellPos(cells[w[i]]))
  }

  lemma PositionsSnoc<C>(cells: seq<C>, cellPos: C -> Float3, w: seq<int>, c: int)
    requires InRange(w, |cells|) && 0 <= c < |cells|
    ensures InRange(w + [c], |cells|)
    ensures Positions(cells, cellPos, w + [c]) == Positions(cells, cellPos, w) + [cellPos(cells[c])]
  {
    assert InRange(w + [c], |cells|) by {
      forall i | 0 <= i < |w| + 1
        ensures 0 <= (w + [c])[i] < |cells|
      {
        if i < |w| {
          assert (w + [c])[i] == w[i];
        }
      }
    }
  }

  /** A walk already taken, followed by the walk still to go, after one more step. */
  lemma WalkSnoc(td: seq<TempData>, walked: seq<int>, cur: int, next: int, start: int, fuel: nat)
    requires fuel >= 1 && Walk(td, cur, start, fuel) == [cur] + Walk(td, next, start, fuel - 1)
    ensures (walked + [cur]) + Walk(td, next, start, fuel - 1) == walked + Walk(td, cur, start, fuel)
  {
  }

  /** A freshly allocated record buffer of n cells: every record zeroed, so none is marked. */
  function Fresh(n: nat): (td: seq<TempData>)
    ensures |td| == n && forall c :: 0 <= c < n ==> td[c] == Unreached && !Marked(td[c])
  {
    seq(n, _ => Unreached)
  }

  /**
   * A list queue holding hist[head..]: its front is the cell dequeued next,
   * and removing the front and appending the newly queued cells q leaves
   * the queue of the next state.
   */
  lemma QueueStep(hist: seq<int>, head: int, q: seq<int>)
    requires 0 <= head < |hist|
    ensures |hist[head..]| > 0 && hist[head..][0] == hist[head]
    ensures hist[head..][1..] + q == (hist + q)[head + 1..]
  {
    assert hist[head..][1..] == hist[head + 1..];
  }

  /** Reversing after appending x puts x first. */
  lemma ReverseSnoc<T>(s: seq<T>, x: T)
    ensures Reverse(s + [x]) == [x] + Reverse(s)
  {
    var r, t := Reverse(s + [x]), [x] + Reverse(s);
    forall i | 0 <= i < |r|
      ensures r[i] == t[i]
    {
      if i > 0 {
        assert r[i] == (s + [x])[|s| - i] == s[|s| - 1 - (i - 1)];
      }
    }
  }

  /** The centres of a reversed walk are the reversed centres. */
  lemma PositionsReverse<C>(cells: seq<C>, cellPos: C -> Float3, w: seq<int>)
    requires InRange(w, |cells|)
    ensures InRange(Reverse(w), |cells|)
    ensures Reverse(Positions(cells, cellPos, w)) == Positions(cells, cellPos, Reverse(w))
  {
    assert InRange(Reverse(w), |cells|) by {
      forall i | 0 <= i < |w|
        ensures 0 <= Reverse(w)[i] < |cells|
      {
        assert Reverse(w)[i] == w[|w| - 1 - i];
      }
    }
  }

  /*
   * Cost 0 is the "not reached" mark, but a cell whose centre is exactly the
   * target is given cost 0 when reached.  Such a cell stays unmarked after it
   * is queued, so a second neighbour queues it again.
   */

  /** Four cells: 0 leads to 1 and 2, both of which lead to 3. */
  function DiamondGraph(): (g: seq<NeighborData>)
    ensures |g| == 4 && Graph(g)
  {
    [ NeighborData(6, [1, 2, -1, -1, -1, -1]),
      NeighborData(6, [3, -1, -1, -1, -1, -1]),
      NeighborData(6, [3, -1, -1, -1, -1, -1]),
      NeighborData(6, [-1, -1, -1, -1, -1, -1]) ]
  }

  /**
   * With cell 3's centre on the target, three iterations from cell 0 queue
   * cell 3 twice: the history has five entries for four cells.
   */
  lemma ZeroCostRequeues()
    ensures var g := DiamondGraph();
      var costs := [1.0, 1.0, 1.0, 0.0];
      var td := [StartMark, Unreached, Unreached, Unreached];
      var s1 := Step(g, costs, td, [0], 0);
      s1.1 == [0, 1, 2] &&
      var s2 := Step(g, costs, s1.0, s1.1, 1);
      s2.1 == [0, 1, 2, 3] &&
      var s3 := Step(g, costs, s2.0, s2.1, 2);
      s3.1 == [0, 1, 2, 3, 3] && |s3.1| > |td| && !Distinct(s3.1)
  {
    var td1 := DiamondFirst();
    var td2 := DiamondSecond(td1);
    DiamondThird(td2);
    var s3 := Step(DiamondGraph(), [1.0, 1.0, 1.0, 0.0], td2, [0, 1, 2, 3], 2);
    assert s3.1[3] == s3.1[4];
  }

  /** The diamond's first iteration queues cells 1 and 2. */
  lemma DiamondFirst() returns (td1: seq<TempData>)
    ensures |td1| == 4 && td1[3] == Unreached
    ensures Step(DiamondGraph(), [1.0, 1.0, 1.0, 0.0], [StartMark, Unreached, Unreached, Unreached], [0], 0)
         == (td1, [0, 1, 2])
  {
    var td := [StartMark, Unreached, Unreached, Unreached];
    var costs := [1.0, 1.0, 1.0, 0.0];
    DiamondSlots();
    NegativeTail(td, 0, [1, 2], [-1, -1, -1, -1], costs);
    ExpandSnoc(td, 0, [], 1, td, [], costs);
    var d := td[1 := TempData(0, 1.0)];
    assert [] + [1] == [1];
    ExpandSnoc(td, 0, [1], 2, d, [1], costs);
    assert [1] + [2] == [1, 2] && [0] + [1, 2] == [0, 1, 2];
    td1 := d[2 := TempData(0, 1.0)];
  }

  /** The second iteration queues cell 3 with cost 0, which leaves it unmarked. */
  lemma DiamondSecond(td1: seq<TempData>) returns (td2: seq<TempData>)
    requires |td1| == 4 && td1[3] == Unreached
    ensures td2 == td1[3 := TempData(1, 0.0)] && !Marked(td2[3])
    ensures Step(DiamondGraph(), [1.0, 1.0, 1.0, 0.0], td1, [0, 1, 2], 1) == (td2, [0, 1, 2, 3])
  {
    var costs := [1.0, 1.0, 1.0, 0.0];
    DiamondSlots();
    NegativeTail(td1, 1, [3, -1], [-1, -1, -1, -1], costs);
    ExpandSnoc(td1, 1, [], 3, td1, [], costs);
    assert [] + [3] == [3] && [3, -1][..1] == [3];
    td2 := td1[3 := TempData(1, 0.0)];
    assert [0, 1, 2] + [3] == [0, 1, 2, 3];
  }

  /** The third iteration finds cell 3 unmarked and queues it again. */
  lemma DiamondThird(td2: seq<TempData>)
    requires |td2| == 4 && !Marked(td2[3])
    ensures Step(DiamondGraph(), [1.0, 1.0, 1.0, 0.0], td2, [0, 1, 2, 3], 2).1 == [0, 1, 2, 3, 3]
  {
    var costs := [1.0, 1.0, 1.0, 0.0];
    DiamondSlots();
    NegativeTail(td2, 2, [3, -1], [-1, -1, -1, -1], costs);
    ExpandSnoc(td2, 2, [], 3, td2, [], costs);
    assert [] + [3] == [3] && [3, -1][..1] == [3];
  }

  /** The diamond's first three cells' slots: two targets, then negative slots. */
  lemma DiamondSlots()
    ensures Slots(DiamondGraph(), 0) == [1, 2] + [-1, -1, -1, -1]
    ensures Slots(DiamondGraph(), 1) == [3, -1] + [-1, -1, -1, -1]
    ensures Slots(DiamondGraph(), 2) == [3, -1] + [-1, -1, -1, -1]
  {
  }

  /** Two cells: 0 leads to 1, and 1's only open slot snaps back onto itself. */
  function SelfLoopGraph(): (g: seq<NeighborData>)
    ensures |g| == 2 && Graph(g)
    ensures Slots(g, 0) == [1] + [-1, -1, -1, -1, -1] && Slots(g, 1) == [1] + [-1, -1, -1, -1, -1]
  {
    [ NeighborData(6, [1, -1, -1, -1, -1, -1]),
      NeighborData(6, [1, -1, -1, -1, -1, -1]) ]
  }

  /** The history after the seed and h passes of the self loop: cell 0, then cell 1 h times. */
  function SelfLoopHistory(h: nat): (hist: seq<int>)
    ensures |hist| == h + 1 && hist[0] == 0 && forall i :: 1 <= i <= h ==> hist[i] == 1
  {
    [0] + seq(h, _ => 1)
  }

  /**
   * With cell 1's centre on the target, the first pass gives cell 1 cost 0,
   * and every later pass dequeues cell 1, records it as its own parent with
   * cost 0, and queues it again.  After each pass the records are the same,
   * cell 1 is still unmarked, and the queue is [1]: a loop that stops only
   * on an empty queue never stops.
   */
  lemma ZeroCostSelfLoop(td: seq<TempData>, h: nat)
    requires |td| == 2 && !Marked(td[1]) && 1 <= h
    ensures Step(SelfLoopGraph(), [1.0, 0.0], [StartMark, Unreached], [0], 0)
         == ([StartMark, TempData(0, 0.0)], SelfLoopHistory(1))
    ensures var r := Step(SelfLoopGraph(), [1.0, 0.0], td, SelfLoopHistory(h), h);
      && r == (td[1 := TempData(1, 0.0)], SelfLoopHistory(h + 1))
      && !Marked(r.0[1]) && r.1[h + 1..] == [1]
  {
    var costs := [1.0, 0.0];
    var seed := [StartMark, Unreached];
    NegativeTail(seed, 0, [1], [-1, -1, -1, -1, -1], costs);
    ExpandSnoc(seed, 0, [], 1, seed, [], costs);
    assert [] + [1] == [1] && [0] + [1] == SelfLoopHistory(1);
    assert seed[1 := TempData(0, costs[1])] == [StartMark, TempData(0, 0.0)];
    NegativeTail(td, 1, [1], [-1, -1, -1, -1, -1], costs);
    ExpandSnoc(td, 1, [], 1, td, [], costs);
    assert SelfLoopHistory(h) + [1] == SelfLoopHistory(h + 1);
  }

  /** Expanding one more unmarked slot records its parent and queues it. */
  lemma ExpandSnoc(td: seq<TempData>, cur: int, slots: seq<int>, s: int, d: seq<TempData>, q: seq<int>,
                   costs: seq<real>)
    requires |costs| == |td| && SlotsInRange(slots, |td|) && 0 <= s < |td|
    requires Expand(td, cur, slots, costs) == (d, q) && !Marked(d[s])
    ensures SlotsInRange(slots + [s], |td|)
    ensures Expand(td, cur, slots + [s], costs) == (d[s := TempData(cur, costs[s])], q + [s])
  {
    assert (slots + [s])[..|slots|] == slots;
  }

  /** Negative slots at the end change nothing. */
  lemma {:induction false} NegativeTail(td: seq<TempData>, cur: int, slots: seq<int>, tail: seq<int>, costs: seq<real>)
    requires |costs| == |td| && SlotsInRange(slots + tail, |td|)
    requires forall i :: 0 <= i < |tail| ==> tail[i] < 0
    ensures SlotsInRange(slots, |td|)
    ensures Expand(td, cur, slots + tail, costs) == Expand(td, cur, slots, costs)
    decreases |tail|
  {
    assert forall i :: 0 <= i < |slots| ==> slots[i] == (slots + tail)[i];
    if tail != [] {
      var front := tail[..|tail| - 1];
      assert (slots + tail)[..|slots + tail| - 1] == slots + front;
      assert (slots + tail)[|slots + tail| - 1] == tail[|tail| - 1];
      NegativeTail(td, cur, slots, front, costs);
    } else {
      assert slots + tail == slots;
    }
  }

  /**
   * The intended six-slot loop: a slot neighbour is queued when it has not
   * been queued before, whatever its cost.
   */
  function ExpandOnce(td: seq<TempData>, cur: int, slots: seq<int>, costs: seq<real>, hist: seq<int>)
    : (r: (seq<TempData>, seq<int>))
    requires |costs| == |td| && SlotsInRange(slots, |td|)
    ensures |r.0| == |td|
    decreases |slots|
  {
    if slots == [] then (td, [])
    else
      var p := ExpandOnce(td, cur, slots[..|slots| - 1], costs, hist);
      var s := slots[|slots| - 1];
      if s < 0 || s in hist + p.1 then p
      else (p.0[s := TempData(cur, costs[s])], p.1 + [s])
  }

  /** The intended loop never queues a cell twice, whatever the costs. */
  lemma {:induction false} ExpandOnceDistinct(td: seq<TempData>, cur: int, slots: seq<int>, costs: seq<real>,
                                              hist: seq<int>)
    requires |costs| == |td| && SlotsInRange(slots, |td|) && Distinct(hist)
    ensures Distinct(hist + ExpandOnce(td, cur, slots, costs, hist).1)
    decreases |slots|
  {
    if slots != [] {
      var p := ExpandOnce(td, cur, slots[..|slots| - 1], costs, hist);
      ExpandOnceDistinct(td, cur, slots[..|slots| - 1], costs, hist);
      var s := slots[|slots| - 1];
      if !(s < 0 || s in hist + p.1) {
        assert hist + (p.1 + [s]) == (hist + p.1) + [s];
        AppendDistinct(hist + p.1, s);
      }
    }
  }

  lemma AppendDistinct(h: seq<int>, s: int)
    requires Distinct(h) && s !in h
    ensures Distinct(h + [s])
  {
    var h' := h + [s];
    forall a, b | 0 <= a < b < |h'|
      ensures h'[a] != h'[b]
    {
      assert h'[a] == h[a];
    }
  }

  /**
   * When every cost is positive, marks and history agree, and the intended
   * loop does exactly what the written loop does.
   */
  lemma {:induction false} ExpandOnceAgrees(td: seq<TempData>, cur: int, slots: seq<int>, costs: seq<real>,
                                            hist: seq<int>)
    requires |costs| == |td| && SlotsInRange(slots, |td|) && Positive(costs)
    requires InRange(hist, |td|) && Distinct(hist) && MarksMatch(td, hist)
    ensures ExpandOnce(td, cur, slots, costs, hist) == Expand(td, cur, slots, costs)
    ensures var e := Expand(td, cur, slots, costs);
      InRange(hist + e.1, |td|) && Distinct(hist + e.1) && MarksMatch(e.0, hist + e.1)
    decreases |slots|
  {
    if slots == [] {
      assert hist + [] == hist;
    } else {
      ExpandOnceAgrees(td, cur, slots[..|slots| - 1], costs, hist);
      var p := Expand(td, cur, slots[..|slots| - 1], costs);
      var s := slots[|slots| - 1];
      if s >= 0 {
        assert Marked(p.0[s]) <==> s in hist + p.1;
        if !Marked(p.0[s]) {
          RelaxMarks(p.0, hist + p.1, s, TempData(cur, costs[s]));
          assert hist + (p.1 + [s]) == (hist + p.1) + [s];
        }
      }
    }
  }
}
