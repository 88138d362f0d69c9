// Packages/com.tecmaid.spatialpathfinding/Runtime/PathingManager.cs: the
// router and scheduler of the com.tecmaid version.  Agents that request a path
// are queued in calculableAgents; each Update plans every queued agent and
// moves every agent in movableAgents.  Planning picks, among the links of
// the agent's volume, the first one with traverse access whose volume's box
// is strictly closer to the target than the agent's own box, then runs one
// search (same volume) or two (target leg first, then the origin leg) into
// the shared wayPoints list, hands a copy to the agent and clears the list.
//
// Both passes change the list they walk: a newly movable agent is removed
// from calculableAgents, and a finishing agent removes itself from
// movableAgents, while the index still advances, so the agent after it is
// not visited in that pass.  PlanPass and MovePass state the passes; they
// are related to the loops, and their consequences are proved as lemmas.
//
// Not modelled here: CheckTraverseAccess (an unseen method) is the
// parameter access, the engine's Bounds.ClosestPoint is the parameter
// closest, and the per-volume search job is the parameter search, which
// gives the walk from goal back to start as the job appends it.

module PkgPathingManager {
  import opened Vectors
  import opened BoundingBoxChecker
  import opened PkgCalculationHelper
  import opened PkgNavigationVolume
  import opened PkgNavigationPath
  import opened PkgFlyingAgent

  /** CheckTraverseAccess: whether an agent may cross a sub-link. */
  type Access = NavigationSubLink -> bool

  /** Bounds.ClosestPoint: the point of a box closest to a position. */
  type Closest = (Bounds, Float3) -> Float3

  /** The search job in a volume from a start to a goal: the walk from goal back to start. */
  type Search = (NavigationVolume, Float3, Float3) -> seq<Float3>

  // ----- Lists -----

  predicate Distinct<A(==)>(s: seq<A>)
  {
    forall i, j :: 0 <= i < j < |s| ==> s[i] != s[j]
  }

  /** List.Remove: drops the first occurrence of x, if there is one. */
  function RemoveFirst<A(==)>(s: seq<A>, x: A): (r: seq<A>)
    ensures x in s ==> |r| == |s| - 1
    ensures x !in s ==> r == s
    ensures forall y :: y in r ==> y in s
  {
    if s == [] then []
    else if s[0] == x then s[1..]
    else [s[0]] + RemoveFirst(s[1..], x)
  }

  /** List.Remove takes away exactly one copy of x, when there is one. */
  lemma {:induction false} RemoveFirstMultiset<A>(s: seq<A>, x: A)
    ensures multiset(RemoveFirst(s, x)) == multiset(s) - multiset{x}
  {
    if s != [] {
      assert s == [s[0]] + s[1..];
      if s[0] != x {
        RemoveFirstMultiset(s[1..], x);
      }
    }
  }

  /** When the first occurrence of s[i] is at i, List.Remove drops exactly position i. */
  lemma {:induction false} RemoveFirstAt<A>(s: seq<A>, i: int)
    requires 0 <= i < |s| && s[i] !in s[..i]
    ensures RemoveFirst(s, s[i]) == s[..i] + s[i + 1..]
  {
    if i > 0 {
      assert s[0] != s[i] by { assert s[0] == s[..i][0]; }
      assert s[1..][i - 1] == s[i];
      assert s[1..][..i - 1] == s[..i][1..];
      RemoveFirstAt(s[1..], i - 1);
      assert s[..i] == [s[0]] + s[1..][..i - 1];
      assert s[i + 1..] == s[1..][i..];
    }
  }

  /** Removing from a list without duplicates removes the element altogether and keeps the rest distinct. */
  lemma RemoveFirstDistinct<A>(s: seq<A>, x: A)
    requires Distinct(s)
    ensures Distinct(RemoveFirst(s, x)) && x !in RemoveFirst(s, x)
    ensures forall y :: y in RemoveFirst(s, x) <==> y in s && y != x
  {
    if x in s {
      var i := IndexIn(s, x);
      RemoveFirstAt(s, i);
      DistinctWithout(s, i);
      WithoutMembers(s, i);
    }
  }

  /** Dropping position i of a list without duplicates drops exactly the element there. */
  lemma WithoutMembers<A>(s: seq<A>, i: int)
    requires Distinct(s) && 0 <= i < |s|
    ensures forall y :: y in s[..i] + s[i + 1..] <==> y in s && y != s[i]
  {
    var t := s[..i] + s[i + 1..];
    forall y | y in t ensures y in s && y != s[i] {
      var k := IndexIn(t, y);
      if k < i {
        assert y == s[k];
      } else {
        assert y == s[k + 1];
      }
    }
    forall y | y in s && y != s[i] ensures y in t {
      var k := IndexIn(s, y);
      if k < i {
        assert s[..i][k] == y;
        assert y in s[..i];
      } else {
        assert s[i + 1..][k - i - 1] == y;
        assert y in s[i + 1..];
      }
    }
  }

  // ----- CalculateAllAgentPaths -----

  /**
   * The loop of CalculateAllAgentPaths from index i on, over the list pending
   * as it stands, with movable list mov: (the agents planned, in order, the
   * calculable list after the pass, the movable list after the pass).
   */
  function PlanPass<A(==)>(pending: seq<A>, mov: seq<A>, i: nat): (r: (seq<A>, seq<A>, seq<A>))
    decreases |pending| - i
  {
    if i >= |pending| then ([], pending, mov)
    else
      var c := pending[i];
      var rest := if c in mov then PlanPass(pending, mov, i + 1) else PlanPass(RemoveFirst(pending, c), mov + [c], i + 1);
      ([c] + rest.0, rest.1, rest.2)
  }

  /** One turn of the pass: the agent at i is planned, and the rest of the pass runs on the updated lists. */
  lemma PlanPassStep<A>(pending: seq<A>, mov: seq<A>, i: nat, done: seq<A>, total: (seq<A>, seq<A>, seq<A>))
    requires i < |pending|
    requires var r := PlanPass(pending, mov, i); (done + r.0, r.1, r.2) == total
    ensures var c := pending[i];
      var r := if c in mov then PlanPass(pending, mov, i + 1) else PlanPass(RemoveFirst(pending, c), mov + [c], i + 1);
      ((done + [c]) + r.0, r.1, r.2) == total
  {
    var c := pending[i];
    var r := if c in mov then PlanPass(pending, mov, i + 1) else PlanPass(RemoveFirst(pending, c), mov + [c], i + 1);
    assert done + ([c] + r.0) == (done + [c]) + r.0;
  }

  /** Past the end of the list the pass plans nothing more and leaves both lists as they are. */
  lemma PlanPassDone<A>(pending: seq<A>, mov: seq<A>, i: nat, done: seq<A>, total: (seq<A>, seq<A>, seq<A>))
    requires |pending| <= i
    requires var r := PlanPass(pending, mov, i); (done + r.0, r.1, r.2) == total
    ensures (done, pending, mov) == total
  {
    assert done + [] == done;
  }

  /**
   * The movable list only grows, by agents it did not hold, so it never
   * holds an agent twice; every agent of the calculable list ends up either
   * still calculable or newly movable, and an agent that was already movable
   * keeps every one of its entries in the calculable list.
   */
  lemma {:induction false} PlanPassMovable<A>(pending: seq<A>, mov: seq<A>, i: nat)
    requires Distinct(mov)
    ensures var r := PlanPass(pending, mov, i);
      && |mov| <= |r.2| && r.2[..|mov|] == mov && Distinct(r.2)
      && multiset(r.1) + multiset(r.2[|mov|..]) == multiset(pending)
      && forall x :: x in mov ==> multiset(r.1)[x] == multiset(pending)[x]
    decreases |pending| - i
  {
    var r := PlanPass(pending, mov, i);
    if i < |pending| {
      var c := pending[i];
      if c in mov {
        PlanPassMovable(pending, mov, i + 1);
      } else {
        var pending', mov' := RemoveFirst(pending, c), mov + [c];
        assert Distinct(mov') by {
          forall p, q | 0 <= p < q < |mov'| ensures mov'[p] != mov'[q] {
            if q == |mov| { assert mov'[p] == mov[p]; }
          }
        }
        PlanPassMovable(pending', mov', i + 1);
        RemoveFirstMultiset(pending, c);
        var r' := PlanPass(pending', mov', i + 1);
        assert r == ([c] + r'.0, r'.1, r'.2);
        assert c in multiset(pending);
        MovableStep(pending, mov, c, r'.1, r'.2);
      }
    }
  }

  /** PlanPassMovable for an agent that becomes movable. */
  lemma MovableStep<A>(pending: seq<A>, mov: seq<A>, c: A, kept: seq<A>, movable: seq<A>)
    requires c in multiset(pending) && c !in mov
    requires var mov' := mov + [c];
      && |mov'| <= |movable| && movable[..|mov'|] == mov' && Distinct(movable)
      && multiset(kept) + multiset(movable[|mov'|..]) == multiset(pending) - multiset{c}
    ensures |mov| <= |movable| && movable[..|mov|] == mov
    ensures multiset(kept) + multiset(movable[|mov|..]) == multiset(pending)
    ensures forall x :: x in mov ==> multiset(kept)[x] == multiset(pending)[x]
  {
    var mov' := mov + [c];
    assert movable[..|mov|] == movable[..|mov'|][..|mov|];
    assert movable[|mov|..] == [c] + movable[|mov'|..];
    assert multiset(movable[|mov|..]) == multiset{c} + multiset(movable[|mov'|..]);
    assert multiset(pending) - multiset{c} + multiset{c} == multiset(pending);
    MovableKept(mov, c, kept, movable, multiset(pending));
  }

  /** The count of an old movable agent in the calculable list is unchanged by the pass. */
  lemma MovableKept<A>(mov: seq<A>, c: A, kept: seq<A>, all: seq<A>, before: multiset<A>)
    requires |mov| + 1 <= |all| && all[..|mov| + 1] == mov + [c] && Distinct(all)
    requires multiset(kept) + multiset(all[|mov| + 1..]) == before - multiset{c}
    ensures forall x :: x in mov ==> multiset(kept)[x] == before[x]
  {
    forall x | x in mov ensures multiset(kept)[x] == before[x] {
      NotAdded(mov, all, c, x);
      var k, added := multiset(kept), multiset(all[|mov| + 1..]);
      assert (k + added)[x] == k[x] + added[x];
      assert (before - multiset{c})[x] == before[x];
    }
  }

  /**
   * An agent of the old movable list is neither the agent just added nor
   * any agent added after it.
   */
  lemma NotAdded<A>(mov: seq<A>, all: seq<A>, c: A, x: A)
    requires |mov| + 1 <= |all| && all[..|mov| + 1] == mov + [c] && Distinct(all) && x in mov
    ensures x != c && multiset(all[|mov| + 1..])[x] == 0
  {
    var p := IndexIn(mov, x);
    assert all[p] == x && all[|mov|] == c;
    var tail := all[|mov| + 1..];
    forall k | 0 <= k < |tail| ensures tail[k] != x {
      assert tail[k] == all[|mov| + 1 + k];
    }
    assert x !in tail;
  }

  /** The first position of x in s. */
  ghost function IndexIn<A>(s: seq<A>, x: A): (k: int)
    requires x in s
    ensures 0 <= k < |s| && s[k] == x && x !in s[..k]
  {
    if s[0] == x then 0 else 1 + IndexIn(s[1..], x)
  }

  /**
   * The same pass told from the loop index on, for a calculable list that
   * holds no agent twice: s is the part of the list from the index on and
   * m the movable list.  An agent already movable is planned and stays; a
   * new one is planned, made movable and removed, and the agent after it is
   * skipped and stays for the next Update.
   */
  function SuffixPass<A(==)>(s: seq<A>, m: seq<A>): (r: (seq<A>, seq<A>, seq<A>))
    decreases |s|
  {
    if s == [] then ([], [], m)
    else if s[0] in m then
      var rest := SuffixPass(s[1..], m);
      ([s[0]] + rest.0, [s[0]] + rest.1, rest.2)
    else if |s| == 1 then ([s[0]], [], m + [s[0]])
    else
      var rest := SuffixPass(s[2..], m + [s[0]]);
      ([s[0]] + rest.0, [s[1]] + rest.1, rest.2)
  }

  /** Dropping one position keeps a list free of duplicates. */
  lemma DistinctWithout<A>(s: seq<A>, i: int)
    requires Distinct(s) && 0 <= i < |s|
    ensures Distinct(s[..i] + s[i + 1..])
  {
    var t := s[..i] + s[i + 1..];
    forall p, q | 0 <= p < q < |t| ensures t[p] != t[q] {
      var p', q' := if p < i then p else p + 1, if q < i then q else q + 1;
      assert t[p] == s[p'] && t[q] == s[q'];
    }
  }

  /** On a list without duplicates, the loop's pass is the pass told from the index on. */
  lemma {:induction false} PlanPassIsSuffixPass<A>(pending: seq<A>, mov: seq<A>, i: nat)
    requires Distinct(pending) && i <= |pending|
    ensures var r, t := PlanPass(pending, mov, i), SuffixPass(pending[i..], mov);
      r == (t.0, pending[..i] + t.1, t.2)
    decreases |pending| - i, 1
  {
    if i == |pending| {
      assert pending[..i] == pending && pending[i..] == [];
      assert SuffixPass(pending[i..], mov) == ([], [], mov);
      assert PlanPass(pending, mov, i) == ([], pending, mov);
      assert pending[..i] + [] == pending;
    } else if pending[i] in mov {
      PlanPassIsSuffixPass(pending, mov, i + 1);
      KeepStep(pending, mov, i);
    } else {
      MoveStep(pending, mov, i);
    }
  }

  /** The step for an agent already movable. */
  lemma KeepStep<A>(pending: seq<A>, mov: seq<A>, i: nat)
    requires i < |pending| && pending[i] in mov
    requires var r, t := PlanPass(pending, mov, i + 1), SuffixPass(pending[i + 1..], mov);
      r == (t.0, pending[..i + 1] + t.1, t.2)
    ensures var r, t := PlanPass(pending, mov, i), SuffixPass(pending[i..], mov);
      r == (t.0, pending[..i] + t.1, t.2)
  {
    var c, s := pending[i], pending[i..];
    assert s[0] == c && s[1..] == pending[i + 1..];
    var t' := SuffixPass(pending[i + 1..], mov);
    assert SuffixPass(s, mov) == ([c] + t'.0, [c] + t'.1, t'.2);
    assert pending[..i + 1] + t'.1 == pending[..i] + ([c] + t'.1);
  }

  /** The step for an agent that becomes movable: it is removed at the index, which the next step passes over. */
  lemma {:induction false} MoveStep<A>(pending: seq<A>, mov: seq<A>, i: nat)
    requires Distinct(pending) && i < |pending| && pending[i] !in mov
    ensures var r, t := PlanPass(pending, mov, i), SuffixPass(pending[i..], mov);
      r == (t.0, pending[..i] + t.1, t.2)
    decreases |pending| - i, 0
  {
    var c := pending[i];
    assert c !in pending[..i];
    RemoveFirstAt(pending, i);
    var pending', m' := pending[..i] + pending[i + 1..], mov + [c];
    DistinctWithout(pending, i);
    var r' := PlanPass(pending', m', i + 1);
    assert PlanPass(pending, mov, i) == ([c] + r'.0, r'.1, r'.2);
    if i + 1 == |pending| {
      MoveLast(pending, mov, i, r');
    } else {
      PlanPassIsSuffixPass(pending', m', i + 1);
      MoveInner(pending, mov, i, r');
    }
  }

  /** MoveStep for the last agent of the list. */
  lemma MoveLast<A>(pending: seq<A>, mov: seq<A>, i: nat, r': (seq<A>, seq<A>, seq<A>))
    requires i + 1 == |pending| && pending[i] !in mov
    requires r' == PlanPass(pending[..i] + pending[i + 1..], mov + [pending[i]], i + 1)
    requires PlanPass(pending, mov, i) == ([pending[i]] + r'.0, r'.1, r'.2)
    ensures var r, t := PlanPass(pending, mov, i), SuffixPass(pending[i..], mov);
      r == (t.0, pending[..i] + t.1, t.2)
  {
    var c, pending' := pending[i], pending[..i] + pending[i + 1..];
    assert pending' == pending[..i];
    assert r' == ([], pending', mov + [c]);
    assert pending[i..] == [c];
    assert SuffixPass(pending[i..], mov) == ([c], [], mov + [c]);
    assert [c] + [] == [c] && pending[..i] + [] == pending';
  }

  /** MoveStep for an agent with a successor, which the next step passes over. */
  lemma MoveInner<A>(pending: seq<A>, mov: seq<A>, i: nat, r': (seq<A>, seq<A>, seq<A>))
    requires i + 1 < |pending| && pending[i] !in mov
    requires r' == PlanPass(pending[..i] + pending[i + 1..], mov + [pending[i]], i + 1)
    requires PlanPass(pending, mov, i) == ([pending[i]] + r'.0, r'.1, r'.2)
    requires var p' := pending[..i] + pending[i + 1..]; var t := SuffixPass(p'[i + 1..], mov + [pending[i]]);
      r' == (t.0, p'[..i + 1] + t.1, t.2)
    ensures var r, t := PlanPass(pending, mov, i), SuffixPass(pending[i..], mov);
      r == (t.0, pending[..i] + t.1, t.2)
  {
    var c, s, pending', m' := pending[i], pending[i..], pending[..i] + pending[i + 1..], mov + [pending[i]];
    var t := SuffixPass(s[2..], m');
    assert pending'[i + 1..] == s[2..];
    assert s[0] == c && 2 <= |s|;
    assert SuffixPass(s, mov) == ([c] + t.0, [s[1]] + t.1, t.2);
    assert pending'[..i + 1] == pending[..i] + [s[1]];
    assert pending'[..i + 1] + t.1 == pending[..i] + ([s[1]] + t.1);
  }

  /**
   * Every agent a pass plans or leaves calculable comes from the part of
   * the list it walks, and the movable list only gains entries at its end.
   */
  lemma {:induction false} SuffixPassFromList<A>(s: seq<A>, m: seq<A>)
    ensures var r := SuffixPass(s, m);
      && (forall x :: x in r.0 ==> x in s)
      && (forall x :: x in r.1 ==> x in s)
      && |m| <= |r.2| && r.2[..|m|] == m
    decreases |s|
  {
    if s != [] {
      if s[0] in m {
        SuffixPassFromList(s[1..], m);
      } else if |s| > 1 {
        SuffixPassFromList(s[2..], m + [s[0]]);
        var r := SuffixPass(s[2..], m + [s[0]]);
        assert r.2[..|m|] == r.2[..|m| + 1][..|m|];
      }
    }
  }

  /**
   * The agent after a newly movable one is skipped: it is not planned in
   * this pass and becomes the next entry of the calculable list, while the
   * newly movable agent joins the movable list and leaves the calculable one.
   */
  lemma SkipAfterNewlyMovable<A>(s: seq<A>, m: seq<A>)
    requires Distinct(s) && 2 <= |s| && s[0] !in m
    ensures s[1] !in SuffixPass(s, m).0
    ensures SuffixPass(s, m).1[0] == s[1]
    ensures s[0] in SuffixPass(s, m).2 && s[0] !in SuffixPass(s, m).1
  {
    var m' := m + [s[0]];
    SuffixPassFromList(s[2..], m');
    var r := SuffixPass(s[2..], m');
    assert forall k :: 2 <= k < |s| ==> s[k] != s[1] && s[k] != s[0];
    assert s[1] !in s[2..] && s[0] !in s[2..];
    assert s[0] != s[1];
    assert s[0] == r.2[..|m'|][|m|];
  }

  // ----- MoveAllAgents -----

  /**
   * The loop of MoveAllAgents over a list s without duplicates, where fin
   * holds the agents whose tick finishes: (the agents ticked, in order, the
   * movable list after the pass).  A finishing agent is ticked and removes
   * itself; the agent after it takes its index, which the loop then passes
   * over, so that agent is not ticked and stays.
   */
  function MovePass<A(==)>(s: seq<A>, fin: set<A>): (r: (seq<A>, seq<A>))
    decreases |s|
  {
    if s == [] then ([], [])
    else if s[0] !in fin then
      var rest := MovePass(s[1..], fin);
      ([s[0]] + rest.0, [s[0]] + rest.1)
    else if |s| == 1 then ([s[0]], [])
    else
      var rest := MovePass(s[2..], fin);
      ([s[0]] + rest.0, [s[1]] + rest.1)
  }

  /**
   * What the pass leaves: an agent of the list stays movable exactly when
   * it was not ticked into finishing; the remaining list keeps the order and
   * has no duplicates; and every ticked agent, like every remaining one, is
   * from the list.
   */
  lemma {:induction false} MovePassRemovesFinished<A>(s: seq<A>, fin: set<A>)
    requires Distinct(s)
    ensures var r := MovePass(s, fin);
      && (forall x :: x in r.1 <==> x in s && !(x in r.0 && x in fin))
      && (forall x :: x in r.0 ==> x in s)
      && Distinct(r.0) && Distinct(r.1)
    decreases |s|
  {
    if s != [] {
      var t := if s[0] !in fin || |s| == 1 then s[1..] else s[2..];
      var off := |s| - |t|;
      assert Distinct(t) && s[0] !in t && (off == 2 ==> s[1] !in t) by {
        forall p, q | 0 <= p < q < |t| ensures t[p] != t[q] {
          assert t[p] == s[p + off] && t[q] == s[q + off];
        }
        forall k | 0 <= k < |t| ensures t[k] != s[0] && (off == 2 ==> t[k] != s[1]) {
          assert t[k] == s[k + off];
        }
      }
      MovePassRemovesFinished(t, fin);
      if |s| > 1 {
        assert s == [s[0], s[1]] + s[2..];
      } else {
        assert s == [s[0]];
      }
    }
  }

  /** An agent right after a finishing one is neither ticked nor removed in that pass. */
  lemma SkipAfterFinished<A>(s: seq<A>, fin: set<A>)
    requires Distinct(s) && 2 <= |s| && s[0] in fin
    ensures s[1] !in MovePass(s, fin).0
    ensures MovePass(s, fin).1[0] == s[1] && s[0] !in MovePass(s, fin).1
  {
    MovePassRemovesFinished(s[2..], fin);
    assert forall k :: 2 <= k < |s| ==> s[k] != s[1] && s[k] != s[0];
    assert s[1] !in s[2..] && s[0] !in s[2..];
  }

  /** With no agent finishing, every agent is ticked and the list stays as it is. */
  lemma {:induction false} MovePassNoneFinished<A>(s: seq<A>, fin: set<A>)
    requires forall x :: x in s ==> x !in fin
    ensures MovePass(s, fin) == (s, s)
    decreases |s|
  {
    if s != [] {
      assert s[0] in s;
      assert forall x :: x in s[1..] ==> x in s;
      MovePassNoneFinished(s[1..], fin);
      assert s == [s[0]] + s[1..];
    }
  }

  /** The agents a loop at index i has passed over in s. */
  function Passed<A>(s: seq<A>, i: nat): (r: seq<A>)
    ensures i <= |s| ==> r == s[..i]
    ensures |s| < i ==> r == s
  {
    if i <= |s| then s[..i] else s
  }

  /** The agents still ahead of a loop at index i in s. */
  function Ahead<A>(s: seq<A>, i: nat): (r: seq<A>)
    ensures i <= |s| ==> r == s[i..]
    ensures |s| < i ==> r == []
  {
    if i <= |s| then s[i..] else []
  }

  /** In a list without duplicates the element at i occurs neither before nor after i. */
  lemma DistinctAt<A>(s: seq<A>, i: int)
    requires Distinct(s) && 0 <= i < |s|
    ensures s[i] !in s[..i] && s[i] !in s[i + 1..]
  {
    var before, after := s[..i], s[i + 1..];
    forall k | 0 <= k < |before| ensures before[k] != s[i] {
      assert before[k] == s[k];
    }
    forall k | 0 <= k < |after| ensures after[k] != s[i] {
      assert after[k] == s[i + 1 + k];
    }
  }

  /** In a concatenation without duplicates no element of the second part is in the first. */
  lemma DistinctApart<A>(a: seq<A>, b: seq<A>)
    requires Distinct(a + b)
    ensures forall x :: x in b ==> x !in a
  {
    forall x | x in b ensures x !in a {
      var q := IndexIn(b, x);
      forall p | 0 <= p < |a| ensures a[p] != x {
        assert (a + b)[p] == a[p] && (a + b)[|a| + q] == x;
      }
    }
  }

  /** A later suffix holds only elements of an earlier one. */
  lemma SuffixIn<A>(s: seq<A>, j: int, k: int)
    requires 0 <= j <= k <= |s|
    ensures forall a :: a in s[k..] ==> a in s[j..]
  {
    forall a | a in s[k..] ensures a in s[j..] {
      var n := IndexIn(s[k..], a);
      assert s[j..][k - j + n] == a;
    }
  }

  /**
   * One turn of the MoveAllAgents loop at index i: the agent there is
   * ticked, and, when it finishes, List.Remove takes it out at i; the rest
   * of the pass runs from i + 1 on the list as it then stands, and the
   * agents ahead of it are agents that were ahead before, other than the
   * one ticked.
   */
  lemma TickStep<A>(s: seq<A>, i: nat, fin: set<A>, done: seq<A>, total: (seq<A>, seq<A>))
    requires Distinct(s) && i < |s|
    requires var r := MovePass(Ahead(s, i), fin); (done + r.0, Passed(s, i) + r.1) == total
    ensures var s' := if s[i] in fin then RemoveFirst(s, s[i]) else s;
      var r := MovePass(Ahead(s', i + 1), fin);
      && (done + [s[i]] + r.0, Passed(s', i + 1) + r.1) == total
      && forall a :: a in Ahead(s', i + 1) ==> a in Ahead(s, i) && a != s[i]
  {
    var x := s[i];
    DistinctAt(s, i);
    SuffixIn(s, i, i + 1);
    assert s[i..][1..] == s[i + 1..];
    if x !in fin {
      TickKeep(s, i, fin, done, total);
    } else {
      RemoveFirstAt(s, i);
      if i + 1 == |s| {
        assert s[i..] == [x] && MovePass([x], fin) == ([x], []);
        assert s[..i] + s[i + 1..] == s[..i] && Passed(s[..i], i + 1) == s[..i];
        assert done + [x] + [] == done + [x] && s[..i] + [] == s[..i];
      } else {
        SuffixIn(s, i + 1, i + 2);
        TickRemove(s, i, fin, done, total);
      }
    }
  }

  /** TickStep for an agent that does not finish: it is ticked and stays. */
  lemma TickKeep<A>(s: seq<A>, i: nat, fin: set<A>, done: seq<A>, total: (seq<A>, seq<A>))
    requires i < |s| && s[i] !in fin
    requires var r := MovePass(Ahead(s, i), fin); (done + r.0, Passed(s, i) + r.1) == total
    ensures var r := MovePass(Ahead(s, i + 1), fin); (done + [s[i]] + r.0, Passed(s, i + 1) + r.1) == total
  {
    var x := s[i];
    assert s[i..][0] == x && s[i..][1..] == s[i + 1..];
    var r := MovePass(s[i + 1..], fin);
    assert MovePass(s[i..], fin) == ([x] + r.0, [x] + r.1);
    assert s[..i + 1] == s[..i] + [x];
    assert done + [x] + r.0 == done + ([x] + r.0);
    assert s[..i] + [x] + r.1 == s[..i] + ([x] + r.1);
  }

  /**
   * TickStep for a finishing agent with another behind it: it is ticked and
   * removed, and the agent behind it moves to index i, which the loop passes.
   */
  lemma TickRemove<A>(s: seq<A>, i: nat, fin: set<A>, done: seq<A>, total: (seq<A>, seq<A>))
    requires i + 1 < |s| && s[i] in fin
    requires var r := MovePass(Ahead(s, i), fin); (done + r.0, Passed(s, i) + r.1) == total
    ensures var s' := s[..i] + s[i + 1..];
      var r := MovePass(Ahead(s', i + 1), fin);
      (done + [s[i]] + r.0, Passed(s', i + 1) + r.1) == total
  {
    var x, y := s[i], s[i + 1];
    var s' := s[..i] + s[i + 1..];
    assert s[i..][0] == x && s[i..][1] == y && s[i..][2..] == s[i + 2..];
    var r := MovePass(s[i + 2..], fin);
    assert MovePass(s[i..], fin) == ([x] + r.0, [y] + r.1);
    assert s'[..i + 1] == s[..i] + [y] && s'[i + 1..] == s[i + 2..];
    assert done + [x] + r.0 == done + ([x] + r.0);
    assert s[..i] + [y] + r.1 == s[..i] + ([y] + r.1);
  }

  /**
   * The MoveAllAgents loop from index i on, over the list s as it stands:
   * (the agents ticked, in order, the movable list after the pass).  The
   * agent at i is ticked; when it finishes, List.Remove takes it out and
   * the loop goes on at i + 1 all the same.
   */
  function MoveFrom<A(==)>(s: seq<A>, fin: set<A>, i: nat): (r: (seq<A>, seq<A>))
    decreases |s| - i
  {
    if i >= |s| then ([], s)
    else
      var x := s[i];
      var rest := if x in fin then MoveFrom(RemoveFirst(s, x), fin, i + 1) else MoveFrom(s, fin, i + 1);
      ([x] + rest.0, rest.1)
  }

  /** One turn of the loop: the agent at i is ticked, and the rest of the pass runs on the updated list. */
  lemma MoveFromStep<A>(s: seq<A>, fin: set<A>, i: nat, done: seq<A>, total: (seq<A>, seq<A>))
    requires i < |s|
    requires var r := MoveFrom(s, fin, i); (done + r.0, r.1) == total
    ensures var s' := if s[i] in fin then RemoveFirst(s, s[i]) else s;
      var r := MoveFrom(s', fin, i + 1); (done + [s[i]] + r.0, r.1) == total
  {
    var s' := if s[i] in fin then RemoveFirst(s, s[i]) else s;
    var r := MoveFrom(s', fin, i + 1);
    assert done + ([s[i]] + r.0) == done + [s[i]] + r.0;
  }

  /**
   * On a list without duplicates the loop is the pass MovePass describes:
   * from index i it ticks what MovePass ticks on the agents ahead of i and
   * leaves the agents it passed followed by what MovePass leaves of them.
   */
  lemma {:induction false} MoveFromIsMovePass<A>(s: seq<A>, fin: set<A>, i: nat)
    requires Distinct(s)
    ensures var r := MovePass(Ahead(s, i), fin); MoveFrom(s, fin, i) == (r.0, Passed(s, i) + r.1)
    decreases |s| - i
  {
    if i >= |s| {
      assert Ahead(s, i) == [] && Passed(s, i) + [] == s;
    } else {
      var x := s[i];
      var s' := if x in fin then RemoveFirst(s, x) else s;
      if x in fin {
        RemoveFirstDistinct(s, x);
      }
      MoveFromIsMovePass(s', fin, i + 1);
      var r := MovePass(Ahead(s, i), fin);
      assert [] + r.0 == r.0;
      TickStep(s, i, fin, [], (r.0, Passed(s, i) + r.1));
      var r' := MovePass(Ahead(s', i + 1), fin);
      assert [] + [x] + r'.0 == [x] + r'.0;
    }
  }

  // ----- CalculateClosestVolumes -----

  /**
   * The scan of CalculateClosestVolumes over the first n links, given their
   * box distances ds and their traverse access ok, starting from the
   * origin's distance d0: (the index of the chosen link or -1, the distance
   * kept).  A link replaces the choice when it has access and is strictly
   * closer than the distance kept.
   */
  function SelectLink(ds: seq<real>, ok: seq<bool>, d0: real, n: nat): (r: (int, real))
    requires |ok| == |ds| && n <= |ds|
    ensures -1 <= r.0 < n && r.1 <= d0
    ensures r.0 == -1 ==> r.1 == d0
    ensures 0 <= r.0 ==> ok[r.0] && r.1 == ds[r.0] < d0
  {
    if n == 0 then (-1, d0)
    else
      var kept := SelectLink(ds, ok, d0, n - 1);
      if ok[n - 1] && ds[n - 1] < kept.1 then (n - 1, ds[n - 1]) else kept
  }

  /**
   * The scan picks the first link with access whose distance is least among
   * the links with access, provided it is strictly below d0, and picks none
   * exactly when no link with access is strictly below d0.
   */
  lemma {:induction false} SelectLinkIsFirstMinimum(ds: seq<real>, ok: seq<bool>, d0: real, n: nat)
    requires |ok| == |ds| && n <= |ds|
    ensures var r := SelectLink(ds, ok, d0, n);
      && (r.0 == -1 <==> forall j :: 0 <= j < n && ok[j] ==> d0 <= ds[j])
      && (forall j :: 0 <= j < n && ok[j] ==> r.1 <= ds[j])
      && (forall j :: 0 <= j < r.0 && ok[j] ==> r.1 < ds[j])
  {
    if n > 0 {
      SelectLinkIsFirstMinimum(ds, ok, d0, n - 1);
    }
  }

  /** With a goal inside the origin's box (distance 0) no link is ever chosen. */
  lemma SelectNoneFromZero(ds: seq<real>, ok: seq<bool>)
    requires |ok| == |ds| && forall j :: 0 <= j < |ds| ==> 0.0 <= ds[j]
    ensures SelectLink(ds, ok, 0.0, |ds|) == (-1, 0.0)
  {
    SelectLinkIsFirstMinimum(ds, ok, 0.0, |ds|);
  }

  /** float.MaxValue, the initial tempDistance. */
  const MaxFloat: real := 340282346638528859811704183484516925440.0

  /**
   * The squared distance from goal to the point of box closest to it, as
   * closest (the engine's Bounds.ClosestPoint) finds that point.
   */
  function BoxDistance(closest: Closest, box: Bounds, goal: Float3): real
  {
    CalculateSquaredDistance(closest(box, goal), goal)
  }

  /** Every link leads to a volume. */
  ghost predicate LinksReady(links: seq<NavigationSubLink>)
    reads links`LinkedVolume
  {
    forall l :: l in links ==> l.LinkedVolume != null
  }

  /** What routing reads of one sub-link: the link, the volume it leads to and its partner sub-link. */
  datatype Hop = Hop(link: NavigationSubLink, volume: NavigationVolume?, partner: NavigationSubLink?)

  /** The hops of a list of links, in link order. */
  ghost function Hops(links: seq<NavigationSubLink>): (hs: seq<Hop>)
    reads links`LinkedVolume, links`NeighborLink
    ensures |hs| == |links|
    ensures forall i :: 0 <= i < |links| ==> hs[i] == Hop(links[i], links[i].LinkedVolume, links[i].NeighborLink)
    decreases |links|
  {
    if links == [] then []
    else
      var n := |links| - 1;
      Hops(links[..n]) + [Hop(links[n], links[n].LinkedVolume, links[n].NeighborLink)]
  }

  /** Every hop leads to a volume. */
  ghost predicate HopsReady(hs: seq<Hop>)
  {
    forall h :: h in hs ==> h.volume != null
  }

  /** The links are ready exactly when their hops are. */
  lemma HopsReadyIff(links: seq<NavigationSubLink>)
    ensures HopsReady(Hops(links)) <==> LinksReady(links)
  {
    var hs := Hops(links);
    if HopsReady(hs) {
      forall l | l in links
        ensures l.LinkedVolume != null
      {
        var i :| 0 <= i < |links| && links[i] == l;
        assert hs[i] in hs;
      }
    }
    if LinksReady(links) {
      forall h | h in hs
        ensures h.volume != null
      {
        var i :| 0 <= i < |hs| && hs[i] == h;
        assert links[i] in links;
      }
    }
  }

  /** The box distance of each hop's volume to goal. */
  ghost function Distances(hs: seq<Hop>, goal: Float3, closest: Closest): (ds: seq<real>)
    requires HopsReady(hs)
    ensures |ds| == |hs|
  {
    seq(|hs|, i requires 0 <= i < |hs| => assert hs[i] in hs; BoxDistance(closest, hs[i].volume.DetectionBox, goal))
  }

  /** The traverse access of each hop's link. */
  function Accesses(hs: seq<Hop>, access: Access): (ok: seq<bool>)
    ensures |ok| == |hs|
  {
    seq(|hs|, i requires 0 <= i < |hs| => access(hs[i].link))
  }

  /** CalculateClosestVolumes over the hops from a volume with box box: (chosen hop or -1, distance kept). */
  ghost function Choice(box: Bounds, hs: seq<Hop>, goal: Float3, access: Access, closest: Closest): (r: (int, real))
    requires HopsReady(hs)
    ensures -1 <= r.0 < |hs|
  {
    SelectLink(Distances(hs, goal, closest), Accesses(hs, access), BoxDistance(closest, box, goal), |hs|)
  }

  /** The volume a route from origin through hs ends in: the chosen hop's volume, or the origin. */
  ghost function Destination(origin: NavigationVolume, hs: seq<Hop>, goal: Float3, access: Access, closest: Closest): NavigationVolume
    requires HopsReady(hs)
  {
    var k := Choice(origin.DetectionBox, hs, goal, access, closest).0;
    if k == -1 then origin else assert hs[k] in hs; hs[k].volume
  }

  /** A route can be planned through hs: the boxes are measurable and a chosen hop has its partner. */
  ghost predicate Routable(box: Bounds, hs: seq<Hop>, goal: Float3, access: Access, closest: Closest)
  {
    && HopsReady(hs)
    && var k := Choice(box, hs, goal, access, closest).0;
      0 <= k ==> hs[k].partner != null
  }

  /** The waypoints of a route from start in origin through hs to goal (see Plan). */
  ghost function Route(origin: NavigationVolume, hs: seq<Hop>, start: Float3, goal: Float3, access: Access, closest: Closest,
                       search: Search): seq<Float3>
    requires Routable(origin.DetectionBox, hs, goal, access, closest)
  {
    var target := Destination(origin, hs, goal, access, closest);
    if target == origin then search(origin, start, goal)
    else
      var hop := hs[Choice(origin.DetectionBox, hs, goal, access, closest).0];
      search(target, hop.partner.Position, goal) + search(origin, start, hop.link.Position)
  }

  // ----- Routing -----

  /** The origin's box and its links' boxes are well-formed. */
  ghost predicate Measurable(origin: NavigationVolume)
    reads origin`Links, origin.Links`LinkedVolume, origin.Links`NeighborLink
  {
    HopsReady(Hops(origin.Links))
  }

  /** CalculateClosestVolumes from the origin towards goal: (chosen link index or -1, distance kept). */
  ghost function Selection(origin: NavigationVolume, goal: Float3, access: Access, closest: Closest): (r: (int, real))
    requires Measurable(origin)
    reads origin`Links, origin.Links`LinkedVolume, origin.Links`NeighborLink
    ensures -1 <= r.0 < |origin.Links|
  {
    Choice(origin.DetectionBox, Hops(origin.Links), goal, access, closest)
  }

  /** The volume a route ends in: the chosen link's volume, or the origin when none is chosen. */
  ghost function Target(origin: NavigationVolume, goal: Float3, access: Access, closest: Closest): NavigationVolume
    requires Measurable(origin)
    reads origin`Links, origin.Links`LinkedVolume, origin.Links`NeighborLink
  {
    Destination(origin, Hops(origin.Links), goal, access, closest)
  }

  /** A route can be planned from origin: the boxes are measurable and a chosen link has its partner set. */
  ghost predicate Plannable(origin: NavigationVolume, goal: Float3, access: Access, closest: Closest)
    reads origin`Links, origin.Links`LinkedVolume, origin.Links`NeighborLink
  {
    Routable(origin.DetectionBox, Hops(origin.Links), goal, access, closest)
  }

  /**
   * The waypoints GenerateWaypoints appends for a route from start in
   * origin to goal, each search adding its walk from goal back to start:
   * one search when the target volume is the origin, otherwise the target
   * leg (from the partner sub-link to goal) followed by the origin leg
   * (from start to the chosen sub-link).
   */
  ghost function Plan(origin: NavigationVolume, start: Float3, goal: Float3, access: Access, closest: Closest,
                      search: Search): seq<Float3>
    requires Plannable(origin, goal, access, closest)
    reads origin`Links, origin.Links`LinkedVolume, origin.Links`NeighborLink
  {
    Route(origin, Hops(origin.Links), start, goal, access, closest, search)
  }

  /**
   * A chosen link never leads back into the origin, since its box is
   * strictly closer to goal; so a route is one search exactly when no link
   * is chosen, and two legs otherwise.
   */
  lemma PlanLegs(origin: NavigationVolume, start: Float3, goal: Float3, access: Access, closest: Closest,
                 search: Search)
    requires Plannable(origin, goal, access, closest)
    ensures var k := Selection(origin, goal, access, closest).0;
      && (k == -1 ==> Plan(origin, start, goal, access, closest, search) == search(origin, start, goal))
      && (0 <= k ==> var link := origin.Links[k];
            && link.LinkedVolume != origin && link.NeighborLink != null
            && Target(origin, goal, access, closest) == link.LinkedVolume
            && Plan(origin, start, goal, access, closest, search)
               == search(link.LinkedVolume, link.NeighborLink.Position, goal) + search(origin, start, link.Position))
  {
    var hs := Hops(origin.Links);
    var k := Selection(origin, goal, access, closest).0;
    if 0 <= k {
      assert hs[k] in hs;
      assert Distances(hs, goal, closest)[k] < BoxDistance(closest, origin.DetectionBox, goal);
    }
  }

  /** closest agrees with the clamp of BoundingBoxChecker on every well-formed box. */
  ghost predicate AsClamp(closest: Closest)
  {
    forall box, p :: WellFormed(box) ==> closest(box, p) == ClosestPoint(box, p)
  }

  /**
   * A goal inside the origin's box is reached by a single search in the
   * origin: its closest point is the goal itself, so the origin's distance
   * is zero and no link is strictly closer.
   */
  lemma PlanGoalInsideOrigin(origin: NavigationVolume, start: Float3, goal: Float3, access: Access, closest: Closest,
                             search: Search)
    requires Plannable(origin, goal, access, closest) && AsClamp(closest)
    requires WellFormed(origin.DetectionBox) && IsPositionInsideVolume(goal, origin.DetectionBox)
    ensures Selection(origin, goal, access, closest).0 == -1
    ensures Plan(origin, start, goal, access, closest, search) == search(origin, start, goal)
  {
    var hs := Hops(origin.Links);
    assert closest(origin.DetectionBox, goal) == goal;
    SquaredDistanceZeroIff(goal, goal);
    SelectNoneFromZero(Distances(hs, goal, closest), Accesses(hs, access));
  }

  /** The list read from its last element to its first. */
  function Reverse<A>(s: seq<A>): (r: seq<A>)
    ensures |r| == |s|
  {
    if s == [] then [] else Reverse(s[1..]) + [s[0]]
  }

  /** Reading a concatenation from the back reads the second part first. */
  lemma {:induction false} ReverseAppend<A>(a: seq<A>, b: seq<A>)
    ensures Reverse(a + b) == Reverse(b) + Reverse(a)
    decreases |a|
  {
    if a == [] {
      assert a + b == b;
    } else {
      assert (a + b)[1..] == a[1..] + b;
      ReverseAppend(a[1..], b);
    }
  }

  /**
   * An agent consumes its path from the back, so across two volumes it
   * follows the origin leg (start to the chosen sub-link) and then the
   * target leg (partner sub-link to goal), each read from the back.
   */
  lemma PlanReadFromBack(origin: NavigationVolume, start: Float3, goal: Float3, access: Access, closest: Closest,
                         search: Search)
    requires Plannable(origin, goal, access, closest) && 0 <= Selection(origin, goal, access, closest).0
    ensures var link := origin.Links[Selection(origin, goal, access, closest).0];
      Reverse(Plan(origin, start, goal, access, closest, search))
      == Reverse(search(origin, start, link.Position)) + Reverse(search(link.LinkedVolume, link.NeighborLink.Position, goal))
  {
    PlanLegs(origin, start, goal, access, closest, search);
    var link := origin.Links[Selection(origin, goal, access, closest).0];
    ReverseAppend(search(link.LinkedVolume, link.NeighborLink.Position, goal), search(origin, start, link.Position));
  }

  /**
   * Every link of origin is linked, as linking leaves both sub-links of a
   * pair: it leads to a volume and has its partner sub-link.
   */
  ghost predicate Linked(origin: NavigationVolume)
    reads origin`Links, origin.Links`LinkedVolume, origin.Links`NeighborLink
  {
    forall l :: l in origin.Links ==> l.LinkedVolume != null && l.NeighborLink != null
  }

  /** From a volume whose links are all linked a route can be planned to any goal. */
  lemma LinkedPlannable(origin: NavigationVolume, goal: Float3, access: Access, closest: Closest)
    requires Linked(origin)
    ensures Plannable(origin, goal, access, closest)
  {
    HopsReadyIff(origin.Links);
    var k := Selection(origin, goal, access, closest).0;
    if 0 <= k {
      assert origin.Links[k] in origin.Links;
    }
  }

  /** The cursor of each agent of s. */
  ghost function Cursors(s: seq<FlyingAgent>): (cs: seq<int>)
    reads s
    ensures |cs| == |s| && forall j :: 0 <= j < |s| ==> cs[j] == s[j].currentWayPointIndex
  {
    seq(|s|, j reads s requires 0 <= j < |s| => s[j].currentWayPointIndex)
  }

  /** The position of each agent of s. */
  ghost function Positions(s: seq<FlyingAgent>): (ps: seq<Float3>)
    reads s
    ensures |ps| == |s| && forall j :: 0 <= j < |s| ==> ps[j] == s[j].Position
  {
    seq(|s|, j reads s requires 0 <= j < |s| => s[j].Position)
  }

  /**
   * Against the cursors cs and positions ps the agents of s had: each
   * agent in ticked stands where one tick from there leaves it, and each
   * other agent stands where it stood.
   */
  ghost predicate Moved(s: seq<FlyingAgent>, cs: seq<int>, ps: seq<Float3>, ticked: seq<FlyingAgent>,
                        step: (Float3, Float3) -> Float3)
    reads s, set a | a in s && a.activePath != null :: a.activePath.Waypoints
  {
    && |cs| == |s| == |ps|
    && forall j :: 0 <= j < |s| ==>
         if s[j] in ticked then s[j].Following() && s[j].TickedFrom(cs[j], ps[j], step)
         else s[j].currentWayPointIndex == cs[j] && s[j].Position == ps[j]
  }

  /** The path each agent of s holds. */
  ghost function Paths(s: seq<FlyingAgent>): (paths: seq<NavigationPath?>)
    reads s
    ensures |paths| == |s| && forall j :: 0 <= j < |s| ==> paths[j] == s[j].activePath
  {
    seq(|s|, j reads s requires 0 <= j < |s| => s[j].activePath)
  }

  /**
   * Against the paths and cursors the agents of s held: each agent in
   * planned holds a path with its cursor on the last waypoint, and each
   * other agent holds what it held.
   */
  ghost predicate Replanned(s: seq<FlyingAgent>, paths: seq<NavigationPath?>, cs: seq<int>, planned: seq<FlyingAgent>)
    reads s
  {
    && |paths| == |s| == |cs|
    && forall j :: 0 <= j < |s| ==>
         if s[j] in planned then s[j].activePath != null && s[j].currentWayPointIndex == s[j].activePath.Waypoints.Length - 1
         else s[j].activePath == paths[j] && s[j].currentWayPointIndex == cs[j]
  }

  // ----- The manager -----

  class PathingManager {
    var movableAgents: seq<FlyingAgent>
    var calculableAgents: seq<FlyingAgent>
    var wayPoints: seq<Float3>
    var originVolume: NavigationVolume?
    var targetVolume: NavigationVolume?

    constructor()
      ensures movableAgents == [] && calculableAgents == [] && wayPoints == []
      ensures originVolume == null && targetVolume == null
    {
      movableAgents, calculableAgents, wayPoints := [], [], [];
      originVolume, targetVolume := null, null;
    }

    /** Between Updates the shared waypoint list is empty and no agent is movable twice. */
    ghost predicate Valid()
      reads this`wayPoints, this`movableAgents
    {
      wayPoints == [] && Distinct(movableAgents)
    }

    /** The OnAgentStartedPathing handler: appends, even an agent already queued. */
    method AddAgentToCalculation(agent: FlyingAgent)
      modifies this`calculableAgents
      ensures calculableAgents == old(calculableAgents) + [agent]
    {
      calculableAgents := calculableAgents + [agent];
    }

    /** The OnAgentFinishedPathing handler: List.Remove, the first occurrence only. */
    method RemoveAgentFromMovable(agent: FlyingAgent)
      modifies this`movableAgents
      ensures movableAgents == RemoveFirst(old(movableAgents), agent)
      ensures Distinct(old(movableAgents)) ==> Distinct(movableAgents) && agent !in movableAgents
    {
      if Distinct(movableAgents) {
        RemoveFirstDistinct(movableAgents, agent);
      }
      movableAgents := RemoveFirst(movableAgents, agent);
    }

    /**
     * FlyingAgent.RequestPath with this manager present: the agent is
     * queued exactly when it stands in a volume.
     */
    method RequestPath(agent: FlyingAgent) returns (r: Request)
      modifies this`calculableAgents
      ensures r == NotInsideVolume <==> agent.ActiveVolume == null
      ensures r == Started <==> agent.ActiveVolume != null
      ensures calculableAgents == old(calculableAgents) + (if r == Started then [agent] else [])
    {
      r := agent.RequestPath(true);
      if r == Started {
        AddAgentToCalculation(agent);
      }
    }

    /**
     * The scan over links: each link's volume is measured against the
     * agent's target, and one with access that is strictly closer than the
     * distance kept becomes the choice and the target volume.  The refs
     * become results: the choice (unchanged when no link is chosen), the
     * last distance measured, and the distance kept.
     */
    method CalculateClosestVolumes(agent: FlyingAgent, tempLinkIndex: int, tempDistance: real, distance: real,
                                   links: seq<NavigationSubLink>, access: Access, closest: Closest,
                                   ghost ds: seq<real>, ghost ok: seq<bool>)
        returns (linkIndex: int, lastDistance: real, kept: real)
      requires LinksReady(links) && |ds| == |links| && |ok| == |links|
      requires forall j :: 0 <= j < |links| ==> ds[j] == BoxDistance(closest, links[j].LinkedVolume.DetectionBox, agent.TargetPos)
      requires forall j :: 0 <= j < |links| ==> ok[j] == access(links[j])
      modifies this`targetVolume
      ensures var r := SelectLink(ds, ok, distance, |links|);
        && linkIndex == (if r.0 == -1 then tempLinkIndex else r.0) && kept == r.1
        && targetVolume == (if r.0 == -1 then old(targetVolume) else old(links[r.0].LinkedVolume))
      ensures lastDistance == if links == [] then tempDistance else ds[|links| - 1]
    {
      linkIndex, lastDistance, kept := tempLinkIndex, tempDistance, distance;
      ghost var r := (-1, distance);
      var i := 0;
      while i < |links|
        invariant 0 <= i <= |links|
        invariant r == SelectLink(ds, ok, distance, i)
        invariant linkIndex == (if r.0 == -1 then tempLinkIndex else r.0) && kept == r.1
        invariant -1 <= r.0 < i && targetVolume == (if r.0 == -1 then old(targetVolume) else links[r.0].LinkedVolume)
        invariant lastDistance == if i == 0 then tempDistance else ds[i - 1]
      {
        assert links[i] in links;
        lastDistance := BoxDistance(closest, links[i].LinkedVolume.DetectionBox, agent.TargetPos);
        if access(links[i]) && lastDistance < kept {
          kept := lastDistance;
          targetVolume := links[i].LinkedVolume;
          linkIndex := i;
          r := (i, lastDistance);
        }
        i := i + 1;
      }
    }

    /**
     * The searches into wayPoints: one from the agent to its target when
     * the target volume is the origin, otherwise the target leg from the
     * chosen link's partner to the target, then the origin leg from the
     * agent to the chosen link.
     */
    method GenerateWaypoints(agent: FlyingAgent, tempLinkIndex: int, links: seq<NavigationSubLink>,
                             search: Search)
      requires originVolume != null && targetVolume != null
      requires originVolume != targetVolume ==>
        agent.ActiveVolume != null && 0 <= tempLinkIndex < |links| && links[tempLinkIndex].NeighborLink != null
      modifies this`wayPoints, this`originVolume
      ensures old(originVolume) == targetVolume ==>
        originVolume == targetVolume && wayPoints == old(wayPoints) + search(targetVolume, agent.Position, agent.TargetPos)
      ensures old(originVolume) != targetVolume ==>
        var link := links[tempLinkIndex];
        && originVolume == agent.ActiveVolume
        && wayPoints == old(wayPoints) + search(targetVolume, link.NeighborLink.Position, agent.TargetPos)
                                       + search(originVolume, agent.Position, link.Position)
    {
      if originVolume == targetVolume {
        wayPoints := wayPoints + search(originVolume, agent.Position, agent.TargetPos);
      } else {
        wayPoints := wayPoints + search(targetVolume, links[tempLinkIndex].NeighborLink.Position, agent.TargetPos);
        originVolume := agent.ActiveVolume;
        wayPoints := wayPoints + search(originVolume, agent.Position, links[tempLinkIndex].Position);
      }
    }

    /**
     * The first half of CalculateAStarPath: origin and target start as the
     * agent's volume, the origin's own box distance is measured, and the
     * scan over its links picks the target.  The target is the volume
     * Target names, and a chosen link is the one Selection names.
     */
    method ChooseTarget(agent: FlyingAgent, access: Access, closest: Closest)
        returns (tempLinkIndex: int, links: seq<NavigationSubLink>)
      requires agent.ActiveVolume != null && Measurable(agent.ActiveVolume)
      modifies this`originVolume, this`targetVolume
      ensures links == agent.ActiveVolume.Links && originVolume == agent.ActiveVolume
      ensures targetVolume == old(Target(agent.ActiveVolume, agent.TargetPos, access, closest))
      ensures tempLinkIndex == old(Selection(agent.ActiveVolume, agent.TargetPos, access, closest).0)
    {
      ghost var hs := Hops(agent.ActiveVolume.Links);
      ghost var k := Selection(agent.ActiveVolume, agent.TargetPos, access, closest).0;
      ghost var target := Target(agent.ActiveVolume, agent.TargetPos, access, closest);
      ghost var ds, ok := Distances(hs, agent.TargetPos, closest), Accesses(hs, access);
      HopsReadyIff(agent.ActiveVolume.Links);
      originVolume := agent.ActiveVolume;
      targetVolume := agent.ActiveVolume;
      tempLinkIndex := -1;
      var tempDistance := MaxFloat;
      var distance := BoxDistance(closest, originVolume.DetectionBox, agent.TargetPos);
      links := agent.ActiveVolume.Links;
      tempLinkIndex, tempDistance, distance := CalculateClosestVolumes(agent, tempLinkIndex, tempDistance, distance, links, access, closest, ds, ok);
      if 0 <= k {
        assert hs[k].volume == links[k].LinkedVolume;
      }
    }

    /**
     * Plans one agent: the agent gets a fresh path holding what wayPoints
     * held followed by the route from its position to its target, with the
     * cursor on the last waypoint, and wayPoints is cleared.
     */
    method CalculateAStarPath(agent: FlyingAgent, access: Access, closest: Closest, search: Search)
      requires agent.ActiveVolume != null && Plannable(agent.ActiveVolume, agent.TargetPos, access, closest)
      modifies this`originVolume, this`targetVolume, this`wayPoints, agent`activePath, agent`currentWayPointIndex
      ensures wayPoints == []
      ensures agent.activePath != null && fresh(agent.activePath)
      ensures agent.activePath.Waypoints[..]
           == old(wayPoints + Plan(agent.ActiveVolume, agent.Position, agent.TargetPos, access, closest, search))
      ensures agent.currentWayPointIndex == agent.activePath.Waypoints.Length - 1
      ensures originVolume == agent.ActiveVolume && targetVolume == old(Target(agent.ActiveVolume, agent.TargetPos, access, closest))
    {
      PlanLegs(agent.ActiveVolume, agent.Position, agent.TargetPos, access, closest, search);
      ghost var route := Plan(agent.ActiveVolume, agent.Position, agent.TargetPos, access, closest, search);
      ghost var k := Selection(agent.ActiveVolume, agent.TargetPos, access, closest).0;
      ghost var target := Target(agent.ActiveVolume, agent.TargetPos, access, closest);
      var tempLinkIndex, links := ChooseTarget(agent, access, closest);
      GenerateWaypoints(agent, tempLinkIndex, links, search);
      assert wayPoints == old(wayPoints) + route;
      var path := new NavigationPath(wayPoints);
      agent.SetPath(path);
      wayPoints := [];
    }

    /**
     * Plans every queued agent in one pass.  An agent that was not movable
     * becomes movable and leaves the queue at the index the loop then
     * advances past; an agent already movable stays queued.  The pass is
     * PlanPass; every planned agent holds a fresh path with its cursor on
     * the last waypoint, and the queued agents not planned keep their paths
     * and cursors.
     */
    method CalculateAllAgentPaths(access: Access, closest: Closest, search: Search)
        returns (ghost planned: seq<FlyingAgent>)
      requires Valid()
      requires forall a :: a in calculableAgents ==> a.ActiveVolume != null && Linked(a.ActiveVolume)
      modifies this`calculableAgents, this`movableAgents, this`originVolume, this`targetVolume, this`wayPoints
      modifies (set a | a in calculableAgents)`activePath, (set a | a in calculableAgents)`currentWayPointIndex
      ensures Valid()
      ensures (planned, calculableAgents, movableAgents) == PlanPass(old(calculableAgents), old(movableAgents), 0)
      ensures forall a :: a in planned ==> a in old(calculableAgents) && fresh(a.activePath)
      ensures forall j :: 0 <= j < |old(calculableAgents)| ==>
        var a := old(calculableAgents)[j];
        && (a in planned ==> a.activePath != null && a.currentWayPointIndex == a.activePath.Waypoints.Length - 1)
        && (a !in planned ==> a.activePath == old(a.activePath) && a.currentWayPointIndex == old(a.currentWayPointIndex))
    {
      ghost var pending0, movable0 := calculableAgents, movableAgents;
      ghost var paths, cs := Paths(pending0), Cursors(pending0);
      PlanPassMovable(pending0, movable0, 0);
      planned := [];
      assert [] + PlanPass(pending0, movable0, 0).0 == PlanPass(pending0, movable0, 0).0;
      if |calculableAgents| <= 0 {
        PlanPassDone(pending0, movable0, 0, planned, PlanPass(pending0, movable0, 0));
        return;
      }
      var i := 0;
      while i < |calculableAgents|
        invariant i <= |calculableAgents| + 1 && wayPoints == []
        invariant var r := PlanPass(calculableAgents, movableAgents, i);
          (planned + r.0, r.1, r.2) == PlanPass(pending0, movable0, 0)
        invariant forall a :: a in calculableAgents ==> a in pending0
        invariant forall a :: a in planned ==> a in pending0 && fresh(a.activePath)
        invariant Replanned(pending0, paths, cs, planned)
        decreases |calculableAgents| + 1 - i
      {
        var agent := calculableAgents[i];
        assert agent in pending0 && old(agent.ActiveVolume != null && Linked(agent.ActiveVolume));
        PlanPassStep(calculableAgents, movableAgents, i, planned, PlanPass(pending0, movable0, 0));
        PlanAgent(agent, access, closest, search, pending0, paths, cs, planned);
        planned := planned + [agent];
        i := i + 1;
      }
      PlanPassDone(calculableAgents, movableAgents, i, planned, PlanPass(pending0, movable0, 0));
    }

    /**
     * Ticks every movable agent in one pass; fin names the agents whose
     * tick finishes (on their last waypoint and within stoppingDistance of
     * it).  A finishing agent removes itself through RemoveAgentFromMovable
     * while the index still advances.  The pass is MovePass: each agent
     * ticked has moved by one tick from where it stood, and every other
     * movable agent is as it was.
     */
    method MoveAllAgents(step: (Float3, Float3) -> Float3, ghost fin: set<FlyingAgent>)
        returns (ghost ticked: seq<FlyingAgent>)
      requires Distinct(movableAgents)
      requires forall a :: a in movableAgents ==> a.Following() && (a in fin <==> a.AtGoal())
      modifies this`movableAgents
      modifies (set a | a in movableAgents)`currentWayPointIndex, (set a | a in movableAgents)`Position
      ensures (ticked, movableAgents) == MovePass(old(movableAgents), fin)
      ensures Distinct(movableAgents)
      ensures forall j :: 0 <= j < |old(movableAgents)| ==>
        var a := old(movableAgents)[j];
        && (a in ticked ==> a.Following() && a.TickedFrom(old(a.currentWayPointIndex), old(a.Position), step))
        && (a !in ticked ==> a.currentWayPointIndex == old(a.currentWayPointIndex) && a.Position == old(a.Position))
    {
      ghost var s0 := movableAgents;
      ghost var cs, ps := Cursors(s0), Positions(s0);
      ghost var total := MoveFrom(s0, fin, 0);
      MoveFromIsMovePass(s0, fin, 0);
      assert Ahead(s0, 0) == s0 && Passed(s0, 0) + MovePass(s0, fin).1 == MovePass(s0, fin).1;
      MovePassRemovesFinished(s0, fin);
      ticked := [];
      assert [] + total.0 == total.0;
      if |movableAgents| <= 0 {
        return;
      }
      var i := 0;
      while i < |movableAgents|
        invariant i <= |movableAgents| + 1 && Distinct(movableAgents)
        invariant var r := MoveFrom(movableAgents, fin, i); (ticked + r.0, r.1) == total
        invariant forall a :: a in movableAgents ==> a in s0
        invariant Moved(s0, cs, ps, ticked, step)
        decreases |movableAgents| + 1 - i
      {
        var agent := movableAgents[i];
        DistinctApart(ticked, MoveFrom(movableAgents, fin, i).0);
        ghost var k := IndexIn(s0, agent);
        assert agent !in ticked && agent.currentWayPointIndex == cs[k] && agent.Position == ps[k];
        MoveFromStep(movableAgents, fin, i, ticked, total);
        TickAgent(agent, step, fin, s0, cs, ps, ticked);
        ticked := ticked + [agent];
        i := i + 1;
      }
      assert ticked + [] == ticked;
    }

    /**
     * One turn of MoveAllAgents: agent ticks, and removes itself from the
     * movable list when it finishes; among the agents s, it joins those
     * that have ticked.
     */
    method TickAgent(agent: FlyingAgent, step: (Float3, Float3) -> Float3, ghost fin: set<FlyingAgent>,
                     ghost s: seq<FlyingAgent>, ghost cs: seq<int>, ghost ps: seq<Float3>, ghost ticked: seq<FlyingAgent>)
      requires agent.Following() && (agent in fin <==> agent.AtGoal())
      requires Distinct(s) && agent in s && agent !in ticked && Moved(s, cs, ps, ticked, step)
      modifies this`movableAgents, agent`currentWayPointIndex, agent`Position
      ensures movableAgents == if agent in fin then RemoveFirst(old(movableAgents), agent) else old(movableAgents)
      ensures Distinct(old(movableAgents)) ==> Distinct(movableAgents)
      ensures Moved(s, cs, ps, ticked + [agent], step)
    {
      var finished := agent.Move(step);
      if finished {
        RemoveAgentFromMovable(agent);
      }
    }

    /** One step of CalculateAllAgentPaths: plan agent, then make it movable if it was not. */
    method PlanAgent(agent: FlyingAgent, access: Access, closest: Closest, search: Search,
                     ghost s: seq<FlyingAgent>, ghost paths: seq<NavigationPath?>, ghost cs: seq<int>,
                     ghost planned: seq<FlyingAgent>)
      requires wayPoints == [] && agent.ActiveVolume != null && Linked(agent.ActiveVolume)
      requires Replanned(s, paths, cs, planned)
      modifies this`calculableAgents, this`movableAgents, this`originVolume, this`targetVolume, this`wayPoints
      modifies agent`activePath, agent`currentWayPointIndex
      ensures wayPoints == [] && agent.activePath != null && fresh(agent.activePath)
      ensures agent.currentWayPointIndex == agent.activePath.Waypoints.Length - 1
      ensures old(agent in movableAgents) ==> movableAgents == old(movableAgents) && calculableAgents == old(calculableAgents)
      ensures old(agent !in movableAgents) ==>
        movableAgents == old(movableAgents) + [agent] && calculableAgents == RemoveFirst(old(calculableAgents), agent)
      ensures forall a :: a in calculableAgents ==> a in old(calculableAgents)
      ensures Replanned(s, paths, cs, planned + [agent])
    {
      LinkedPlannable(agent.ActiveVolume, agent.TargetPos, access, closest);
      CalculateAStarPath(agent, access, closest, search);
      if agent !in movableAgents {
        movableAgents := movableAgents + [agent];
        calculableAgents := RemoveFirst(calculableAgents, agent);
      }
    }
  }
}
