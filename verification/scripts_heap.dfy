// Assets/Scripts/Heap.cs: a binary min-heap of ints stored in a fixed
// array.  Elements[0 .. Size) is the heap; slot i has children 2i + 1 and
// 2i + 2 and parent Parent(i).  Both sifts move a hole rather than
// swapping: the sifted element is held aside, values are shifted into the
// hole, and the element is written once at the end.

module ScriptsHeap {

  /** The parent slot of slot j > 0; the source computes it as (j - 1) >> 1. */
  function Parent(j: int): int
  {
    (j - 1) / 2
  }

  /** Min-heap order on the first n slots: no slot is smaller than its parent. */
  ghost predicate Ordered(s: seq<int>, n: int)
    requires 0 <= n <= |s|
  {
    forall j {:trigger Parent(j)} :: 0 < j < n ==> s[Parent(j)] <= s[j]
  }

  /** In a heap the root is no larger than any slot. */
  lemma {:induction false} RootMin(s: seq<int>, n: int, i: int)
    requires 0 <= n <= |s| && Ordered(s, n) && 0 <= i < n
    ensures s[0] <= s[i]
    decreases i
  {
    if 0 < i {
      RootMin(s, n, Parent(i));
    }
  }

  /** The root of a non-empty heap is a least element of its contents. */
  lemma RootIsMinimum(s: seq<int>, n: int)
    requires 0 < n <= |s| && Ordered(s, n)
    ensures s[0] in multiset(s[..n])
    ensures forall x :: x in multiset(s[..n]) ==> s[0] <= x
  {
    forall x | x in multiset(s[..n])
      ensures s[0] <= x
    {
      var i :| 0 <= i < n && s[..n][i] == x;
      RootMin(s, n, i);
    }
  }

  class Heap {
    var Elements: array<int>
    var Size: int

    /** The size is within the array and the first Size slots are in heap order. */
    ghost predicate Valid()
      reads this, Elements
    {
      0 <= Size <= Elements.Length && Ordered(Elements[..], Size)
    }

    /** The multiset of values the heap holds. */
    ghost function Contents(): multiset<int>
      reads this, Elements
      requires 0 <= Size <= Elements.Length
    {
      multiset(Elements[..Size])
    }

    /** An empty heap over an array of the given capacity. */
    constructor(size: int)
      requires 0 <= size
      ensures Valid() && Size == 0 && Contents() == multiset{}
      ensures fresh(Elements) && Elements.Length == size
    {
      Elements := new int[size];
      Size := 0;
    }

    /** Slot 0, which in a non-empty heap is a least element; nothing changes. */
    method Peek() returns (r: int)
      requires Valid() && 0 < Elements.Length
      ensures 0 < Size ==> r in Contents() && forall x :: x in Contents() ==> r <= x
    {
      r := Elements[0];
      if 0 < Size {
        RootIsMinimum(Elements[..], Size);
      }
    }

    /** Writes element into the first free slot, sifts it up, and counts it. */
    method Add(element: int)
      requires Valid() && Size < Elements.Length
      modifies this`Size, Elements
      ensures Valid() && Size == old(Size) + 1
      ensures Contents() == old(Contents()) + multiset{element}
      ensures forall k :: Size <= k < Elements.Length ==> Elements[k] == old(Elements[k])
    {
      ghost var before := Elements[..];
      AddSlot(before, Size, element);
      Elements[Size] := element;
      assert Elements[..] == before[Size := element];
      ReCalculateUp(Size);
      Size := Size + 1;
    }

    /**
     * Takes the root, moves the last element into slot 0, shrinks the heap
     * and sifts slot 0 down.
     */
    method Pop() returns (result: int)
      requires Valid() && 0 < Size
      modifies this`Size, Elements
      ensures Valid() && Size == old(Size) - 1
      ensures result in old(Contents()) && forall x :: x in old(Contents()) ==> result <= x
      ensures Contents() == old(Contents()) - multiset{result}
      ensures forall k :: old(Size) <= k < Elements.Length ==> Elements[k] == old(Elements[k])
    {
      ghost var before := Elements[..];
      ghost var n := Size;
      RootIsMinimum(before, n);
      PopSlot(before, n);
      result := Elements[0];
      Elements[0] := Elements[Size - 1];
      assert Elements[..] == before[0 := before[n - 1]];
      Size := Size - 1;
      ReCalculateDown(0);
    }

    /**
     * Sifts the element in slot index down within Elements[0 .. Size).  The
     * hole is moved to its smaller child while that child is smaller than
     * the held element; the element is written where the hole stops.  The
     * slots may break heap order only between index and its children, and
     * index's parent is no larger than index's children.
     */
    method ReCalculateDown(index: int)
      requires 0 <= Size <= Elements.Length && 0 <= index < Elements.Length
      requires DownHole(Elements[..], Size, index, Elements[index])
      modifies Elements
      ensures Ordered(Elements[..], Size)
      ensures multiset(Elements[..Size]) == old(multiset(Elements[..Size]))
      ensures Elements[Size..] == old(Elements[Size..])
    {
      ghost var m := multiset(Elements[..Size]);
      ghost var tail := Elements[Size..];
      ghost var n := Size;
      var i := index;
      var element := Elements[i];
      while true
        invariant index <= i < Elements.Length && (i < n || i == index)
        invariant DownHole(Elements[..], n, i, element)
        invariant i < n ==> multiset(Elements[..n][i := element]) == m
        invariant i == index ==> Elements[i] == element
        invariant n <= i ==> multiset(Elements[..n]) == m
        invariant Elements[n..] == tail
        decreases Elements.Length - i
      {
        var smallestIndex := SmallestIndex(i, element);
        if smallestIndex == i {
          DownDone(Elements[..], n, i, element);
          break;
        }

        ghost var a := Elements[..];
        DownStep(a, n, i, element, smallestIndex);
        UpdatePrefix(a, n, i, a[smallestIndex]);
        Elements[i] := Elements[smallestIndex];
        assert Elements[..] == a[i := a[smallestIndex]];
        i := smallestIndex;
      }
      ghost var a := Elements[..];
      UpdatePrefix(a, n, i, element);
      Elements[i] := element;
      assert Elements[..] == a[i := element];
    }

    /**
     * The comparisons of one sift-down round: the child of index within
     * the heap holding the least value below element, the left one on a
     * tie, or index itself when no child is smaller.  Nothing changes.
     */
    method SmallestIndex(index: int, element: int) returns (smallestIndex: int)
      requires 0 <= Size <= Elements.Length && 0 <= index
      ensures smallestIndex == index ==>
        (2 * index + 1 < Size ==> element <= Elements[2 * index + 1])
        && (2 * index + 2 < Size ==> element <= Elements[2 * index + 2])
      ensures smallestIndex != index ==>
        (smallestIndex == 2 * index + 1 || smallestIndex == 2 * index + 2) && smallestIndex < Size
        && Elements[smallestIndex] < element
        && (2 * index + 1 < Size ==> Elements[smallestIndex] <= Elements[2 * index + 1])
        && (2 * index + 2 < Size ==> Elements[smallestIndex] <= Elements[2 * index + 2])
    {
      var leftChildIndex := 2 * index + 1;
      var rightChildIndex := leftChildIndex + 1;
      smallestIndex := index;
      var smallest := element;

      if leftChildIndex < Size && Elements[leftChildIndex] < smallest {
        smallestIndex, smallest := leftChildIndex, Elements[leftChildIndex];
      }
      if rightChildIndex < Size && Elements[rightChildIndex] < smallest {
        smallestIndex, smallest := rightChildIndex, Elements[rightChildIndex];
      }
    }

    /**
     * Sifts the element in slot index up: Elements[0 .. index) is a heap,
     * and the parent is shifted into the hole while the held element is
     * smaller than it.  Afterwards Elements[0 .. index] is a heap with the
     * same contents, and no other slot changes.
     */
    method ReCalculateUp(index: int)
      requires 0 <= index < Elements.Length && Ordered(Elements[..], index)
      modifies Elements
      ensures Ordered(Elements[..], index + 1)
      ensures multiset(Elements[..index + 1]) == old(multiset(Elements[..index + 1]))
      ensures Elements[index + 1..] == old(Elements[index + 1..])
    {
      ghost var n := index + 1;
      ghost var m := multiset(Elements[..n]);
      ghost var tail := Elements[n..];
      var i := index;
      var element := Elements[i];
      UpStart(Elements[..], n);
      assert Elements[..n][i := element] == Elements[..n];
      while i > 0
        invariant 0 <= i <= index
        invariant UpHole(Elements[..], n, i, element)
        invariant multiset(Elements[..n][i := element]) == m
        invariant Elements[n..] == tail
      {
        var parentIndex := Parent(i);
        if element >= Elements[parentIndex] {
          break;
        }

        ghost var a := Elements[..];
        UpStep(a, n, i, element);
        UpdatePrefix(a, n, i, a[parentIndex]);
        Elements[i] := Elements[parentIndex];
        assert Elements[..] == a[i := a[parentIndex]];
        i := parentIndex;
      }
      ghost var a := Elements[..];
      UpDone(a, n, i, element);
      UpdatePrefix(a, n, i, element);
      Elements[i] := element;
      assert Elements[..] == a[i := element];
    }
  }

  /** Swapping two slots keeps the contents. */
  lemma SwapMultiset(s: seq<int>, i: int, k: int)
    requires 0 <= i < |s| && 0 <= k < |s|
    ensures multiset(s[i := s[k]][k := s[i]]) == multiset(s)
  {
  }

  /** Writing slot i and then splitting at n, against splitting first. */
  lemma UpdatePrefix(a: seq<int>, n: int, i: int, v: int)
    requires 0 <= n <= |a| && 0 <= i < |a|
    ensures i < n ==> a[i := v][..n] == a[..n][i := v]
    ensures n <= i ==> a[i := v][..n] == a[..n]
    ensures i < n || a[i] == v ==> a[i := v][n..] == a[n..]
  {
  }

  /** Writing a new value just past a heap keeps the heap, and the n + 1 slots hold one copy more of it. */
  lemma AddSlot(s: seq<int>, n: int, v: int)
    requires 0 <= n < |s| && Ordered(s, n)
    ensures Ordered(s[n := v], n)
    ensures multiset(s[n := v][..n + 1]) == multiset(s[..n]) + multiset{v}
  {
    assert s[n := v][..n + 1] == s[..n] + [v];
  }

  /**
   * Moving the last of n heap slots into slot 0 leaves a sift-down hole
   * at 0 over n - 1 slots, holding the contents without the root.
   */
  lemma PopSlot(s: seq<int>, n: int)
    requires 0 < n <= |s| && Ordered(s, n)
    ensures DownHole(s[0 := s[n - 1]], n - 1, 0, s[n - 1])
    ensures multiset(s[0 := s[n - 1]][..n - 1]) == multiset(s[..n]) - multiset{s[0]}
  {
    if 1 < n {
      assert s[..n] == [s[0]] + s[1..n - 1] + [s[n - 1]];
      assert s[0 := s[n - 1]][..n - 1] == [s[n - 1]] + s[1..n - 1];
    }
  }

  /**
   * The sift-up hole at i below n: order holds except between i and its
   * parent, the held element e is no larger than i's children, and i's
   * parent is no larger than i's children.
   */
  ghost predicate UpHole(a: seq<int>, n: int, i: int, e: int)
    requires 0 <= i < n <= |a|
  {
    && (forall j {:trigger Parent(j)} :: 0 < j < n && j != i && Parent(j) != i ==> a[Parent(j)] <= a[j])
    && (forall j {:trigger Parent(j)} :: 0 < j < n && Parent(j) == i ==> e <= a[j])
    && (0 < i ==> forall j {:trigger Parent(j)} :: 0 < j < n && Parent(j) == i ==> a[Parent(i)] <= a[j])
  }

  /** A heap of n - 1 slots with a new last slot is a hole at n - 1 holding that slot's value. */
  lemma UpStart(a: seq<int>, n: int)
    requires 0 < n <= |a| && Ordered(a, n - 1)
    ensures UpHole(a, n, n - 1, a[n - 1])
  {
  }

  /** Shifting the parent into the hole moves the hole up and keeps the contents. */
  lemma UpStep(a: seq<int>, n: int, i: int, e: int)
    requires 0 < i < n <= |a| && UpHole(a, n, i, e) && e < a[Parent(i)]
    ensures UpHole(a[i := a[Parent(i)]], n, Parent(i), e)
    ensures multiset(a[i := a[Parent(i)]][..n][Parent(i) := e]) == multiset(a[..n][i := e])
  {
    var q := Parent(i);
    var b := a[i := a[q]];
    forall j | 0 < j < n && j != q && Parent(j) != q
      ensures b[Parent(j)] <= b[j]
    {
    }
    var s := a[..n][i := e];
    assert b[..n][q := e] == s[i := s[q]][q := s[i]];
    SwapMultiset(s, i, q);
  }

  /** Writing the element into a hole whose parent is no larger leaves a heap. */
  lemma UpDone(a: seq<int>, n: int, i: int, e: int)
    requires 0 <= i < n <= |a| && UpHole(a, n, i, e) && (i == 0 || a[Parent(i)] <= e)
    ensures Ordered(a[i := e], n)
  {
  }

  /**
   * The sift-down hole at i with the held element e: order holds except
   * between i and its children, i's parent is no larger than i's children,
   * and no larger than e when i is a heap slot.
   */
  ghost predicate DownHole(a: seq<int>, n: int, i: int, e: int)
    requires 0 <= n <= |a| && 0 <= i < |a|
  {
    && (forall j {:trigger Parent(j)} :: 0 < j < n && Parent(j) != i ==> a[Parent(j)] <= a[j])
    && (0 < i ==> forall j {:trigger Parent(j)} :: 0 < j < n && Parent(j) == i ==> a[Parent(i)] <= a[j])
    && (0 < i < n ==> a[Parent(i)] <= e)
  }

  /** Shifting the smaller child c, smaller than e, into the hole moves the hole down and keeps the contents. */
  lemma DownStep(a: seq<int>, n: int, i: int, e: int, c: int)
    requires 0 <= i < n <= |a| && DownHole(a, n, i, e)
    requires (c == 2 * i + 1 || c == 2 * i + 2) && c < n && a[c] < e
    requires 2 * i + 1 < n ==> a[c] <= a[2 * i + 1]
    requires 2 * i + 2 < n ==> a[c] <= a[2 * i + 2]
    ensures DownHole(a[i := a[c]], n, c, e)
    ensures multiset(a[i := a[c]][..n][c := e]) == multiset(a[..n][i := e])
  {
    assert Parent(c) == i;
    forall k | 0 < k < n && Parent(k) == i
      ensures a[c] <= a[k]
    {
      Children(i, k);
    }
    DownStepOrder(a, n, i, e, c);
    var s := a[..n][i := e];
    assert a[i := a[c]][..n][c := e] == s[i := s[c]][c := s[i]];
    SwapMultiset(s, i, c);
  }

  /** The order half of DownStep, given that c is a least child of i. */
  lemma DownStepOrder(a: seq<int>, n: int, i: int, e: int, c: int)
    requires 0 <= i < n <= |a| && DownHole(a, n, i, e)
    requires 0 < c < n && Parent(c) == i && a[c] < e
    requires forall k :: 0 < k < n && Parent(k) == i ==> a[c] <= a[k]
    ensures DownHole(a[i := a[c]], n, c, e)
  {
    var b := a[i := a[c]];
    forall j | 0 < j < n && Parent(j) != c
      ensures b[Parent(j)] <= b[j]
    {
    }
    forall j | 0 < j < n && Parent(j) == c
      ensures b[Parent(c)] <= b[j]
    {
    }
  }

  /** Writing the element into a hole whose children are no smaller leaves a heap. */
  lemma DownDone(a: seq<int>, n: int, i: int, e: int)
    requires 0 <= n <= |a| && 0 <= i < |a| && DownHole(a, n, i, e)
    requires 2 * i + 1 < n ==> e <= a[2 * i + 1]
    requires 2 * i + 2 < n ==> e <= a[2 * i + 2]
    ensures Ordered(a[i := e], n)
  {
    forall k | 0 < k < n && Parent(k) == i
      ensures e <= a[k]
    {
      Children(i, k);
    }
  }

  /** The slots whose parent is i are 2i + 1 and 2i + 2. */
  lemma Children(i: int, k: int)
    requires 0 < k && Parent(k) == i
    ensures k == 2 * i + 1 || k == 2 * i + 2
  {
  }

  // ---------------------------------------------------------------------
  // The sift-down as the source writes it.  Its comparisons start from
  // Elements[index] rather than from the held element, and after the
  // first shift that slot holds a copy of the promoted child, which no
  // child of it undercuts in a heap: the element sinks at most one level.

  /** The loop of ReCalculateDown as written, on the array's contents a, with the held element e. */
  function SiftDownAsWritten(a: seq<int>, n: int, i: int, e: int): (r: seq<int>)
    requires 0 <= n <= |a| && 0 <= i < |a|
    ensures |r| == |a|
    decreases |a| - i
  {
    var left := 2 * i + 1;
    var right := left + 1;
    var s1 := if left < n && a[left] < a[i] then left else i;
    var s2 := if right < n && a[right] < a[s1] then right else s1;
    if s2 == i then a[i := e] else SiftDownAsWritten(a[i := a[s2]], n, s2, e)
  }

  /** Pop as written, on the array's contents a and size n: the result and the new contents. */
  function PopAsWritten(a: seq<int>, n: int): (r: (int, seq<int>))
    requires 0 < n <= |a|
    ensures r.0 == a[0] && |r.1| == |a|
  {
    var b := a[0 := a[n - 1]];
    (a[0], SiftDownAsWritten(b, n - 1, 0, b[0]))
  }

  /** The first pop of the heap 1 .. 7 as written: 7 comes to rest in slot 1, above 4 and 5. */
  lemma FirstPopAsWritten()
    ensures PopAsWritten([1, 2, 3, 4, 5, 6, 7], 7) == (1, [2, 7, 3, 4, 5, 6, 7])
  {
    assert [1, 2, 3, 4, 5, 6, 7][0 := 7] == [7, 2, 3, 4, 5, 6, 7];
    assert [7, 2, 3, 4, 5, 6, 7][0 := 2] == [2, 2, 3, 4, 5, 6, 7];
    assert [2, 2, 3, 4, 5, 6, 7][1 := 7] == [2, 7, 3, 4, 5, 6, 7];
  }

  /** The second pop goes on from the broken heap. */
  lemma SecondPopAsWritten()
    ensures PopAsWritten([2, 7, 3, 4, 5, 6, 7], 6) == (2, [3, 7, 6, 4, 5, 6, 7])
  {
    assert [2, 7, 3, 4, 5, 6, 7][0 := 6] == [6, 7, 3, 4, 5, 6, 7];
    assert [6, 7, 3, 4, 5, 6, 7][0 := 3] == [3, 7, 3, 4, 5, 6, 7];
    assert [3, 7, 3, 4, 5, 6, 7][2 := 6] == [3, 7, 6, 4, 5, 6, 7];
  }

  /** The third pop leaves 5 at the root with 4 still held in slot 3. */
  lemma ThirdPopAsWritten()
    ensures PopAsWritten([3, 7, 6, 4, 5, 6, 7], 5) == (3, [5, 7, 6, 4, 5, 6, 7])
  {
    assert [3, 7, 6, 4, 5, 6, 7][0 := 5] == [5, 7, 6, 4, 5, 6, 7];
    assert [5, 7, 6, 4, 5, 6, 7][0 := 5] == [5, 7, 6, 4, 5, 6, 7];
  }

  /**
   * Popping the heap 1 .. 7 as written leaves 7 above its children 4 and
   * 5, and the fourth pop returns 5 while 4 is still held.
   */
  lemma PopAsWrittenBreaksOrder()
    ensures Ordered([1, 2, 3, 4, 5, 6, 7], 7)
    ensures !Ordered(PopAsWritten([1, 2, 3, 4, 5, 6, 7], 7).1, 6)
    ensures var p1 := PopAsWritten([1, 2, 3, 4, 5, 6, 7], 7);
            var p2 := PopAsWritten(p1.1, 6);
            var p3 := PopAsWritten(p2.1, 5);
            var p4 := PopAsWritten(p3.1, 4);
            p4.0 == 5 && 4 in multiset(p3.1[..4])
  {
    var s := seq(7, k => k + 1);
    assert s == [1, 2, 3, 4, 5, 6, 7];
    assert Ordered(s, 7) by {
      forall j | 0 < j < 7
        ensures s[Parent(j)] <= s[j]
      {
      }
    }
    FirstPopAsWritten();
    var b := [2, 7, 3, 4, 5, 6, 7];
    assert b[Parent(3)] > b[3];
    SecondPopAsWritten();
    ThirdPopAsWritten();
    assert [5, 7, 6, 4, 5, 6, 7][..4] == [5, 7, 6, 4];
  }
}
