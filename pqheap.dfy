/** A priority queue kept as a binary min-heap in an array: the children of
    slot i are slots 2i+1 and 2i+2, and no child has a smaller priority than
    its parent. */
module Heap {
  import opened DataPoints

  /** C++ integer division by two, which truncates toward zero (Dafny's `/`
      rounds toward negative infinity for a negative dividend). */
  function TruncHalf(x: int): (r: int)
    ensures 0 <= x ==> 0 <= 2 * r <= x < 2 * r + 2
    ensures x < 0 ==> x <= 2 * r < x + 2 && r <= 0
  {
    if x >= 0 then x / 2 else -((-x) / 2)
  }

  /** A child is ordered after its parent. */
  ghost predicate ParentOrdered(s: seq<DataPoint>, i: int)
    requires 0 < i < |s|
  {
    s[PQHeap.ParentIndex(i)].priority <= s[i].priority
  }

  /** The min-heap property, over the existing children only. */
  ghost predicate IsHeap(s: seq<DataPoint>) {
    forall i :: 0 < i < |s| ==> ParentOrdered(s, i)
  }

  /** The heap property during the sift-up of slot `c`: every edge holds
      except the one above `c`, and the parent of `c` is no larger than
      the children of `c`. */
  ghost predicate HeapExceptUp(s: seq<DataPoint>, c: int) {
    (forall i :: 0 < i < |s| && i != c ==> ParentOrdered(s, i)) &&
    (0 < c < |s| ==>
      forall j :: 0 < j < |s| && PQHeap.ParentIndex(j) == c ==>
        s[PQHeap.ParentIndex(c)].priority <= s[j].priority)
  }

  /** The heap property during the sift-down of slot `c`: every edge holds
      except the ones below `c`, and the parent of `c` is no larger than
      the children of `c`. */
  ghost predicate HeapExceptDown(s: seq<DataPoint>, c: int) {
    (forall i :: 0 < i < |s| && PQHeap.ParentIndex(i) != c ==> ParentOrdered(s, i)) &&
    (0 < c < |s| ==>
      forall j :: 0 < j < |s| && PQHeap.ParentIndex(j) == c ==>
        s[PQHeap.ParentIndex(c)].priority <= s[j].priority)
  }

  /** The root of a heap has the minimum priority. */
  lemma {:induction false} HeapRootIsMinimum(s: seq<DataPoint>, j: int)
    requires IsHeap(s) && 0 <= j < |s|
    ensures s[0].priority <= s[j].priority
    decreases j
  {
    if j > 0 {
      assert ParentOrdered(s, j);
      HeapRootIsMinimum(s, PQHeap.ParentIndex(j));
    }
  }

  lemma HeapRootIsMinimumAll(s: seq<DataPoint>)
    requires IsHeap(s) && s != []
    ensures AllAtLeast(s, s[0].priority)
  {
    forall j | 0 <= j < |s| ensures s[0].priority <= s[j].priority {
      HeapRootIsMinimum(s, j);
    }
  }

  /** One swap of the sift-up: the element at `c` moves above its parent. */
  lemma SiftUpStep(s: seq<DataPoint>, c: int)
    requires 0 < c < |s| && HeapExceptUp(s, c)
    requires s[c].priority < s[PQHeap.ParentIndex(c)].priority
    ensures var p := PQHeap.ParentIndex(c);
            HeapExceptUp(s[c := s[p]][p := s[c]], p)
  {
    var p := PQHeap.ParentIndex(c);
    var t := s[c := s[p]][p := s[c]];
    forall i | 0 < i < |t| && i != p ensures ParentOrdered(t, i) {
      var q := PQHeap.ParentIndex(i);
      if i == c {
      } else if q == p {
        assert ParentOrdered(s, i);
      } else if q == c {
        assert t[q] == s[p];
      } else {
        assert ParentOrdered(s, i);
        assert q != p && q != c && t[q] == s[q];
      }
    }
    if 0 < p {
      var g := PQHeap.ParentIndex(p);
      assert ParentOrdered(s, p);
      forall j | 0 < j < |t| && PQHeap.ParentIndex(j) == p ensures t[g].priority <= t[j].priority {
        if j != c {
          assert ParentOrdered(s, j);
        }
      }
    }
  }

  /** One swap of the sift-down: the element at `c` moves below its
      smaller child `m`. */
  lemma SiftDownStep(s: seq<DataPoint>, c: int, m: int)
    requires 0 <= c < m < |s| && PQHeap.ParentIndex(m) == c && HeapExceptDown(s, c)
    requires forall j :: 0 < j < |s| && PQHeap.ParentIndex(j) == c ==> s[m].priority <= s[j].priority
    requires s[m].priority < s[c].priority
    ensures HeapExceptDown(s[c := s[m]][m := s[c]], m)
  {
    var t := s[c := s[m]][m := s[c]];
    forall i | 0 < i < |t| && PQHeap.ParentIndex(i) != m ensures ParentOrdered(t, i) {
      var q := PQHeap.ParentIndex(i);
      if q == c {
      } else if i == c {
        assert 0 < c;
      } else {
        assert ParentOrdered(s, i);
        assert i != m;
      }
    }
    forall j | 0 < j < |t| && PQHeap.ParentIndex(j) == m ensures t[c].priority <= t[j].priority {
      assert ParentOrdered(s, j);
    }
  }

  /** The sift-up ends when the element reaches the root or its parent is
      no larger. */
  lemma SiftUpDone(s: seq<DataPoint>, c: int)
    requires 0 <= c < |s| && HeapExceptUp(s, c)
    requires c == 0 || s[PQHeap.ParentIndex(c)].priority <= s[c].priority
    ensures IsHeap(s)
  {
    forall i | 0 < i < |s| ensures ParentOrdered(s, i) {
      if i == c {
        assert s[PQHeap.ParentIndex(c)].priority <= s[c].priority;
      }
    }
  }

  /** The sift-down ends when no child of the element is smaller. */
  lemma SiftDownDone(s: seq<DataPoint>, c: int)
    requires HeapExceptDown(s, c)
    requires forall j :: 0 < j < |s| && PQHeap.ParentIndex(j) == c ==> s[c].priority <= s[j].priority
    ensures IsHeap(s)
  {
    forall i | 0 < i < |s| ensures ParentOrdered(s, i) {
      if PQHeap.ParentIndex(i) == c {
        assert s[c].priority <= s[i].priority;
      }
    }
  }

  /** The sift-down also ends when the element has no filled child. */
  lemma SiftDownExit(s: seq<DataPoint>, c: int)
    requires 0 <= c && HeapExceptDown(s, c)
    requires 2 * c + 1 < |s| ==> s[c].priority <= s[2 * c + 1].priority
    requires 2 * c + 2 < |s| ==> s[c].priority <= s[2 * c + 2].priority
    ensures IsHeap(s)
  {
    forall j | 0 < j < |s| && PQHeap.ParentIndex(j) == c ensures s[c].priority <= s[j].priority {
      assert j == 2 * c + 1 || j == 2 * c + 2;
    }
    SiftDownDone(s, c);
  }

  /** Appending to a heap leaves only the new edge to repair. */
  lemma AppendToHeap(s: seq<DataPoint>, x: DataPoint)
    requires IsHeap(s)
    ensures HeapExceptUp(s + [x], |s|)
  {
    var t := s + [x];
    forall i | 0 < i < |t| && i != |s| ensures ParentOrdered(t, i) {
      assert ParentOrdered(s, i);
    }
  }

  /** The buffer after `Dequeue` moves the last element to the root and
      shrinks the fill count. */
  function RootReplaced(s: seq<DataPoint>): seq<DataPoint>
    requires s != []
  {
    s[0 := s[|s| - 1]][..|s| - 1]
  }

  /** Replacing the root by the last element removes exactly the root, and
      leaves only the edges below the root to repair. */
  lemma RootReplacedSpec(s: seq<DataPoint>)
    requires s != []
    ensures |RootReplaced(s)| == |s| - 1
    ensures multiset(RootReplaced(s)) == multiset(s) - multiset{s[0]}
    ensures IsHeap(s) ==> HeapExceptDown(RootReplaced(s), 0)
  {
    var t := RootReplaced(s);
    var n := |s| - 1;
    if n > 0 {
      assert s == [s[0]] + s[1..n] + [s[n]];
      assert t == [s[n]] + s[1..n];
    } else {
      assert s == [s[0]];
    }
    if IsHeap(s) {
      forall i | 0 < i < |t| && PQHeap.ParentIndex(i) != 0 ensures ParentOrdered(t, i) {
        assert ParentOrdered(s, i);
      }
    }
  }

  /** A swap of two slots inside a prefix is a swap of the prefix. */
  lemma SwapInPrefix(s: seq<DataPoint>, m: int, i: int, j: int)
    requires 0 <= i < m <= |s| && 0 <= j < m
    ensures s[i := s[j]][j := s[i]][..m] == s[..m][i := s[j]][j := s[i]]
  {
  }

  /** Moving the last filled slot to the root, seen through the shrunk prefix. */
  lemma RootWriteInPrefix(s: seq<DataPoint>, n: int)
    requires 0 < n <= |s|
    ensures s[0 := s[n - 1]][..n - 1] == RootReplaced(s[..n])
  {
  }

  /** A swap of two slots keeps the stored multiset. */
  lemma SwapKeepsMultiset(s: seq<DataPoint>, i: int, j: int)
    requires 0 <= i < |s| && 0 <= j < |s|
    ensures multiset(s[i := s[j]][j := s[i]]) == multiset(s)
  {
  }

  /** The variables of the sift-down loop of `dequeue` as the source writes
      it: the buffer, `parentSpot` and `childSpot`. */
  datatype SiftState = SiftState(elems: seq<DataPoint>, parentSpot: int, childSpot: int)

  /** `getLeftChildIndex` and `getRightChildIndex` for the fill count `n`:
      the slot `c`, or -1 when `c` is not filled. */
  function FilledOrNone(n: int, c: int): int {
    if c >= n then -1 else c
  }

  /** The loop guard of `dequeue` as written: it asks for a left child of
      `childSpot`, which the body changes only when it swaps. */
  predicate AsWrittenGuard(st: SiftState, n: int) {
    FilledOrNone(n, 2 * st.childSpot + 1) != -1
  }

  /** One pass of the body of `dequeue`'s loop as written, with fill count
      `n` and the moving element in slot `bubbler`. The reads happen in the
      source's order: the parent, the left child, the right child only when
      `||` does not stop at the left, both children again in
      `getSmallerChildIndex`, and `bubbler` only after the parent slot has
      been overwritten. Reading a slot outside the buffer, as the index -1
      of a missing child does, is an `IndexOutOfRange` error. */
  function AsWrittenSiftPass(st: SiftState, n: int, bubbler: int): (r: Result<SiftState>)
    // at a slot without two filled children, some read uses the index -1
    ensures 0 <= st.parentSpot && n <= 2 * st.parentSpot + 2 ==> r == Err(IndexOutOfRange)
    // with both children filled and every slot in the buffer, nothing fails
    ensures 0 <= st.parentSpot && 2 * st.parentSpot + 2 < n <= |st.elems| && 0 <= bubbler < |st.elems| ==> r.Ok?
    // a pass that stays put changes nothing, and happens exactly when no child is smaller
    ensures r.Ok? && r.value.parentSpot == st.parentSpot ==>
              r.value == st && 0 <= st.parentSpot && 2 * st.parentSpot + 2 < |st.elems| &&
              st.elems[st.parentSpot].priority <= st.elems[2 * st.parentSpot + 1].priority &&
              st.elems[st.parentSpot].priority <= st.elems[2 * st.parentSpot + 2].priority
    // otherwise both spots move to the smaller, strictly smaller child, whose
    // record goes up, and the slot left behind gets what `bubbler` then holds
    ensures r.Ok? && r.value.parentSpot != st.parentSpot ==>
              var p := st.parentSpot;
              var c := r.value.parentSpot;
              var s := st.elems;
              (c == 2 * p + 1 || c == 2 * p + 2) && 0 <= p && c < n && r.value.childSpot == c &&
              2 * p + 2 < |s| && 0 <= bubbler < |s| &&
              s[c].priority < s[p].priority &&
              s[c].priority <= s[2 * p + 1].priority && s[c].priority <= s[2 * p + 2].priority &&
              |r.value.elems| == |s| && r.value.elems[p] == s[c] &&
              r.value.elems[c] == (if bubbler == p then s[c] else s[bubbler])
  {
    var s := st.elems;
    var p := st.parentSpot;
    var left := FilledOrNone(n, 2 * p + 1);
    var right := FilledOrNone(n, 2 * p + 2);
    if !(0 <= p < |s| && 0 <= left < |s|) then Err(IndexOutOfRange)
    else if s[p].priority <= s[left].priority && !(0 <= right < |s|) then Err(IndexOutOfRange)
    else if s[p].priority <= s[left].priority && s[p].priority <= s[right].priority then Ok(st)
    else if !(0 <= right < |s|) then Err(IndexOutOfRange)
    else
      var c := if s[left].priority < s[right].priority then left else right;
      var t := s[p := s[c]];
      if !(0 <= bubbler < |t|) then Err(IndexOutOfRange)
      else Ok(SiftState(t[c := t[bubbler]], c, c))
  }

  /** As written, once the moving element is no larger than both of its
      children the pass changes nothing and the guard still holds, so the
      loop of `dequeue` never ends. */
  lemma AsWrittenSiftStalls(st: SiftState, n: int, bubbler: int)
    requires AsWrittenGuard(st, n) && st.parentSpot == st.childSpot
    requires n <= |st.elems| && 0 <= st.parentSpot
    requires 2 * st.parentSpot + 2 < n
    requires st.elems[st.parentSpot].priority <= st.elems[2 * st.parentSpot + 1].priority
    requires st.elems[st.parentSpot].priority <= st.elems[2 * st.parentSpot + 2].priority
    ensures AsWrittenSiftPass(st, n, bubbler) == Ok(st)
    ensures AsWrittenGuard(AsWrittenSiftPass(st, n, bubbler).value, n)
  {
  }

  /** Dequeuing from the heap with priorities 1, 2, 2: the last element
      overwrites the root, and from then on the loop repeats the same state
      forever. */
  lemma AsWrittenDequeueNeverEnds()
    ensures var s := [DataPoint("", 1), DataPoint("", 2), DataPoint("", 2)];
            var st := SiftState(s[0 := s[2]], 0, 0);
            IsHeap(s) && AsWrittenGuard(st, 3) && AsWrittenSiftPass(st, 3, 2) == Ok(st)
  {
    var s := [DataPoint("", 1), DataPoint("", 2), DataPoint("", 2)];
    assert IsHeap(s) by {
      assert PQHeap.ParentIndex(1) == 0 && PQHeap.ParentIndex(2) == 0;
    }
    var st := SiftState(s[0 := s[2]], 0, 0);
    AsWrittenSiftStalls(st, 3, 2);
  }

  /** Dequeuing from the heap with priorities 1, 2: after the root is
      overwritten it is not larger than its left child, so the right
      child's index -1 is read. */
  lemma AsWrittenDequeueReadsOutside()
    ensures var s := [DataPoint("", 1), DataPoint("", 2)];
            IsHeap(s) && AsWrittenSiftPass(SiftState(s[0 := s[1]], 0, 0), 2, 1) == Err(IndexOutOfRange)
  {
    var s := [DataPoint("", 1), DataPoint("", 2)];
    assert IsHeap(s) by {
      assert PQHeap.ParentIndex(1) == 0;
    }
  }

  /** The slots `validateInternalState` reads at index `i` of the buffer
      `s` with `n` filled slots, in the source's order up to the first read
      outside the buffer: the slot, its left child (-1 when missing), and the
      right child (-1 when missing) only when `||` does not stop at the
      left child. */
  function AsWrittenValidateReads(s: seq<DataPoint>, n: int, i: int): (r: set<int>)
    ensures i in r
    ensures 0 <= i < |s| ==> FilledOrNone(n, 2 * i + 1) in r
    // at a leaf, the left child's -1 is read
    ensures 0 <= i < |s| && n <= 2 * i + 1 ==> -1 in r
    // with a left child, the right child's -1 is read exactly when it is
    // missing and the left child does not stop the check
    ensures 0 <= i < |s| && 2 * i + 1 < n <= |s| ==>
              (-1 in r <==> n <= 2 * i + 2 && s[i].priority <= s[2 * i + 1].priority)
  {
    var left := FilledOrNone(n, 2 * i + 1);
    if !(0 <= i < |s|) then {i}
    else if !(0 <= left < |s|) || s[left].priority < s[i].priority then {i, left}
    else {i, left, FilledOrNone(n, 2 * i + 2)}
  }

  /** At the last index of every non-empty heap, a leaf, the check as
      written reads slot -1. */
  lemma AsWrittenValidateReadsOutside(s: seq<DataPoint>, n: int)
    requires 1 <= n <= |s|
    ensures -1 in AsWrittenValidateReads(s, n, n - 1)
  {
  }

  class PQHeap {
    var elements: array<DataPoint>
    var numFilled: nat
    var numAllocated: nat
    ghost var Repr: set<object>

    /** The representation: the buffer belongs to this queue and its length
        is the recorded capacity. */
    ghost predicate Wellformed()
      reads this, Repr
    {
      Repr == {this, elements} && numAllocated == elements.Length
    }

    /** A free slot always remains. */
    ghost predicate Sized()
      reads this, Repr
    {
      Wellformed() && numFilled < numAllocated
    }

    /** The object invariant: the filled prefix is a min-heap. */
    ghost predicate Valid()
      reads this, Repr
    {
      Sized() && IsHeap(elements[..numFilled])
    }

    /** The stored elements in heap order. */
    ghost function Contents(): seq<DataPoint>
      reads this, Repr
      requires Sized()
    {
      elements[..numFilled]
    }

    constructor ()
      ensures Valid() && fresh(Repr)
      ensures Contents() == [] && numAllocated == InitialCapacity
    {
      numAllocated := InitialCapacity;
      elements := new DataPoint[InitialCapacity];
      numFilled := 0;
      Repr := {this, elements};
    }

    /** The parent slot of `curIndex`, computed with truncating division;
        the root is its own parent. */
    static function ParentIndex(curIndex: int): (r: int)
      ensures curIndex == 0 ==> r == 0
      ensures 0 < curIndex ==> 0 <= r < curIndex && (curIndex == 2 * r + 1 || curIndex == 2 * r + 2)
      ensures curIndex < 0 ==> r == -1
    {
      if TruncHalf(curIndex - 1) < 0 then -1 else TruncHalf(curIndex - 1)
    }

    /** The left child of slot `curIndex`, or -1 when it is not filled. */
    function LeftChildIndex(curIndex: int): (r: int)
      reads this
      ensures 0 <= curIndex ==> (r == -1 <==> numFilled <= 2 * curIndex + 1)
      ensures 0 <= curIndex && r != -1 ==>
                0 < r < numFilled && r % 2 == 1 && ParentIndex(r) == curIndex
    {
      FilledOrNone(numFilled, 2 * curIndex + 1)
    }

    /** The right child of slot `curIndex`, or -1 when it is not filled. */
    function RightChildIndex(curIndex: int): (r: int)
      reads this
      ensures 0 <= curIndex ==> (r == -1 <==> numFilled <= 2 * curIndex + 2)
      ensures 0 <= curIndex && r != -1 ==>
                0 < r < numFilled && r % 2 == 0 && ParentIndex(r) == curIndex
    {
      FilledOrNone(numFilled, 2 * curIndex + 2)
    }

    /** The child of `parentIndex` with the smaller priority: the left one
        when it is strictly smaller or the right one is not filled, the right
        one otherwise. */
    function SmallerChildIndex(parentIndex: int): (r: int)
      reads this, Repr
      requires Sized() && 0 <= parentIndex && LeftChildIndex(parentIndex) != -1
      ensures 0 < r < numFilled && ParentIndex(r) == parentIndex
      ensures forall j :: 0 < j < numFilled && ParentIndex(j) == parentIndex ==>
                elements[r].priority <= elements[j].priority
      ensures r == LeftChildIndex(parentIndex) <==>
                RightChildIndex(parentIndex) == -1 ||
                elements[LeftChildIndex(parentIndex)].priority < elements[RightChildIndex(parentIndex)].priority
    {
      var left := LeftChildIndex(parentIndex);
      var right := RightChildIndex(parentIndex);
      if right == -1 || elements[left].priority < elements[right].priority then left else right
    }

    /** Puts `elem` in the first free slot and sifts it up while its parent
        has a strictly larger priority, doubling the buffer first when only
        one free slot is left. */
    method Enqueue(elem: DataPoint)
      requires Valid()
      modifies Repr
      ensures Valid() && fresh(Repr - old(Repr))
      ensures |Contents()| == |old(Contents())| + 1
      ensures multiset(Contents()) == multiset(old(Contents())) + multiset{elem}
      ensures numAllocated == if old(numFilled) == old(numAllocated) - 1
                              then 2 * old(numAllocated) else old(numAllocated)
    {
      if numFilled == numAllocated - 1 {
        Expand();
      }
      SiftUp(elem);
    }

    /** The insertion step of `Enqueue`, once a free slot stays after it:
        `elem` goes into the first free slot, is moved up, and the fill
        count grows. */
    method SiftUp(elem: DataPoint)
      requires Valid() && numFilled + 1 < numAllocated
      modifies this, elements
      ensures Valid() && elements == old(elements) && Repr == old(Repr)
      ensures numAllocated == old(numAllocated)
      ensures |Contents()| == |old(Contents())| + 1
      ensures multiset(Contents()) == multiset(old(Contents())) + multiset{elem}
    {
      ghost var s := elements[..numFilled];
      PlaceLast(elem);
      SiftUpFrom(numFilled, s + [elem]);
      assert multiset(s + [elem]) == multiset(s) + multiset{elem};
      numFilled := numFilled + 1;
    }

    /** `elem` goes into the first free slot; only the edge above it may
        be out of order. */
    method PlaceLast(elem: DataPoint)
      requires Valid() && numFilled < numAllocated
      modifies elements
      ensures elements[..numFilled + 1] == old(elements[..numFilled]) + [elem]
      ensures HeapExceptUp(elements[..numFilled + 1], numFilled)
    {
      ghost var s := elements[..numFilled];
      elements[numFilled] := elem;
      assert elements[..numFilled + 1] == s + [elem];
      AppendToHeap(s, elem);
    }

    /** The sift-up loop of `Enqueue`: the element at `childSpot` swaps
        with its parent while the parent's priority is strictly larger. */
    method SiftUpFrom(childSpot: int, ghost start: seq<DataPoint>)
      requires Sized() && 0 <= childSpot <= numFilled
      requires elements[..numFilled + 1] == start && HeapExceptUp(start, childSpot)
      modifies elements
      ensures multiset(elements[..numFilled + 1]) == multiset(start)
      ensures IsHeap(elements[..numFilled + 1])
    {
      ghost var cur := start;
      var elem := elements[childSpot];
      var childSpot := childSpot;
      var parentSpot := 1;
      while parentSpot != 0 && elem.priority < elements[ParentIndex(childSpot)].priority
        invariant 0 <= childSpot < |cur| == numFilled + 1
        invariant parentSpot == 0 ==> childSpot == 0
        invariant elements[..numFilled + 1] == cur
        invariant cur[childSpot] == elem
        invariant multiset(cur) == multiset(start)
        invariant HeapExceptUp(cur, childSpot)
        decreases childSpot
      {
        parentSpot := ParentIndex(childSpot);
        MoveUp(childSpot, parentSpot, elem, cur);
        cur := elements[..numFilled + 1];
        childSpot := parentSpot;
      }
      if childSpot != 0 {
        assert elements[ParentIndex(childSpot)] == cur[ParentIndex(childSpot)];
      }
      SiftUpDone(cur, childSpot);
    }

    /** One swap of the sift-up: the parent's element moves down into
        `childSpot` and `elem`, the element at `childSpot`, moves up. */
    method MoveUp(childSpot: int, parentSpot: int, elem: DataPoint, ghost cur: seq<DataPoint>)
      requires Sized() && 0 <= childSpot <= numFilled && parentSpot == ParentIndex(childSpot)
      requires elements[..numFilled + 1] == cur && cur[childSpot] == elem
      requires HeapExceptUp(cur, childSpot) && elem.priority < elements[parentSpot].priority
      modifies elements
      ensures 0 <= parentSpot < childSpot && elements[parentSpot] == elem
      ensures elements[..numFilled + 1] == cur[childSpot := cur[parentSpot]][parentSpot := elem]
      ensures multiset(elements[..numFilled + 1]) == multiset(cur)
      ensures HeapExceptUp(elements[..numFilled + 1], parentSpot)
    {
      assert elements[parentSpot] == cur[parentSpot];
      assert 0 < childSpot;
      SiftUpStep(cur, childSpot);
      SwapKeepsMultiset(cur, childSpot, parentSpot);
      ghost var full := elements[..];
      elements[childSpot] := elements[parentSpot];
      elements[parentSpot] := elem;
      assert elements[..] == full[childSpot := full[parentSpot]][parentSpot := full[childSpot]];
      SwapInPrefix(full, numFilled + 1, childSpot, parentSpot);
    }

    /** The growth step of `Enqueue`: the buffer is replaced by one of twice
        the capacity holding the same elements. */
    method Expand()
      requires Valid()
      modifies this
      ensures Valid() && fresh(elements)
      ensures Contents() == old(Contents()) && numAllocated == 2 * old(numAllocated)
    {
      var newElements := Grow(elements, numFilled);
      elements := newElements;
      numAllocated := numAllocated * 2;
      Repr := {this, elements};
    }

    /** The root, which has the minimum priority. */
    function Peek(): (r: Result<DataPoint>)
      reads this, Repr
      requires Valid()
      ensures r.Err? <==> Contents() == []
      ensures r.Err? ==> r.error == EmptyQueue
      ensures r.Ok? ==> r.value == Contents()[0] && AllAtLeast(Contents(), r.value.priority)
    {
      if IsEmpty() then Err(EmptyQueue)
      else HeapRootIsMinimumAll(Contents()); Ok(elements[0])
    }

    /** Removes and returns the root: the last element moves to the root
        and sifts down while a strictly smaller child exists. */
    method Dequeue() returns (r: Result<DataPoint>)
      requires Valid()
      modifies Repr
      ensures Valid() && Repr == old(Repr) && elements == old(elements)
      ensures numAllocated == old(numAllocated)
      ensures old(Contents()) == [] ==> r == Err(EmptyQueue) && Contents() == []
      ensures old(Contents()) != [] ==>
                r == Ok(old(Contents())[0]) &&
                |Contents()| == |old(Contents())| - 1 &&
                multiset(Contents()) == multiset(old(Contents())) - multiset{old(Contents())[0]}
      ensures r.Ok? ==> AllAtLeast(old(Contents()), r.value.priority)
    {
      if IsEmpty() {
        return Err(EmptyQueue);
      }
      r := Peek();
      ghost var s := elements[..numFilled];
      MoveLastToRoot();
      RootReplacedSpec(s);
      SiftDown();
    }

    /** The first step of `Dequeue` on a non-empty heap: the last element
        overwrites the root and the fill count shrinks. */
    method MoveLastToRoot()
      requires Valid() && numFilled > 0
      modifies this, elements
      ensures Sized() && Repr == old(Repr) && elements == old(elements)
      ensures numAllocated == old(numAllocated) && numFilled == old(numFilled) - 1
      ensures elements[..numFilled] == RootReplaced(old(elements[..numFilled]))
    {
      ghost var full := elements[..];
      var bubbler := numFilled - 1;
      elements[0] := elements[bubbler];
      assert elements[..] == full[0 := full[bubbler]];
      RootWriteInPrefix(full, numFilled);
      numFilled := numFilled - 1;
      assert elements[..numFilled] == elements[..][..numFilled];
    }

    /** The sift-down loop of `Dequeue`: the element at the root swaps with
        its smaller child while some filled child has a strictly smaller
        priority. */
    method SiftDown()
      requires Sized() && HeapExceptDown(elements[..numFilled], 0)
      modifies elements
      ensures multiset(elements[..numFilled]) == multiset(old(elements[..numFilled]))
      ensures IsHeap(elements[..numFilled])
    {
      ghost var t0 := elements[..numFilled];
      ghost var cur := t0;
      var parentSpot := 0;
      while LeftChildIndex(parentSpot) != -1
        invariant 0 <= parentSpot && (numFilled > 0 ==> parentSpot < numFilled)
        invariant elements[..numFilled] == cur && |cur| == numFilled
        invariant multiset(cur) == multiset(t0)
        invariant HeapExceptDown(cur, parentSpot)
        decreases numFilled - parentSpot
      {
        var left := LeftChildIndex(parentSpot);
        var right := RightChildIndex(parentSpot);
        if elements[parentSpot].priority > elements[left].priority
           || (right != -1 && elements[parentSpot].priority > elements[right].priority)
        {
          var childSpot := SmallerChildIndex(parentSpot);
          SwapDown(parentSpot, childSpot, cur);
          cur := cur[parentSpot := cur[childSpot]][childSpot := cur[parentSpot]];
          parentSpot := childSpot;
        } else {
          assert cur[parentSpot] == elements[parentSpot] && cur[left] == elements[left];
          assert right != -1 ==> cur[right] == elements[right];
          break;
        }
      }
      SiftDownExit(cur, parentSpot);
      assert t0 == old(elements[..numFilled]);
    }

    /** One swap of the sift-down: the element at `parentSpot` changes
        places with its smaller child `childSpot`, which is strictly smaller. */
    method SwapDown(parentSpot: int, childSpot: int, ghost cur: seq<DataPoint>)
      requires Sized() && 0 <= parentSpot < childSpot < numFilled && ParentIndex(childSpot) == parentSpot
      requires elements[..numFilled] == cur && HeapExceptDown(cur, parentSpot)
      requires forall j :: 0 < j < numFilled && ParentIndex(j) == parentSpot ==>
                 elements[childSpot].priority <= elements[j].priority
      requires elements[childSpot].priority < elements[parentSpot].priority
      modifies elements
      ensures elements[..numFilled] == cur[parentSpot := cur[childSpot]][childSpot := cur[parentSpot]]
      ensures multiset(elements[..numFilled]) == multiset(cur)
      ensures HeapExceptDown(elements[..numFilled], childSpot)
    {
      forall j | 0 < j < |cur| && ParentIndex(j) == parentSpot
        ensures cur[childSpot].priority <= cur[j].priority
      {
        assert cur[j] == elements[j];
      }
      SiftDownStep(cur, parentSpot, childSpot);
      SwapKeepsMultiset(cur, parentSpot, childSpot);
      ghost var full := elements[..];
      elements[parentSpot], elements[childSpot] := elements[childSpot], elements[parentSpot];
      assert elements[..] == full[parentSpot := full[childSpot]][childSpot := full[parentSpot]];
      SwapInPrefix(full, numFilled, parentSpot, childSpot);
    }

    function IsEmpty(): (b: bool)
      reads this, Repr
      requires Sized()
      ensures b <==> Contents() == []
    {
      Size() == 0
    }

    function Size(): (n: nat)
      reads this, Repr
      requires Sized()
      ensures n == |Contents()|
    {
      numFilled
    }

    /** Forgets every element and keeps the buffer and its capacity. */
    method Clear()
      requires Valid()
      modifies this
      ensures Valid() && Repr == old(Repr) && elements == old(elements)
      ensures numAllocated == old(numAllocated)
      ensures Contents() == [] && IsEmpty()
    {
      numFilled := 0;
    }

    /** The consistency check: the fill count is within the capacity and
        no filled child has a smaller priority than its parent. */
    method ValidateInternalState() returns (r: Outcome)
      requires Wellformed()
      ensures r == Pass <==> numFilled <= numAllocated && IsHeap(elements[..numFilled])
      ensures numFilled > numAllocated ==> r == Fail(TooManyElements)
      ensures numFilled <= numAllocated && r.Fail? ==> r.error.OutOfOrder?
      ensures r.Fail? && r.error.OutOfOrder? ==>
                exists c :: 0 < c < numFilled && ParentIndex(c) == r.error.index &&
                  elements[c].priority < elements[r.error.index].priority
      ensures r.Fail? && r.error.OutOfOrder? ==>
                0 <= r.error.index < numFilled <= numAllocated &&
                (forall c :: 0 < c < numFilled && ParentIndex(c) < r.error.index ==>
                   elements[ParentIndex(c)].priority <= elements[c].priority)
    {
      if numFilled > numAllocated {
        return Fail(TooManyElements);
      }
      for i := 0 to numFilled
        invariant forall c :: 0 < c < numFilled && ParentIndex(c) < i ==>
                    elements[ParentIndex(c)].priority <= elements[c].priority
      {
        var left := LeftChildIndex(i);
        var right := RightChildIndex(i);
        if (left != -1 && elements[i].priority > elements[left].priority)
           || (right != -1 && elements[i].priority > elements[right].priority)
        {
          ghost var c := if left != -1 && elements[i].priority > elements[left].priority then left else right;
          assert !ParentOrdered(elements[..numFilled], c);
          assert 0 < c < numFilled && ParentIndex(c) == i && elements[c].priority < elements[i].priority;
          return Fail(OutOfOrder(i));
        }
      }
      assert IsHeap(elements[..numFilled]) by {
        var t := elements[..numFilled];
        forall c | 0 < c < |t| ensures ParentOrdered(t, c) {
          assert elements[ParentIndex(c)].priority <= elements[c].priority;
        }
      }
      return Pass;
    }
  }
}
