/** A priority queue kept as an array sorted by non-increasing priority
    from index 0, so that the minimum sits in the last filled slot. */
module SortedArray {
  import opened DataPoints

  /** Priorities never increase with the index. */
  ghost predicate NonIncreasing(s: seq<DataPoint>) {
    forall i, j :: 0 <= i <= j < |s| ==> s[j].priority <= s[i].priority
  }

  /** The neighbour-by-neighbour ordering that the consistency check walks. */
  ghost predicate AdjacentOrdered(s: seq<DataPoint>) {
    forall i :: 1 <= i < |s| ==> s[i].priority <= s[i - 1].priority
  }

  lemma {:induction false} AdjacentOrderedIffNonIncreasing(s: seq<DataPoint>)
    ensures AdjacentOrdered(s) <==> NonIncreasing(s)
  {
    if AdjacentOrdered(s) && |s| > 1 {
      var t := s[..|s| - 1];
      assert AdjacentOrdered(t) by {
        forall i | 1 <= i < |t| ensures t[i].priority <= t[i - 1].priority {
          assert t[i] == s[i] && t[i - 1] == s[i - 1];
        }
      }
      AdjacentOrderedIffNonIncreasing(t);
      forall i, j | 0 <= i <= j < |s| ensures s[j].priority <= s[i].priority {
        if j < |s| - 1 {
          assert s[i] == t[i] && s[j] == t[j];
        } else if i < j {
          assert s[i] == t[i] && s[j - 1] == t[j - 1];
        }
      }
    }
  }

  /** The slot the new priority `p` goes to: the first index whose priority
      is at most `p`, or the end of `s` when there is none. */
  function InsertPos(s: seq<DataPoint>, p: int): (pos: nat)
    ensures pos <= |s|
    ensures forall j :: 0 <= j < pos ==> p < s[j].priority
    ensures pos < |s| ==> s[pos].priority <= p
  {
    if s == [] then 0
    else if s[0].priority <= p then 0
    else 1 + InsertPos(s[1..], p)
  }

  /** The filled prefix after inserting `x`: the slots before its position
      are kept, the rest move one slot towards the end. */
  function SortedInsert(s: seq<DataPoint>, x: DataPoint): seq<DataPoint> {
    var pos := InsertPos(s, x.priority);
    s[..pos] + [x] + s[pos..]
  }

  /** Where each slot of the result comes from. */
  lemma SortedInsertAt(s: seq<DataPoint>, x: DataPoint)
    ensures |SortedInsert(s, x)| == |s| + 1
    ensures forall j :: 0 <= j < |s| + 1 ==>
              SortedInsert(s, x)[j] == var pos := InsertPos(s, x.priority);
                                       if j < pos then s[j] else if j == pos then x else s[j - 1]
  {
  }

  lemma SortedInsertMultiset(s: seq<DataPoint>, x: DataPoint)
    ensures multiset(SortedInsert(s, x)) == multiset(s) + multiset{x}
  {
    var pos := InsertPos(s, x.priority);
    assert s == s[..pos] + s[pos..];
  }

  lemma SortedInsertSorted(s: seq<DataPoint>, x: DataPoint)
    requires NonIncreasing(s)
    ensures NonIncreasing(SortedInsert(s, x))
  {
    var pos := InsertPos(s, x.priority);
    SortedInsertAt(s, x);
    var r := SortedInsert(s, x);
    forall i, j | 0 <= i <= j < |r| ensures r[j].priority <= r[i].priority {
      if j < pos {
        assert r[i] == s[i] && r[j] == s[j];
      } else if j == pos {
        if i < pos {
          assert r[i] == s[i] && r[j] == x;
        }
      } else if i < pos {
        assert r[i] == s[i] && r[j] == s[j - 1];
      } else if i == pos {
        assert r[i] == x && r[j] == s[j - 1] && s[j - 1].priority <= s[pos].priority;
      } else {
        assert r[i] == s[i - 1] && r[j] == s[j - 1];
      }
    }
  }

  lemma SortedInsertSpec(s: seq<DataPoint>, x: DataPoint)
    ensures |SortedInsert(s, x)| == |s| + 1
    ensures multiset(SortedInsert(s, x)) == multiset(s) + multiset{x}
    ensures NonIncreasing(s) ==> NonIncreasing(SortedInsert(s, x))
  {
    SortedInsertMultiset(s, x);
    if NonIncreasing(s) {
      SortedInsertSorted(s, x);
    }
  }

  /** A sequence that agrees slot by slot with `s` with `x` inserted at
      `pos` is that insertion. */
  lemma InsertedAt(s: seq<DataPoint>, pos: int, x: DataPoint, t: seq<DataPoint>)
    requires 0 <= pos <= |s| && |t| == |s| + 1
    requires forall j :: 0 <= j < pos ==> t[j] == s[j]
    requires t[pos] == x
    requires forall j :: pos < j < |t| ==> t[j] == s[j - 1]
    ensures t == s[..pos] + [x] + s[pos..]
  {
  }

  /** Records of equal priority leave first in, first out: the new record
      goes in front of every stored record with its priority, so all of
      them sit nearer the back, where `Dequeue` removes from. */
  lemma EqualPrioritiesLeaveFirst(s: seq<DataPoint>, x: DataPoint)
    ensures var r := SortedInsert(s, x);
            var pos := InsertPos(s, x.priority);
            r[pos] == x &&
            forall j :: 0 <= j < |r| && j != pos && r[j].priority == x.priority ==> pos < j
  {
    SortedInsertAt(s, x);
  }

  /** The last element of a non-increasing sequence has the minimum priority. */
  lemma LastIsMinimum(s: seq<DataPoint>)
    requires NonIncreasing(s) && s != []
    ensures AllAtLeast(s, s[|s| - 1].priority)
  {
  }

  class PQSortedArray {
    var elements: array<DataPoint>
    var numFilled: nat
    var numAllocated: nat
    ghost var Repr: set<object>

    /** The representation: the buffer belongs to this queue and its length
        is the recorded capacity. */
    ghost predicate Wellformed()
      reads this, Repr
    {
      Repr == {this, elements} && numAllocated == elements.Length
    }

    /** The object invariant: a free slot always remains, and the filled
        prefix is sorted. */
    ghost predicate Valid()
      reads this, Repr
    {
      Wellformed() && numFilled < numAllocated && NonIncreasing(elements[..numFilled])
    }

    /** The stored elements, front (largest priority) to back (smallest). */
    ghost function Contents(): seq<DataPoint>
      reads this, Repr
      requires Valid()
    {
      elements[..numFilled]
    }

    constructor ()
      ensures Valid() && fresh(Repr)
      ensures Contents() == [] && numAllocated == InitialCapacity
    {
      numAllocated := InitialCapacity;
      elements := new DataPoint[InitialCapacity];
      numFilled := 0;
      Repr := {this, elements};
    }

    /** Inserts `elem` at the first slot whose priority is at most its own,
        doubling the buffer first when only one free slot is left. */
    method Enqueue(elem: DataPoint)
      requires Valid()
      modifies Repr
      ensures Valid() && fresh(Repr - old(Repr))
      ensures Contents() == SortedInsert(old(Contents()), elem)
      ensures numAllocated == if old(numFilled) == old(numAllocated) - 1
                              then 2 * old(numAllocated) else old(numAllocated)
    {
      if numFilled == numAllocated - 1 {
        Expand();
      }
      PlaceSorted(elem);
    }

    /** The insertion step of `Enqueue`, once two free slots are known to
        remain: find the position, shift and place. */
    method PlaceSorted(elem: DataPoint)
      requires Valid() && numFilled + 1 < numAllocated
      modifies this, elements
      ensures Valid() && elements == old(elements) && Repr == old(Repr)
      ensures numAllocated == old(numAllocated)
      ensures Contents() == SortedInsert(old(Contents()), elem)
    {
      ghost var s := elements[..numFilled];
      var insertPos := FindInsertPos(elem.priority);
      InsertAt(insertPos, elem);
      ghost var r := elements[..numFilled + 1];
      assert r == SortedInsert(s, elem);
      SortedInsertSpec(s, elem);
      numFilled := numFilled + 1;
      assert elements[..numFilled] == r;
    }

    /** The growth step of `Enqueue`: the buffer is replaced by one of twice
        the capacity holding the same elements. */
    method Expand()
      requires Valid()
      modifies this
      ensures Valid() && fresh(elements) && Repr == {this, elements}
      ensures Contents() == old(Contents()) && numAllocated == 2 * old(numAllocated)
    {
      var newElements := Grow(elements, numFilled);
      elements := newElements;
      numAllocated := numAllocated * 2;
      Repr := {this, elements};
    }

    /** The search loop of `Enqueue`: the first index whose priority is at
        most `p`, or the fill count when there is none. */
    method FindInsertPos(p: int) returns (insertPos: nat)
      requires Valid()
      ensures insertPos == InsertPos(Contents(), p)
    {
      insertPos := numFilled;
      for i := 0 to numFilled
        invariant forall j :: 0 <= j < i ==> p < elements[j].priority
      {
        if p >= elements[i].priority {
          insertPos := i;
          break;
        }
      }
    }

    /** The shift-and-place step of `Enqueue`: the filled slots from
        `insertPos` onward move one place towards the end, into the free
        slot, and `elem` fills the opened slot. */
    method InsertAt(insertPos: nat, elem: DataPoint)
      requires Wellformed() && insertPos <= numFilled < numAllocated
      modifies elements
      ensures var s := old(elements[..numFilled]);
              elements[..numFilled + 1] == s[..insertPos] + [elem] + s[insertPos..]
    {
      ghost var s := elements[..numFilled];
      var i := numFilled;
      while i > insertPos
        invariant insertPos <= i <= numFilled
        invariant forall j :: 0 <= j < i ==> elements[j] == s[j]
        invariant forall j :: i < j <= numFilled ==> elements[j] == s[j - 1]
      {
        elements[i] := elements[i - 1];
        i := i - 1;
      }
      elements[insertPos] := elem;
      InsertedAt(s, insertPos, elem, elements[..numFilled + 1]);
    }

    function Size(): (n: nat)
      reads this, Repr
      requires Valid()
      ensures n == |Contents()|
    {
      numFilled
    }

    function IsEmpty(): (b: bool)
      reads this, Repr
      requires Valid()
      ensures b <==> Contents() == []
    {
      Size() == 0
    }

    /** The element `Dequeue` would return: the one with the minimum priority. */
    function Peek(): (r: Result<DataPoint>)
      reads this, Repr
      requires Valid()
      ensures r.Err? <==> Contents() == []
      ensures r.Err? ==> r.error == EmptyQueue
      ensures r.Ok? ==> r.value == Contents()[|Contents()| - 1]
      ensures r.Ok? ==> AllAtLeast(Contents(), r.value.priority)
    {
      if IsEmpty() then Err(EmptyQueue)
      else LastIsMinimum(Contents()); Ok(elements[numFilled - 1])
    }

    /** Removes and returns the element with the minimum priority. */
    method Dequeue() returns (r: Result<DataPoint>)
      requires Valid()
      modifies this
      ensures Valid() && Repr == old(Repr) && elements == old(elements)
      ensures numAllocated == old(numAllocated)
      ensures old(Contents()) == [] ==> r == Err(EmptyQueue) && Contents() == []
      ensures old(Contents()) != [] ==>
                r == Ok(old(Contents())[|old(Contents())| - 1]) &&
                Contents() == old(Contents())[..|old(Contents())| - 1]
      ensures r.Ok? ==> AllAtLeast(old(Contents()), r.value.priority)
    {
      if IsEmpty() {
        return Err(EmptyQueue);
      }
      LastIsMinimum(Contents());
      numFilled := numFilled - 1;
      r := Ok(elements[numFilled]);
    }

    /** Forgets every element and keeps the buffer and its capacity. */
    method Clear()
      requires Valid()
      modifies this
      ensures Valid() && Repr == old(Repr) && elements == old(elements)
      ensures numAllocated == old(numAllocated)
      ensures Contents() == [] && IsEmpty()
    {
      numFilled := 0;
    }

    /** The consistency check: the fill count is within the capacity and
        neighbouring priorities never increase. */
    method ValidateInternalState() returns (r: Outcome)
      requires Wellformed()
      ensures r == Pass <==> numFilled <= numAllocated && NonIncreasing(elements[..numFilled])
      ensures numFilled > numAllocated ==> r == Fail(TooManyElements)
      ensures numFilled <= numAllocated && r.Fail? ==> r.error.OutOfOrder?
      ensures r.Fail? && r.error.OutOfOrder? ==>
                var i := r.error.index;
                1 <= i < numFilled <= numAllocated &&
                elements[i - 1].priority < elements[i].priority &&
                NonIncreasing(elements[..i])
    {
      if numFilled > numAllocated {
        return Fail(TooManyElements);
      }
      var i := 1;
      while i < numFilled
        invariant 1 <= i
        invariant forall j :: 1 <= j < i && j < numFilled ==> elements[j].priority <= elements[j - 1].priority
      {
        if elements[i].priority > elements[i - 1].priority {
          assert AdjacentOrdered(elements[..i]);
          AdjacentOrderedIffNonIncreasing(elements[..i]);
          assert elements[..numFilled][i] == elements[i] && elements[..numFilled][i - 1] == elements[i - 1];
          return Fail(OutOfOrder(i));
        }
        i := i + 1;
      }
      assert AdjacentOrdered(elements[..numFilled]);
      AdjacentOrderedIffNonIncreasing(elements[..numFilled]);
      return Pass;
    }
  }
}
