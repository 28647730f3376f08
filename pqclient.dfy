/** Two clients of the sorted-array queue: sorting a vector by draining the
    queue, and keeping the k records of largest priority seen in a stream. */
module Client {
  import opened DataPoints
  import opened SortedArray

  /** Priorities never decrease with the index. */
  ghost predicate NonDecreasing(s: seq<DataPoint>) {
    forall i, j :: 0 <= i <= j < |s| ==> s[i].priority <= s[j].priority
  }

  /** The buffer of a fresh queue after enqueuing every element of `s`, in order. */
  function InsertAll(s: seq<DataPoint>): (r: seq<DataPoint>)
    ensures |r| == |s|
    decreases |s|
  {
    if s == [] then [] else SortedInsert(InsertAll(s[..|s| - 1]), s[|s| - 1])
  }

  lemma {:induction false} InsertAllSpec(s: seq<DataPoint>)
    ensures |InsertAll(s)| == |s|
    ensures multiset(InsertAll(s)) == multiset(s)
    ensures NonIncreasing(InsertAll(s))
    decreases |s|
  {
    if s != [] {
      var init := s[..|s| - 1];
      DropLast(s);
      InsertAllSpec(init);
      SortedInsertSpec(InsertAll(init), s[|s| - 1]);
    }
  }

  /** `s` read from back to front. */
  function Reverse(s: seq<DataPoint>): (r: seq<DataPoint>)
    ensures |r| == |s|
  {
    if s == [] then [] else Reverse(s[1..]) + [s[0]]
  }

  lemma {:induction false} ReverseAt(s: seq<DataPoint>)
    ensures forall j :: 0 <= j < |s| ==> Reverse(s)[j] == s[|s| - 1 - j]
  {
    if s != [] {
      var t := s[1..];
      ReverseAt(t);
      var r := Reverse(s);
      assert r == Reverse(t) + [s[0]];
      forall j | 0 <= j < |s| ensures r[j] == s[|s| - 1 - j] {
        if j < |s| - 1 {
          assert r[j] == Reverse(t)[j] == t[|t| - 1 - j];
        }
      }
    }
  }

  lemma {:induction false} ReverseMultiset(s: seq<DataPoint>)
    ensures multiset(Reverse(s)) == multiset(s)
  {
    if s != [] {
      ReverseMultiset(s[1..]);
      assert s == [s[0]] + s[1..];
    }
  }

  /** Reversing a suffix of `s` that starts one slot earlier. */
  lemma ReverseSuffix(s: seq<DataPoint>, m: int)
    requires 0 <= m < |s|
    ensures Reverse(s[m..]) == Reverse(s[m + 1..]) + [s[m]]
  {
    assert s[m..][1..] == s[m + 1..];
  }

  /** Reading a non-increasing sequence from the back gives a non-decreasing one. */
  lemma ReverseOfNonIncreasing(s: seq<DataPoint>)
    requires NonIncreasing(s)
    ensures NonDecreasing(Reverse(s))
  {
    ReverseAt(s);
    var r := Reverse(s);
    forall i, j | 0 <= i <= j < |r| ensures r[i].priority <= r[j].priority {
      assert r[i] == s[|s| - 1 - i] && r[j] == s[|s| - 1 - j];
    }
  }

  /** Sorts `v` by non-decreasing priority: every element is enqueued into a
      sorted-array queue and the queue is then drained back into `v`. */
  method PqSort(v: array<DataPoint>)
    modifies v
    ensures v[..] == Reverse(InsertAll(old(v[..])))
    ensures multiset(v[..]) == multiset(old(v[..]))
    ensures NonDecreasing(v[..])
  {
    ghost var input := v[..];
    var pq := EnqueueAll(v);
    DrainInto(pq, v);
    InsertAllSpec(input);
    ReverseMultiset(InsertAll(input));
    ReverseOfNonIncreasing(InsertAll(input));
  }

  /** The first loop of `pqSort`: a fresh queue receives the elements of `v`
      from front to back. */
  method EnqueueAll(v: array<DataPoint>) returns (pq: PQSortedArray)
    ensures pq.Valid() && fresh(pq) && fresh(pq.elements)
    ensures pq.Contents() == InsertAll(v[..])
  {
    pq := new PQSortedArray();
    for i := 0 to v.Length
      invariant pq.Valid() && fresh(pq) && fresh(pq.elements)
      invariant pq.Contents() == InsertAll(v[..i])
    {
      assert v[..i + 1][..i] == v[..i];
      pq.Enqueue(v[i]);
    }
    assert v[..v.Length] == v[..];
  }

  /** The second loop of `pqSort`: slots 0, 1, ... of `v` receive the queue's
      elements in dequeue order, so `v` holds the queue read from the back. */
  method DrainInto(pq: PQSortedArray, v: array<DataPoint>)
    requires pq.Valid() && v != pq.elements && |pq.Contents()| == v.Length
    modifies pq, v
    ensures v[..] == Reverse(old(pq.Contents()))
  {
    ghost var ws := pq.Contents();
    for i := 0 to v.Length
      invariant pq.Valid() && pq.Repr == old(pq.Repr) && pq.elements == old(pq.elements)
      invariant pq.Contents() == ws[..v.Length - i]
      invariant v[..i] == Reverse(ws[v.Length - i..])
    {
      ghost var m := v.Length - i - 1;
      assert ws[..m + 1][..m] == ws[..m];
      var r := pq.Dequeue();
      assert r.value == ws[m] && pq.Contents() == ws[..m];
      v[i] := r.value;
      ReverseSuffix(ws, m);
      assert v[..i + 1] == v[..i] + [ws[m]];
    }
    assert ws[0..] == ws;
    assert v[..v.Length] == v[..];
  }

  /** No record of `s` left out of `t` has a larger priority than a record
      of `t`. */
  ghost predicate Dominates(s: seq<DataPoint>, t: seq<DataPoint>) {
    forall x, j :: x in multiset(s) - multiset(t) && 0 <= j < |t| ==> x.priority <= t[j].priority
  }

  /** One step of `topK`'s reading loop on the working set `ws`: `cur` is
      admitted while fewer than `k` records are kept; after that it replaces
      the minimum only when its priority is strictly larger. */
  function Offer(ws: seq<DataPoint>, cur: DataPoint, k: int): seq<DataPoint> {
    if |ws| < k then SortedInsert(ws, cur)
    else if ws != [] && cur.priority > ws[|ws| - 1].priority then SortedInsert(ws[..|ws| - 1], cur)
    else ws
  }

  /** The working set of `topK` after the records of `stream`, in order. */
  function WorkingSet(stream: seq<DataPoint>, k: int): seq<DataPoint>
    requires 1 <= k
    decreases |stream|
  {
    if stream == [] then []
    else Offer(WorkingSet(stream[..|stream| - 1], k), stream[|stream| - 1], k)
  }

  /** Extending a prefix of `s` by one element. */
  lemma TakeOneMore(s: seq<DataPoint>, i: int)
    requires 0 <= i < |s|
    ensures s[..i] + [s[i]] == s[..i + 1] && s[..i + 1][..i] == s[..i]
  {
  }

  /** Dropping the last element of a sequence. */
  lemma DropLast(s: seq<DataPoint>)
    requires s != []
    ensures s == s[..|s| - 1] + [s[|s| - 1]]
    ensures multiset(s) == multiset(s[..|s| - 1]) + multiset{s[|s| - 1]}
    ensures NonIncreasing(s) ==> NonIncreasing(s[..|s| - 1])
  {
    assert s == s[..|s| - 1] + [s[|s| - 1]];
  }

  /** One step keeps the working set sorted, grows it by one until it holds
      `k` records and then keeps its size, and only ever adds `cur`. */
  lemma OfferShape(ws: seq<DataPoint>, cur: DataPoint, k: int)
    requires 1 <= k && |ws| <= k && NonIncreasing(ws)
    ensures |Offer(ws, cur, k)| == if |ws| < k then |ws| + 1 else k
    ensures NonIncreasing(Offer(ws, cur, k))
    ensures multiset(Offer(ws, cur, k)) <= multiset(ws) + multiset{cur}
    ensures |ws| < k ==> multiset(Offer(ws, cur, k)) == multiset(ws) + multiset{cur}
  {
    if |ws| < k {
      SortedInsertSpec(ws, cur);
    } else if cur.priority > ws[|ws| - 1].priority {
      DropLast(ws);
      SortedInsertSpec(ws[..|ws| - 1], cur);
    }
  }

  lemma {:induction false} WorkingSetShape(stream: seq<DataPoint>, k: int)
    requires 1 <= k
    ensures |WorkingSet(stream, k)| == if |stream| < k then |stream| else k
    ensures NonIncreasing(WorkingSet(stream, k))
    ensures multiset(WorkingSet(stream, k)) <= multiset(stream)
    ensures |stream| <= k ==> multiset(WorkingSet(stream, k)) == multiset(stream)
    decreases |stream|
  {
    if stream != [] {
      var init := stream[..|stream| - 1];
      DropLast(stream);
      WorkingSetShape(init, k);
      OfferShape(WorkingSet(init, k), stream[|stream| - 1], k);
    }
  }

  /** A record no larger than the minimum of a full working set is left out. */
  lemma DominatesReject(s: seq<DataPoint>, t: seq<DataPoint>, x: DataPoint)
    requires t != [] && NonIncreasing(t) && multiset(t) <= multiset(s) && Dominates(s, t)
    requires x.priority <= t[|t| - 1].priority
    ensures Dominates(s + [x], t)
  {
    assert multiset(s + [x]) - multiset(t) == (multiset(s) - multiset(t)) + multiset{x};
    forall y, j | y in multiset(s + [x]) - multiset(t) && 0 <= j < |t|
      ensures y.priority <= t[j].priority
    {
      if y != x {
        assert y in multiset(s) - multiset(t);
      }
    }
  }

  /** After the replacement every kept record is at least the evicted minimum. */
  lemma ReplacedAtLeastEvicted(t: seq<DataPoint>, x: DataPoint)
    requires t != [] && NonIncreasing(t) && t[|t| - 1].priority < x.priority
    ensures AllAtLeast(SortedInsert(t[..|t| - 1], x), t[|t| - 1].priority)
  {
    var kept := t[..|t| - 1];
    SortedInsertAt(kept, x);
  }

  /** Swapping `l` out of and `x` into a sub-multiset `kept + {l}` of `a`
      adds `l` to what is left out. */
  lemma SwapOut(a: multiset<DataPoint>, kept: multiset<DataPoint>, x: DataPoint, l: DataPoint)
    requires kept + multiset{l} <= a
    ensures (a + multiset{x}) - (kept + multiset{x}) == (a - (kept + multiset{l})) + multiset{l}
  {
    forall z ensures ((a + multiset{x}) - (kept + multiset{x}))[z] == ((a - (kept + multiset{l})) + multiset{l})[z] {
      assert (kept + multiset{l})[z] <= a[z];
    }
  }

  /** After the replacement every record left out is at most the evicted minimum. */
  lemma LeftOutAtMostEvicted(s: seq<DataPoint>, t: seq<DataPoint>, x: DataPoint)
    requires t != [] && multiset(t) <= multiset(s) && Dominates(s, t)
    ensures forall y :: y in multiset(s + [x]) - multiset(SortedInsert(t[..|t| - 1], x)) ==>
              y.priority <= t[|t| - 1].priority
  {
    var last := t[|t| - 1];
    var kept := t[..|t| - 1];
    DropLast(t);
    SortedInsertSpec(kept, x);
    var out := multiset(s + [x]) - multiset(SortedInsert(kept, x));
    assert multiset(s + [x]) == multiset(s) + multiset{x};
    SwapOut(multiset(s), multiset(kept), x, last);
    assert out == (multiset(s) - multiset(t)) + multiset{last};
    forall y | y in out ensures y.priority <= last.priority {
      if y != last {
        assert y in multiset(s) - multiset(t);
      }
    }
  }

  /** A record larger than the minimum of a full working set replaces it. */
  lemma DominatesReplace(s: seq<DataPoint>, t: seq<DataPoint>, x: DataPoint)
    requires t != [] && NonIncreasing(t) && multiset(t) <= multiset(s) && Dominates(s, t)
    requires t[|t| - 1].priority < x.priority
    ensures Dominates(s + [x], SortedInsert(t[..|t| - 1], x))
  {
    ReplacedAtLeastEvicted(t, x);
    LeftOutAtMostEvicted(s, t, x);
  }

  /** One step keeps every record left out no larger than any record kept. */
  lemma OfferDominates(s: seq<DataPoint>, ws: seq<DataPoint>, cur: DataPoint, k: int)
    requires 1 <= k && |ws| == (if |s| < k then |s| else k) && NonIncreasing(ws)
    requires multiset(ws) <= multiset(s) && (|s| <= k ==> multiset(ws) == multiset(s))
    requires Dominates(s, ws)
    ensures Dominates(s + [cur], Offer(ws, cur, k))
  {
    if |ws| < k {
      SortedInsertSpec(ws, cur);
      assert multiset(s + [cur]) == multiset(Offer(ws, cur, k));
    } else if cur.priority > ws[|ws| - 1].priority {
      DominatesReplace(s, ws, cur);
    } else {
      DominatesReject(s, ws, cur);
    }
  }

  lemma {:induction false} WorkingSetDominates(stream: seq<DataPoint>, k: int)
    requires 1 <= k
    ensures Dominates(stream, WorkingSet(stream, k))
    decreases |stream|
  {
    if stream != [] {
      var init := stream[..|stream| - 1];
      DropLast(stream);
      WorkingSetDominates(init, k);
      WorkingSetShape(init, k);
      OfferDominates(init, WorkingSet(init, k), stream[|stream| - 1], k);
    }
  }

  /** The `k` records of largest priority in `stream`, largest first. An
      empty stream gives no records; otherwise a `k` below 1 fails when the
      empty queue is peeked and a `k` above the stream's length fails when
      the result vector is indexed past its end. */
  method TopK(stream: seq<DataPoint>, k: int) returns (r: Result<seq<DataPoint>>)
    ensures stream == [] ==> r == Ok([])
    ensures stream != [] && k < 1 ==> r == Err(EmptyQueue)
    ensures stream != [] && 1 <= k && |stream| < k ==> r == Err(IndexOutOfRange)
    ensures 1 <= k <= |stream| ==> r == Ok(WorkingSet(stream, k))
    ensures r.Ok? ==> |r.value| == (if stream == [] then 0 else k)
    ensures r.Ok? ==> NonIncreasing(r.value)
    ensures r.Ok? ==> multiset(r.value) <= multiset(stream) && Dominates(stream, r.value)
  {
    var data, trueData, outcome := ReadStream(stream, k);
    if outcome.Fail? {
      return Err(outcome.error);
    }
    if 1 <= k {
      WorkingSetShape(stream, k);
      WorkingSetDominates(stream, k);
    }
    if |trueData| > 0 {
      r := FillBackToFront(data, trueData, k - 1);
    } else {
      r := Ok(trueData);
    }
  }

  /** The reading loop of `topK`: each record of the stream is offered to
      the working set, and the first `k` records are also appended to the
      result vector. */
  method ReadStream(stream: seq<DataPoint>, k: int)
      returns (data: PQSortedArray, trueData: seq<DataPoint>, outcome: Outcome)
    ensures fresh(data) && fresh(data.elements) && data.Valid()
    ensures outcome.Fail? <==> stream != [] && k < 1
    ensures outcome.Fail? ==> outcome.error == EmptyQueue
    ensures k < 1 ==> trueData == []
    ensures 1 <= k ==> data.Contents() == WorkingSet(stream, k)
    ensures 1 <= k ==> trueData == stream[..if |stream| < k then |stream| else k]
  {
    data := new PQSortedArray();
    trueData := [];
    for i := 0 to |stream|
      invariant data.Valid() && fresh(data) && fresh(data.elements)
      invariant k < 1 ==> i == 0 && data.Contents() == [] && trueData == []
      invariant 1 <= k ==> data.Contents() == WorkingSet(stream[..i], k)
      invariant 1 <= k ==> |trueData| == (if i < k then i else k)
      invariant trueData == stream[..|trueData|]
    {
      TakeOneMore(stream, i);
      if 1 <= k {
        WorkingSetShape(stream[..i], k);
      }
      var admitted;
      admitted, outcome := OfferOne(data, stream[i], k);
      if outcome.Fail? {
        return;
      }
      if admitted {
        assert |trueData| == i;
        trueData := trueData + [stream[i]];
      }
    }
    assert stream[..|stream|] == stream;
    outcome := Pass;
  }

  /** The body of `topK`'s reading loop for the record `cur`: enqueue it
      while the queue holds fewer than `k` records, otherwise compare it with
      the peeked minimum and swap it in when its priority is larger. */
  method OfferOne(data: PQSortedArray, cur: DataPoint, k: int) returns (admitted: bool, outcome: Outcome)
    requires data.Valid()
    modifies data, data.elements
    ensures data.Valid() && (data.elements == old(data.elements) || fresh(data.elements))
    ensures admitted <==> |old(data.Contents())| < k
    ensures outcome.Fail? <==> k <= |old(data.Contents())| && old(data.Contents()) == []
    ensures outcome.Fail? ==> outcome.error == EmptyQueue
    ensures outcome.Pass? ==> data.Contents() == Offer(old(data.Contents()), cur, k)
  {
    ghost var ws := data.Contents();
    admitted := false;
    outcome := Pass;
    if data.Size() < k {
      data.Enqueue(cur);
      admitted := true;
      assert data.Contents() == Offer(ws, cur, k);
    } else {
      var top := data.Peek();
      if top.Err? {
        return false, Fail(top.error);
      }
      assert top.value == ws[|ws| - 1];
      if cur.priority > top.value.priority {
        ReplaceMinimum(data, cur);
        assert data.Contents() == Offer(ws, cur, k);
      }
    }
  }

  /** Dequeues the minimum of a non-empty queue and enqueues `cur`. */
  method ReplaceMinimum(data: PQSortedArray, cur: DataPoint)
    requires data.Valid() && data.Contents() != []
    modifies data, data.elements
    ensures data.Valid() && (data.elements == old(data.elements) || fresh(data.elements))
    ensures data.Contents() == SortedInsert(old(data.Contents())[..|old(data.Contents())| - 1], cur)
  {
    var removed := data.Dequeue();
    data.Enqueue(cur);
  }

  /** The final loop of `topK`: slots `last` down to 0 of the result vector
      receive the queue's elements in dequeue order, smallest first. A
      `last` at or past the vector's end fails on the first write. */
  method FillBackToFront(data: PQSortedArray, trueData: seq<DataPoint>, last: int)
      returns (r: Result<seq<DataPoint>>)
    requires data.Valid() && |data.Contents()| == |trueData| && |trueData| - 1 <= last
    modifies data
    ensures |trueData| <= last ==> r == Err(IndexOutOfRange)
    ensures last == |trueData| - 1 ==> r == Ok(old(data.Contents()))
  {
    ghost var ws := data.Contents();
    var result := trueData;
    var i := last;
    while i >= 0
      invariant -1 <= i <= last
      invariant data.Valid() && data.Repr == old(data.Repr)
      invariant |result| == |trueData|
      invariant |trueData| <= last ==> i == last
      invariant last == |trueData| - 1 ==> data.Contents() == ws[..i + 1] && result[i + 1..] == ws[i + 1..]
    {
      if i >= |result| {
        return Err(IndexOutOfRange);
      }
      assert last == |trueData| - 1 && ws[..i + 1][..i] == ws[..i];
      var removed := data.Dequeue();
      assert removed.value == ws[i] && data.Contents() == ws[..i];
      result := result[i := removed.value];
      assert result[i..] == [ws[i]] + result[i + 1..] && ws[i..] == [ws[i]] + ws[i + 1..];
      i := i - 1;
    }
    assert result == result[0..];
    return Ok(result);
  }

  /** `topK` as evidently intended: a bound below 1 selects nothing, and a
      stream shorter than the bound gives all of its records, largest first. */
  method TopKCorrected(stream: seq<DataPoint>, k: int) returns (r: seq<DataPoint>)
    ensures k < 1 ==> r == []
    ensures 1 <= k ==> r == WorkingSet(stream, k)
    ensures |r| == if k < 1 then 0 else if |stream| < k then |stream| else k
    ensures NonIncreasing(r)
    ensures multiset(r) <= multiset(stream) && Dominates(stream, r)
  {
    if k < 1 {
      return [];
    }
    var data, trueData, outcome := ReadStream(stream, k);
    WorkingSetShape(stream, k);
    WorkingSetDominates(stream, k);
    var filled := FillBackToFront(data, trueData, |trueData| - 1);
    r := filled.value;
  }

  /** A one-record stream with a bound of 5 fails as written. */
  method ShortStreamFails() returns (r: Result<seq<DataPoint>>)
    ensures r == Err(IndexOutOfRange)
  {
    r := TopK([DataPoint("", 1)], 5);
  }

  /** The same stream gives back its one record once corrected. */
  method ShortStreamCorrected() returns (r: seq<DataPoint>)
    ensures r == [DataPoint("", 1)]
  {
    r := TopKCorrected([DataPoint("", 1)], 5);
    assert [DataPoint("", 1)][..0] == [];
  }

  /** A one-record stream with a bound of 0 fails as written. */
  method ZeroBoundFails() returns (r: Result<seq<DataPoint>>)
    ensures r == Err(EmptyQueue)
  {
    r := TopK([DataPoint("", 1)], 0);
  }

  /** The same stream selects nothing once corrected. */
  method ZeroBoundCorrected() returns (r: seq<DataPoint>)
    ensures r == []
  {
    r := TopKCorrected([DataPoint("", 1)], 0);
  }

  /** A record at least as large as the front of a sorted buffer goes to the front. */
  lemma InsertLargest(s: seq<DataPoint>, x: DataPoint)
    requires s != [] ==> s[0].priority <= x.priority
    ensures SortedInsert(s, x) == [x] + s
  {
    assert s[..0] == [] && s[0..] == s;
  }

  /** One more record of `s` offered to the working set of its prefix. */
  lemma WorkingSetStep(s: seq<DataPoint>, i: int, k: int)
    requires 1 <= k && 0 <= i < |s|
    ensures WorkingSet(s[..i + 1], k) == Offer(WorkingSet(s[..i], k), s[i], k)
  {
    assert s[..i + 1][..i] == s[..i];
  }

  /** Four records whose priorities strictly increase, such as A1, B2, C3, D4. */
  ghost predicate Rising(s: seq<DataPoint>) {
    |s| == 4 && s[0].priority < s[1].priority < s[2].priority < s[3].priority
  }

  /** A record at least as large as every kept one, offered while there is room, goes to the front. */
  lemma OfferAdmitsFront(ws: seq<DataPoint>, cur: DataPoint, k: int)
    requires |ws| < k && (ws != [] ==> ws[0].priority <= cur.priority)
    ensures Offer(ws, cur, k) == [cur] + ws
  {
    InsertLargest(ws, cur);
  }

  /** A record larger than every kept one, offered to a full working set,
      evicts the last and goes to the front. */
  lemma OfferEvictsToFront(ws: seq<DataPoint>, cur: DataPoint, k: int)
    requires |ws| == k && ws != [] && ws[0].priority < cur.priority && ws[|ws| - 1].priority < cur.priority
    ensures Offer(ws, cur, k) == [cur] + ws[..|ws| - 1]
  {
    InsertLargest(ws[..|ws| - 1], cur);
  }

  /** The first two records of a rising stream, kept under any bound of at least 2. */
  lemma RisingPrefix(s: seq<DataPoint>, k: int)
    requires Rising(s) && 2 <= k
    ensures WorkingSet(s[..2], k) == [s[1], s[0]]
  {
    assert s[..0] == [];
    WorkingSetStep(s, 0, k);
    OfferAdmitsFront([], s[0], k);
    WorkingSetStep(s, 1, k);
    OfferAdmitsFront([s[0]], s[1], k);
  }

  /** With a bound of 2, the third record evicts the first. */
  lemma RisingTwoPrefix(s: seq<DataPoint>)
    requires Rising(s)
    ensures WorkingSet(s[..3], 2) == [s[2], s[1]]
  {
    RisingPrefix(s, 2);
    var w2 := [s[1], s[0]];
    WorkingSetStep(s, 2, 2);
    OfferEvictsToFront(w2, s[2], 2);
    assert [s[2]] + w2[..1] == [s[2], s[1]];
  }

  /** With a bound of 2, the third and fourth records each evict the smaller of the two kept. */
  lemma RisingTwo(s: seq<DataPoint>)
    requires Rising(s)
    ensures WorkingSet(s, 2) == [s[3], s[2]]
  {
    RisingTwoPrefix(s);
    var w3 := [s[2], s[1]];
    WorkingSetStep(s, 3, 2);
    OfferEvictsToFront(w3, s[3], 2);
    assert [s[3]] + w3[..1] == [s[3], s[2]];
    assert s[..4] == s;
  }

  /** With a bound of at least 3, the first three records are all kept. */
  lemma RisingThreePrefix(s: seq<DataPoint>, k: int)
    requires Rising(s) && 3 <= k
    ensures WorkingSet(s[..3], k) == [s[2], s[1], s[0]]
  {
    RisingPrefix(s, k);
    var w2 := [s[1], s[0]];
    WorkingSetStep(s, 2, k);
    OfferAdmitsFront(w2, s[2], k);
    assert [s[2]] + w2 == [s[2], s[1], s[0]];
  }

  /** With a bound of 3, the third record is admitted and the fourth evicts the first. */
  lemma RisingThree(s: seq<DataPoint>)
    requires Rising(s)
    ensures WorkingSet(s, 3) == [s[3], s[2], s[1]]
  {
    RisingThreePrefix(s, 3);
    var w3 := [s[2], s[1], s[0]];
    WorkingSetStep(s, 3, 3);
    OfferEvictsToFront(w3, s[3], 3);
    assert [s[3]] + w3[..2] == [s[3], s[2], s[1]];
    assert s[..4] == s;
  }

  /** With a bound of 4, every record is admitted. */
  lemma RisingFour(s: seq<DataPoint>)
    requires Rising(s)
    ensures WorkingSet(s, 4) == [s[3], s[2], s[1], s[0]]
  {
    RisingThreePrefix(s, 4);
    var w3 := [s[2], s[1], s[0]];
    WorkingSetStep(s, 3, 4);
    OfferAdmitsFront(w3, s[3], 4);
    assert [s[3]] + w3 == [s[3], s[2], s[1], s[0]];
    assert s[..4] == s;
  }

  /** `topK` on the hand-worked stream with the bounds 2, 3 and 4. */
  method HandWorkedTopK() returns (r2: Result<seq<DataPoint>>, r3: Result<seq<DataPoint>>, r4: Result<seq<DataPoint>>)
    ensures r2 == Ok([DataPoint("D", 4), DataPoint("C", 3)])
    ensures r3 == Ok([DataPoint("D", 4), DataPoint("C", 3), DataPoint("B", 2)])
    ensures r4 == Ok([DataPoint("D", 4), DataPoint("C", 3), DataPoint("B", 2), DataPoint("A", 1)])
  {
    var s := [DataPoint("A", 1), DataPoint("B", 2), DataPoint("C", 3), DataPoint("D", 4)];
    RisingTwo(s);
    RisingThree(s);
    RisingFour(s);
    r2 := TopK(s, 2);
    r3 := TopK(s, 3);
    r4 := TopK(s, 4);
  }
}
