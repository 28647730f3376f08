/** The record stored by both priority queues, the errors their operations
    report, and the buffer growth step the two queues share. */
module DataPoints {

  /** A label (`name`) paired with an integer priority; queues order by priority only. */
  datatype DataPoint = DataPoint(name: string, priority: int)

  /** The error conditions the queues and their clients raise. */
  datatype Error =
    | EmptyQueue             // peek or dequeue on a queue with no elements
    | TooManyElements        // the fill count exceeds the allocated capacity
    | OutOfOrder(index: int) // the ordering invariant fails at this index
    | IndexOutOfRange        // a vector index at or past the vector's size

  datatype Result<T> = Ok(value: T) | Err(error: Error)

  /** The outcome of a consistency check. */
  datatype Outcome = Pass | Fail(error: Error)

  /** Capacity of a freshly constructed queue. */
  const InitialCapacity: nat := 10

  /** Every priority in `s` is at least `p`. */
  ghost predicate AllAtLeast(s: seq<DataPoint>, p: int) {
    forall j :: 0 <= j < |s| ==> p <= s[j].priority
  }

  /** Allocate a buffer of twice the capacity of `elements` and copy the
      first `numFilled` slots into it. */
  method Grow(elements: array<DataPoint>, numFilled: nat) returns (newElements: array<DataPoint>)
    requires numFilled <= elements.Length
    ensures fresh(newElements)
    ensures newElements.Length == 2 * elements.Length
    ensures newElements[..numFilled] == elements[..numFilled]
  {
    newElements := new DataPoint[2 * elements.Length];
    for i := 0 to numFilled
      invariant newElements[..i] == elements[..i]
    {
      newElements[i] := elements[i];
    }
  }
}
