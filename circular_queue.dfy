/**
 * The ingestion ring buffer: a fixed array of slots, a write counter and a read
 * counter that only grow, and a semaphore whose permits bound the number of
 * pending items. The semaphore is its permit count; an enqueue that would wait
 * for a permit is excluded by a precondition.
 */
module CircularQueue {
  import opened Wrappers

  lemma {:induction false} MulAtLeast(k: int, n: int)
    requires k >= 1 && n >= 0
    ensures k * n >= n
    decreases k
  {
    if k > 1 {
      MulAtLeast(k - 1, n);
      assert k * n == (k - 1) * n + n;
    }
  }

  /** Euclidean division leaves a unique remainder. */
  lemma ModUnique(x: int, q: int, r: int, n: int)
    requires n > 0 && 0 <= r < n && x == q * n + r
    ensures x % n == r
  {
    var k := x / n - q;
    assert k * n == r - x % n by {
      assert x == (x / n) * n + x % n;
      assert k * n == (x / n) * n - q * n;
    }
    if k >= 1 {
      MulAtLeast(k, n);
      assert false;
    } else if k <= -1 {
      MulAtLeast(-k, n);
      assert false;
    }
  }

  /** Distinct offsets below n from the same base land on distinct slots. */
  lemma SlotsDistinct(base: nat, n: nat, i: nat, j: nat)
    requires 0 <= i < j < n
    ensures (base + i) % n != (base + j) % n
  {
    var a, b := base + i, base + j;
    var qa, ra := a / n, a % n;
    assert a == qa * n + ra;
    if ra + (j - i) < n {
      ModUnique(b, qa, ra + (j - i), n);
    } else {
      assert b == (qa + 1) * n + (ra + (j - i) - n);
      ModUnique(b, qa + 1, ra + (j - i) - n, n);
    }
  }

  /** The slot that holds the k-th pending item when the read counter is `reading`. */
  function Slot(reading: nat, size: nat, k: nat): (r: nat)
    requires size > 0
  {
    (reading + 1 + k) % size
  }

  class CircularMemoryQueue<T> {
    const bufferSize: nat
    /** C#'s `default(T)`: what an unused slot holds. */
    const Default: T
    const buffer: array<T>
    var writingPosition: nat
    var readingPosition: nat
    /** The count of `_availableBufferPositions`. */
    var availablePermits: nat

    /** Every item ever enqueued, in order. */
    ghost var Enqueued: seq<T>
    /** The items enqueued and not yet dequeued, oldest first. */
    ghost var Contents: seq<T>

    ghost predicate Valid()
      reads this, buffer
    {
      && buffer.Length == bufferSize > 0
      && readingPosition <= writingPosition
      && writingPosition - readingPosition <= bufferSize
      && availablePermits + (writingPosition - readingPosition) == bufferSize
      && |Enqueued| == writingPosition
      && Contents == Enqueued[readingPosition..]
      && (forall k :: 0 <= k < |Contents| ==> buffer[Slot(readingPosition, bufferSize, k)] == Contents[k])
      && (forall k :: |Contents| <= k < bufferSize ==> buffer[Slot(readingPosition, bufferSize, k)] == Default)
    }

    constructor (bufferSize: nat, default: T)
      requires bufferSize > 0
      ensures Valid() && fresh(buffer)
      ensures this.bufferSize == bufferSize && Default == default
      ensures writingPosition == 0 && readingPosition == 0 && availablePermits == bufferSize
      ensures Enqueued == [] && Contents == []
    {
      this.bufferSize := bufferSize;
      Default := default;
      buffer := new T[bufferSize](_ => default);
      writingPosition, readingPosition := 0, 0;
      availablePermits := bufferSize;
      Enqueued, Contents := [], [];
    }

    function IsEmpty(): (r: bool)
      reads this, buffer
      requires Valid()
      ensures r <==> Contents == []
      ensures r <==> availablePermits == bufferSize
    {
      readingPosition == writingPosition
    }

    /** The corrected `IsFull`: every permit is taken. */
    function IsFull(): (r: bool)
      reads this, buffer
      requires Valid()
      ensures r <==> |Contents| == bufferSize
      ensures r <==> availablePermits == 0
    {
      writingPosition - readingPosition == bufferSize
    }

    /** The corrected `Count`: the number of pending items. */
    function Count(): (r: nat)
      reads this, buffer
      requires Valid()
      ensures r == |Contents| && r + availablePermits == bufferSize
    {
      writingPosition - readingPosition
    }

    method Enqueue(item: T)
      requires Valid()
      requires availablePermits > 0
      modifies this, buffer
      ensures Valid()
      ensures Enqueued == old(Enqueued) + [item]
      ensures Contents == old(Contents) + [item]
      ensures writingPosition == old(writingPosition) + 1 && readingPosition == old(readingPosition)
      ensures availablePermits == old(availablePermits) - 1
    {
      ghost var n, r := |Contents|, readingPosition;
      var position := (writingPosition + 1) % bufferSize;
      assert position == Slot(r, bufferSize, n);
      forall k | 0 <= k < bufferSize && k != n
        ensures Slot(r, bufferSize, k) != position
      {
        if k < n { SlotsDistinct(r + 1, bufferSize, k, n); }
        else { SlotsDistinct(r + 1, bufferSize, n, k); }
      }
      buffer[position] := item;
      availablePermits := availablePermits - 1;
      writingPosition := writingPosition + 1;
      Enqueued := Enqueued + [item];
      Contents := Contents + [item];
    }

    /** Takes the oldest item out of its slot, clears the slot and returns a permit. */
    method TakeOldest() returns (result: T)
      requires Valid() && Contents != []
      modifies this, buffer
      ensures Valid()
      ensures result == old(Contents)[0] == old(Enqueued)[old(readingPosition)]
      ensures Contents == old(Contents)[1..] && Enqueued == old(Enqueued)
      ensures readingPosition == old(readingPosition) + 1 && writingPosition == old(writingPosition)
      ensures availablePermits == old(availablePermits) + 1
      ensures buffer[Slot(old(readingPosition), bufferSize, 0)] == Default
      ensures forall j :: 0 <= j < bufferSize && j != Slot(old(readingPosition), bufferSize, 0) ==>
        buffer[j] == old(buffer[j])
    {
      ghost var r, n := readingPosition, bufferSize;
      var position := (readingPosition + 1) % bufferSize;
      assert position == Slot(r, n, 0);
      // Offset k after the dequeue is offset k + 1 before it; the cleared slot becomes the last offset.
      assert Slot(r + 1, n, n - 1) == position by {
        ModUnique(r + 1 + n, (r + 1) / n + 1, (r + 1) % n, n);
      }
      ghost var r' := r + 1;
      forall k | 0 <= k < n - 1
        ensures Slot(r', n, k) == Slot(r, n, k + 1) != position
      {
        SlotsDistinct(r + 1, n, 0, k + 1);
      }
      result := buffer[position];
      buffer[position] := Default;
      availablePermits := availablePermits + 1;
      readingPosition := readingPosition + 1;
      Contents := Contents[1..];
    }

    /** `Dequeue`: `default` on an empty queue, otherwise the oldest item. */
    method Dequeue() returns (result: T)
      requires Valid()
      modifies this, buffer
      ensures Valid()
      ensures old(Contents) == [] ==>
        && result == Default
        && Contents == old(Contents) && Enqueued == old(Enqueued)
        && readingPosition == old(readingPosition) && writingPosition == old(writingPosition)
        && availablePermits == old(availablePermits) && buffer[..] == old(buffer[..])
      ensures old(Contents) != [] ==>
        && result == old(Contents)[0] == old(Enqueued)[old(readingPosition)]
        && Contents == old(Contents)[1..] && Enqueued == old(Enqueued)
        && readingPosition == old(readingPosition) + 1 && writingPosition == old(writingPosition)
        && availablePermits == old(availablePermits) + 1
        && buffer[Slot(old(readingPosition), bufferSize, 0)] == Default
        && forall j :: 0 <= j < bufferSize && j != Slot(old(readingPosition), bufferSize, 0) ==> buffer[j] == old(buffer[j])
    {
      if IsEmpty() {
        return Default;
      }
      result := TakeOldest();
    }

    /** `TryDequeue`: false with `default` on an empty queue, otherwise true with the oldest item. */
    method TryDequeue() returns (ok: bool, result: T)
      requires Valid()
      modifies this, buffer
      ensures Valid()
      ensures ok <==> old(Contents) != []
      ensures !ok ==>
        && result == Default
        && Contents == old(Contents) && Enqueued == old(Enqueued)
        && readingPosition == old(readingPosition) && writingPosition == old(writingPosition)
        && availablePermits == old(availablePermits) && buffer[..] == old(buffer[..])
      ensures ok ==>
        && result == old(Contents)[0] == old(Enqueued)[old(readingPosition)]
        && Contents == old(Contents)[1..] && Enqueued == old(Enqueued)
        && readingPosition == old(readingPosition) + 1 && writingPosition == old(writingPosition)
        && availablePermits == old(availablePermits) + 1
        && buffer[Slot(old(readingPosition), bufferSize, 0)] == Default
        && forall j :: 0 <= j < bufferSize && j != Slot(old(readingPosition), bufferSize, 0) ==> buffer[j] == old(buffer[j])
    {
      result := Default;
      if IsEmpty() {
        return false, result;
      }
      result := TakeOldest();
      ok := true;
    }

    /** `Peek` reads the slot after the read counter: the next item, or `default` when empty. */
    function Peek(): (r: T)
      reads this, buffer
      requires Valid()
      ensures r == if Contents == [] then Default else Contents[0]
    {
      assert Slot(readingPosition, bufferSize, 0) == (readingPosition + 1) % bufferSize;
      buffer[(readingPosition + 1) % bufferSize]
    }
  }

  /** `IsFull` as written: `WritingPosition % ReadingPosition == bufferSize`. */
  function IsFullAsWritten(writingPosition: nat, readingPosition: nat, bufferSize: nat): (r: Result<bool, Exception>)
    ensures r.Failure? <==> readingPosition == 0
    ensures r.Failure? ==> r.error == DivideByZeroException
    ensures r == Success(true) ==> bufferSize < readingPosition
  {
    if readingPosition == 0 then Failure(DivideByZeroException)
    else Success(writingPosition % readingPosition == bufferSize)
  }

  /** `Count` as written: `WritingPosition % ReadingPosition`. */
  function CountAsWritten(writingPosition: nat, readingPosition: nat): (r: Result<int, Exception>)
    ensures r.Failure? <==> readingPosition == 0
    ensures r.Failure? ==> r.error == DivideByZeroException
    ensures r.Success? ==> 0 <= r.value < readingPosition
    ensures r.Success? && writingPosition < readingPosition ==> r.value == writingPosition
  {
    if readingPosition == 0 then Failure(DivideByZeroException)
    else Success(writingPosition % readingPosition)
  }

  /**
   * A queue of one slot holding one item is full, yet `IsFull` as written
   * divides by zero; after one more enqueue-dequeue round it is full again and
   * `IsFull`/`Count` as written report "not full" and 0 pending items.
   */
  method FullQueueCounterexample(x: int, y: int)
    returns (full: bool, isFullAsWritten: Result<bool, Exception>,
             fullAgain: bool, isFullLater: Result<bool, Exception>,
             count: nat, countAsWritten: Result<int, Exception>)
    ensures full && isFullAsWritten == Failure(DivideByZeroException)
    ensures fullAgain && count == 1
    ensures isFullLater == Success(false) && countAsWritten == Success(0)
  {
    var q := new CircularMemoryQueue<int>(1, 0);
    q.Enqueue(x);
    full := q.IsFull();
    isFullAsWritten := IsFullAsWritten(q.writingPosition, q.readingPosition, q.bufferSize);
    var _ := q.Dequeue();
    q.Enqueue(y);
    fullAgain := q.IsFull();
    count := q.Count();
    isFullLater := IsFullAsWritten(q.writingPosition, q.readingPosition, q.bufferSize);
    countAsWritten := CountAsWritten(q.writingPosition, q.readingPosition);
  }

  /** The k-th successful dequeue returns the k-th enqueued item, which `Peek` shows first. */
  method FifoScenario(x: int, y: int, z: int)
    returns (a: int, b: int, p: int, c: int, d: int, emptyAfter: bool)
    ensures a == x && b == y && p == z && c == z
    ensures d == 0 && emptyAfter
  {
    var q := new CircularMemoryQueue<int>(2, 0);
    q.Enqueue(x);
    q.Enqueue(y);
    a := q.Dequeue();
    q.Enqueue(z);
    var ok;
    ok, b := q.TryDequeue();
    p := q.Peek();
    c := q.Dequeue();
    ok, d := q.TryDequeue();
    emptyAfter := !ok && q.IsEmpty();
  }
}
