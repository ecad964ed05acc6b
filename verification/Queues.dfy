/**
  The ring buffer behind both sender queues: entities/fifo_queue.c.
 */
module Queues {
  import opened Options

  // ---------------------------------------------------------------- bounded sequence

  /** fq_put on the abstract queue: a put on `capacity` elements is refused. */
  function Put<T>(capacity: nat, q: seq<T>, x: T): seq<T> {
    if |q| == capacity then q else q + [x]
  }

  datatype Op<T> = PutOp(x: T) | GetOp

  /** What a run of operations leaves, hands out and accepts. */
  datatype QueueRun<T> = QueueRun(left: seq<T>, got: seq<T>, accepted: seq<T>)

  function Drive<T>(capacity: nat, q: seq<T>, ops: seq<Op<T>>): QueueRun<T>
    decreases |ops|
  {
    if ops == [] then QueueRun(q, [], [])
    else match ops[0]
      case PutOp(x) =>
        var run := Drive(capacity, Put(capacity, q, x), ops[1..]);
        if |q| == capacity then run else run.(accepted := [x] + run.accepted)
      case GetOp =>
        if q == [] then Drive(capacity, q, ops[1..])
        else var run := Drive(capacity, q[1..], ops[1..]); run.(got := [q[0]] + run.got)
  }

  lemma FirstOut<T>(q: seq<T>, got: seq<T>, left: seq<T>, accepted: seq<T>)
    requires q != [] && got + left == q[1..] + accepted
    ensures ([q[0]] + got) + left == q + accepted
  {
    assert ([q[0]] + got) + left == [q[0]] + (got + left);
    assert q + accepted == [q[0]] + (q[1..] + accepted);
  }

  /** Over any interleaving of puts and gets, what comes out followed by what is left is
      what was there followed by what was accepted, in insertion order; and the buffer
      never holds more than its capacity. */
  lemma {:induction false} FirstInFirstOut<T>(capacity: nat, q: seq<T>, ops: seq<Op<T>>)
    requires |q| <= capacity
    ensures var run := Drive(capacity, q, ops);
      && run.got + run.left == q + run.accepted
      && |run.left| <= capacity
    decreases |ops|
  {
    if ops != [] {
      match ops[0]
      case PutOp(x) =>
        FirstInFirstOut(capacity, Put(capacity, q, x), ops[1..]);
        if |q| < capacity {
          var run := Drive(capacity, q + [x], ops[1..]);
          assert (q + [x]) + run.accepted == q + ([x] + run.accepted);
        }
      case GetOp =>
        if q == [] {
          FirstInFirstOut(capacity, q, ops[1..]);
        } else {
          FirstInFirstOut(capacity, q[1..], ops[1..]);
          var run := Drive(capacity, q[1..], ops[1..]);
          FirstOut(q, run.got, run.left, run.accepted);
        }
    }
  }

  // ---------------------------------------------------------------- ring buffer

  class FIFOQueue<T(==)> {
    var head: nat
    var tail: nat
    var size: nat
    var objs: array<Option<T>>

    /** The elements held, oldest first. */
    ghost var Contents: seq<T>

    /** The slot `k` places after `tail`, wrapping around. */
    ghost function Slot(k: nat): int
      reads this
    {
      if tail + k < size then tail + k else tail + k - size
    }

    ghost predicate Valid()
      reads this, objs
    {
      && size >= 1 && objs.Length == size
      && tail < size && |Contents| < size
      && head == Slot(|Contents|)
      && forall k | 0 <= k < |Contents| :: objs[Slot(k)] == Some(Contents[k])
    }

    ghost function Capacity(): nat
      reads this
      requires size >= 1
    {
      size - 1
    }

    /** fq_construct. */
    constructor (size: nat)
      requires size >= 1
      ensures Valid() && fresh(objs)
      ensures Contents == [] && this.size == size
    {
      this.head, this.tail, this.size := 0, 0, size;
      this.objs := new Option<T>[size](_ => None);
      this.Contents := [];
    }

    /** fq_is_empty. */
    predicate IsEmpty()
      reads this
    {
      head == tail
    }

    lemma EmptyWhenNoContents()
      requires Valid()
      ensures IsEmpty() <==> Contents == []
    {
    }

    /** fq_put: refused (-1) exactly when size - 1 elements are held. */
    method Enqueue(x: T) returns (ret: int)
      requires Valid()
      modifies this, objs
      ensures Valid() && objs == old(objs) && size == old(size)
      ensures Contents == Put(Capacity(), old(Contents), x)
      ensures ret == if |old(Contents)| == Capacity() then -1 else 0
    {
      Successor(head, size);
      if (head + 1) % size == tail {
        return -1;
      }
      objs[head] := Some(x);
      head := (head + 1) % size;
      Contents := Contents + [x];
      return 0;
    }

    /** fq_get: NULL exactly when nothing is held, otherwise the oldest element. */
    method Dequeue() returns (obj: Option<T>)
      requires Valid()
      modifies this, objs
      ensures Valid() && objs == old(objs) && size == old(size)
      ensures old(Contents) == [] ==> obj == None && Contents == []
      ensures old(Contents) != [] ==> obj == Some(old(Contents)[0]) && Contents == old(Contents)[1..]
    {
      if IsEmpty() {
        return None;
      }
      Successor(tail, size);
      obj := objs[tail];
      assert Slot(0) == tail;
      objs[tail] := None;
      tail := (tail + 1) % size;
      Contents := Contents[1..];
    }
  }

  lemma Successor(i: nat, size: nat)
    requires i < size
    ensures (i + 1) % size == if i + 1 < size then i + 1 else 0
  {
  }

  /** Any interleaving of the real operations behaves as the bounded sequence. */
  method DriveQueue<T(==)>(q: FIFOQueue<T>, ops: seq<Op<T>>) returns (got: seq<T>)
    requires q.Valid()
    modifies q, q.objs
    ensures q.Valid()
    ensures q.Contents == Drive(q.Capacity(), old(q.Contents), ops).left
    ensures got == Drive(q.Capacity(), old(q.Contents), ops).got
  {
    got := [];
    ghost var whole := Drive(q.Capacity(), q.Contents, ops);
    for i := 0 to |ops|
      invariant q.Valid() && q.objs == old(q.objs) && q.size == old(q.size)
      invariant Drive(q.Capacity(), q.Contents, ops[i..]).left == whole.left
      invariant got + Drive(q.Capacity(), q.Contents, ops[i..]).got == whole.got
    {
      assert ops[i..][1..] == ops[i + 1..];
      match ops[i]
      case PutOp(x) =>
        var _ := q.Enqueue(x);
      case GetOp =>
        var obj := q.Dequeue();
        if obj.Some? {
          got := got + [obj.value];
        }
    }
  }
}
