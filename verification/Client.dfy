/** A connected client and its queue of serialised responses. */
module Clients {
  import opened Bytes

  /** A piece of data to send, and whether the connection is to be closed behind it. */
  datatype SendQueueItem = SendQueueItem(data: bytes, disconnect: bool)

  type Queue = seq<SendQueueItem>

  datatype QueueOp = Add(item: SendQueueItem) | Dequeue

  /** One operation: the item it takes off the queue, if any, and the queue it leaves. */
  function QueueStep(q: Queue, op: QueueOp): (Queue, Queue) {
    match op
    case Add(item) => ([], q + [item])
    case Dequeue => if q == [] then ([], []) else ([q[0]], q[1..])
  }

  /** What a run of operations takes off the queue, and the queue it leaves. */
  function QueueRun(q: Queue, ops: seq<QueueOp>): (Queue, Queue)
    decreases |ops|
  {
    if ops == [] then ([], q)
    else
      var (taken, q') := QueueStep(q, ops[0]);
      var (later, end) := QueueRun(q', ops[1..]);
      (taken + later, end)
  }

  function Added(ops: seq<QueueOp>): Queue {
    if ops == [] then []
    else (match ops[0] case Add(item) => [item] case Dequeue => []) + Added(ops[1..])
  }

  /** First in, first out: the items taken off, followed by those still queued, are the items
      that were queued, followed by those added, in order. Nothing is lost or duplicated. */
  lemma {:induction false} FirstInFirstOut(q: Queue, ops: seq<QueueOp>)
    ensures QueueRun(q, ops).0 + QueueRun(q, ops).1 == q + Added(ops)
    decreases |ops|
  {
    if ops != [] {
      var (taken, q') := QueueStep(q, ops[0]);
      FirstInFirstOut(q', ops[1..]);
      var (later, end) := QueueRun(q', ops[1..]);
      assert (taken + later) + end == taken + (later + end) == taken + (q' + Added(ops[1..]));
      match ops[0]
      case Add(item) =>
        assert taken + (q' + Added(ops[1..])) == q + ([item] + Added(ops[1..]));
      case Dequeue =>
        assert taken + (q' + Added(ops[1..])) == (taken + q') + Added(ops[1..]);
        assert taken + q' == q;
    }
  }

  function Dequeues(ops: seq<QueueOp>): nat {
    if ops == [] then 0 else (if ops[0].Dequeue? then 1 else 0) + Dequeues(ops[1..])
  }

  /** Every dequeue takes an item off while there is one: a run that starts with enough items takes the
      oldest ones, one for each dequeue, and leaves the others. */
  lemma {:induction false} OldestAreTaken(q: Queue, ops: seq<QueueOp>)
    requires Dequeues(ops) <= |q|
    ensures QueueRun(q, ops) == (q[..Dequeues(ops)], q[Dequeues(ops)..] + Added(ops))
    decreases |ops|
  {
    if ops == [] {
      assert q[..0] == [] && q[0..] + [] == q;
    } else {
      var (taken, q') := QueueStep(q, ops[0]);
      var n := Dequeues(ops[1..]);
      OldestAreTaken(q', ops[1..]);
      match ops[0]
      case Add(item) =>
        assert q'[..n] == q[..n] && [] + q[..n] == q[..n];
        assert q'[n..] + Added(ops[1..]) == q[n..] + ([item] + Added(ops[1..]));
      case Dequeue =>
        assert taken + q'[..n] == q[..n + 1] && q'[n..] == q[n + 1..] && [] + Added(ops[1..]) == Added(ops[1..]);
    }
  }

  class Client {
    const socketDesc: int
    var sendQueue: Queue

    constructor (fd: int)
      ensures socketDesc == fd && sendQueue == []
    {
      socketDesc, sendQueue := fd, [];
    }

    method AddToSendQueue(item: SendQueueItem)
      modifies this
      ensures ([], sendQueue) == QueueStep(old(sendQueue), Add(item))
      ensures sendQueue == old(sendQueue) + [item]
    {
      sendQueue := sendQueue + [item];
    }

    method SendQueueSize() returns (n: nat)
      ensures n == |sendQueue|
    {
      n := |sendQueue|;
    }

    /** The oldest item; None stands for a null pointer. */
    method NextInSendQueue() returns (item: Option<SendQueueItem>)
      ensures item == if sendQueue == [] then None else Some(sendQueue[0])
    {
      if sendQueue == [] {
        return None;
      }
      return Some(sendQueue[0]);
    }

    /** Drops the oldest item, the one `NextInSendQueue` returns. */
    method DequeueFromSendQueue()
      modifies this
      ensures sendQueue == QueueStep(old(sendQueue), Dequeue).1
      ensures sendQueue == if old(sendQueue) == [] then [] else old(sendQueue)[1..]
    {
      var item := NextInSendQueue();
      if item.Some? {
        sendQueue := sendQueue[1..];
      }
    }

    method ClearSendQueue()
      modifies this
      ensures sendQueue == []
    {
      while sendQueue != []
        decreases |sendQueue|
      {
        sendQueue := sendQueue[1..];
      }
    }
  }
}
