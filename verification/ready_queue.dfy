/** The FIFO of threads in mp5/queue.H: a chain of nodes, each holding one
    thread pointer (possibly NULL) and the next node. The thread pointers
    become `Option<Thread>`; a thread is known by its id. */
module ReadyQueue {
  import opened Common

  datatype Thread = Thread(id: int)

  /** One node: `t_head` and `next`. */
  datatype Queue = Node(head: Option<Thread>, next: Option<Queue>)

  /** The node invariant: a node without a thread has no successor. */
  predicate Valid(q: Queue) {
    && (q.head.None? ==> q.next.None?)
    && (q.next.Some? ==> Valid(q.next.value))
  }

  /** The threads in the chain, front first. */
  function Elements(q: Queue): seq<Thread> {
    (if q.head.Some? then [q.head.value] else [])
    + (if q.next.Some? then Elements(q.next.value) else [])
  }

  function Contents(t: Option<Thread>): seq<Thread> {
    if t.Some? then [t.value] else []
  }

  /** `ReadyQueue()`: no thread. */
  function Empty(): (q: Queue)
    ensures Valid(q) && Elements(q) == []
  {
    Node(None, None)
  }

  /** `ReadyQueue(thread)`: that thread alone (nothing, if it is NULL). */
  function Single(t: Option<Thread>): (q: Queue)
    ensures Valid(q) && Elements(q) == Contents(t)
  {
    Node(t, None)
  }

  /** enqueue: an empty node takes the thread; otherwise it goes to the
      node after the last, a fresh one if need be. */
  function Enqueue(q: Queue, t: Option<Thread>): (r: Queue)
    ensures Valid(q) ==> Valid(r)
    ensures Valid(q) ==> Elements(r) == Elements(q) + Contents(t)
  {
    if q.head.None? then Node(t, q.next)
    else if q.next.None? then Node(q.head, Some(Single(t)))
    else Node(q.head, Some(Enqueue(q.next.value, t)))
  }

  /** What dequeue returns, and the queue after it. */
  datatype Taken = Taken(thread: Option<Thread>, queue: Queue)

  /** dequeue: NULL from an empty queue, which is left as it is; otherwise
      the front thread, with the successor's contents moved forward. */
  function Dequeue(q: Queue): (r: Taken)
    ensures q.head.None? ==> r == Taken(None, q)
    ensures Valid(q) ==> Valid(r.queue)
    ensures Valid(q) && Elements(q) == [] ==> r == Taken(None, q)
    ensures Valid(q) && Elements(q) != [] ==>
              r.thread == Some(Elements(q)[0]) && Elements(r.queue) == Elements(q)[1..]
  {
    if q.head.None? then Taken(None, q)
    else if q.next.None? then Taken(q.head, Node(None, None))
    else Taken(q.head, Node(q.next.value.head, q.next.value.next))
  }

  /** A thread put into an empty queue is the one taken out, and the queue
      is empty again. */
  lemma EnqueueDequeue(t: Thread)
    ensures Dequeue(Enqueue(Empty(), Some(t))) == Taken(Some(t), Empty())
  {
  }

  /** Threads leave in the order they arrived: enqueueing onto a non-empty
      queue does not change which thread dequeue returns. */
  lemma EnqueueKeepsFront(q: Queue, t: Thread)
    requires Valid(q) && Elements(q) != []
    ensures Dequeue(Enqueue(q, Some(t))).thread == Dequeue(q).thread
    ensures Elements(Dequeue(Enqueue(q, Some(t))).queue) == Elements(Dequeue(q).queue) + [t]
  {
    var r := Enqueue(q, Some(t));
    var xs := Elements(q);
    assert Contents(Some(t)) == [t];
    assert Elements(r) == xs + [t];
    assert (xs + [t])[0] == xs[0];
    assert (xs + [t])[1..] == xs[1..] + [t];
  }
}
