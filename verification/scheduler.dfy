/** The FIFO scheduler of mp6/scheduler.C: a ready queue with its separate
    count `queueSize`, and an optional blocking disk whose own queue of
    waiting threads is served first once the disk is ready. Interrupt
    toggling and the context switch are not modelled; the disk's readiness
    is an argument. */
module Scheduler {
  import opened Common
  import RQ = ReadyQueue

  type Thread = RQ.Thread

  /** The part of a blocking disk the scheduler reads: its queue of waiting
      threads and the count `queueSize_disk`. */
  datatype Disk = Disk(queue: RQ.Queue, size: int)

  datatype State = State(ready: RQ.Queue, size: int, disk: Option<Disk>)

  /** Each queue is well formed and each count is its queue's length. */
  predicate Valid(s: State) {
    && RQ.Valid(s.ready) && s.size == |RQ.Elements(s.ready)|
    && (s.disk.Some? ==>
          RQ.Valid(s.disk.value.queue) && s.disk.value.size == |RQ.Elements(s.disk.value.queue)|)
  }

  /** The constructor: nothing ready and no disk. */
  function New(): (s: State)
    ensures Valid(s) && s.size == 0 && s.disk.None? && RQ.Elements(s.ready) == []
  {
    State(RQ.Empty(), 0, None)
  }

  /** resume: the thread joins the tail of the ready queue and the count
      goes up by one. */
  function Resume(s: State, t: Thread): (r: State)
    ensures r.size == s.size + 1 && r.disk == s.disk
    ensures RQ.Valid(s.ready) ==> RQ.Elements(r.ready) == RQ.Elements(s.ready) + [t]
    ensures Valid(s) ==> Valid(r)
  {
    State(RQ.Enqueue(s.ready, Some(t)), s.size + 1, s.disk)
  }

  /** add does what resume does. */
  function Add(s: State, t: Thread): (r: State)
    ensures r.size == s.size + 1 && r.disk == s.disk
    ensures RQ.Valid(s.ready) ==> RQ.Elements(r.ready) == RQ.Elements(s.ready) + [t]
    ensures Valid(s) ==> Valid(r)
  {
    Resume(s, t)
  }

  /** add_disk: the disk is attached; the ready queue is untouched. */
  function AddDisk(s: State, d: Disk): (r: State)
    ensures r.disk == Some(d) && r.ready == s.ready && r.size == s.size
    ensures Valid(s) && RQ.Valid(d.queue) && d.size == |RQ.Elements(d.queue)| ==> Valid(r)
  {
    s.(disk := Some(d))
  }

  /** The thread yield dispatches to (NULL when a count overstates its
      queue) and the state it leaves. */
  datatype Dispatch = Dispatch(thread: Option<Thread>, state: State)

  /** yield: with a ready disk that has waiting threads, the first of them
      runs and only the disk's queue and count change; otherwise the ready
      queue must be non-empty by its count (the source asserts it) and its
      first-in thread runs. */
  function Yield(s: State, diskReady: bool): (r: Result<Dispatch>)
    ensures (s.disk.Some? && diskReady && s.disk.value.size != 0) ==>
              var d := s.disk.value;
              var taken := RQ.Dequeue(d.queue);
              r == Ok(Dispatch(taken.thread, s.(disk := Some(Disk(taken.queue, d.size - 1)))))
    ensures !(s.disk.Some? && diskReady && s.disk.value.size != 0) ==>
              (r.Err? <==> s.size <= 0)
    ensures r.Err? ==> r.error == AssertionFailed
    ensures !(s.disk.Some? && diskReady && s.disk.value.size != 0) && r.Ok? ==>
              && r.value.state.disk == s.disk
              && r.value.state.size == s.size - 1
              && r.value.thread == RQ.Dequeue(s.ready).thread
              && r.value.state.ready == RQ.Dequeue(s.ready).queue
    ensures Valid(s) && r.Ok? ==> Valid(r.value.state) && r.value.thread.Some?
  {
    if s.disk.Some? && diskReady && s.disk.value.size != 0 then
      var d := s.disk.value;
      var taken := RQ.Dequeue(d.queue);
      Ok(Dispatch(taken.thread, s.(disk := Some(Disk(taken.queue, d.size - 1)))))
    else if s.size <= 0 then Err(AssertionFailed)
    else
      var taken := RQ.Dequeue(s.ready);
      Ok(Dispatch(taken.thread, s.(ready := taken.queue, size := s.size - 1)))
  }

  /** Without a ready disk, yield runs threads in the order resume queued them. */
  lemma YieldIsFifo(s: State, diskReady: bool, t: Thread)
    requires Valid(s) && s.size > 0
    requires !(s.disk.Some? && diskReady && s.disk.value.size != 0)
    ensures Yield(Resume(s, t), diskReady).value.thread == Yield(s, diskReady).value.thread
    ensures RQ.Elements(Yield(Resume(s, t), diskReady).value.state.ready)
            == RQ.Elements(Yield(s, diskReady).value.state.ready) + [t]
  {
    RQ.EnqueueKeepsFront(s.ready, t);
  }

  /** The number of threads in xs with the given id. */
  function Matches(xs: seq<Thread>, id: int): (c: nat)
    ensures c <= |xs|
  {
    if |xs| == 0 then 0
    else Matches(xs[..|xs| - 1], id) + (if xs[|xs| - 1].id == id then 1 else 0)
  }

  /** The threads of xs with other ids, in their order. */
  function Keep(xs: seq<Thread>, id: int): (ys: seq<Thread>)
    ensures |ys| + Matches(xs, id) == |xs|
  {
    if |xs| == 0 then []
    else
      var last := xs[|xs| - 1];
      Keep(xs[..|xs| - 1], id) + (if last.id != id then [last] else [])
  }

  /** Keep drops exactly the threads with the id: every other thread keeps
      its multiplicity. */
  lemma {:induction false} KeepCounts(xs: seq<Thread>, id: int, x: Thread)
    requires x.id != id
    ensures multiset(Keep(xs, id))[x] == multiset(xs)[x]
    decreases |xs|
  {
    if |xs| > 0 {
      var last := xs[|xs| - 1];
      assert xs == xs[..|xs| - 1] + [last];
      KeepCounts(xs[..|xs| - 1], id, x);
    }
  }

  /** The ready queue after the loop has looked at the first j threads of
      q: the unseen ones, then the kept ones in the order they were put back. */
  function After(q: seq<Thread>, id: int, j: nat): seq<Thread>
    requires j <= |q|
  {
    q[j..] + Keep(q[..j], id)
  }

  /** The number of iterations the loop makes from iteration j: it stops at
      the first m for which m reaches the count, that is, the length less
      the matches among the first m threads. */
  function StopAt(q: seq<Thread>, id: int, j: nat): (m: nat)
    requires j <= |q|
    ensures j <= m <= |q|
    ensures m >= |q| - Matches(q[..m], id)
    decreases |q| - j
  {
    if j >= |q| - Matches(q[..j], id) then j else StopAt(q, id, j + 1)
  }

  /** The loop state: the ready queue and the count. */
  datatype Ready = Ready(queue: RQ.Queue, size: int)

  /** terminate's loop: pos counts iterations against the shrinking count;
      each iteration dequeues the front thread and either drops it (same
      id, count down by one) or enqueues it again. */
  function TerminateLoop(q: RQ.Queue, size: int, pos: nat, id: int): (r: Ready)
    requires RQ.Valid(q) && size == |RQ.Elements(q)|
    ensures RQ.Valid(r.queue) && r.size == |RQ.Elements(r.queue)|
    ensures r.size <= size
    decreases size - pos
  {
    if pos >= size then Ready(q, size)
    else
      var taken := RQ.Dequeue(q);
      var top := taken.thread.value;
      if top.id == id then TerminateLoop(taken.queue, size - 1, pos + 1, id)
      else TerminateLoop(RQ.Enqueue(taken.queue, Some(top)), size, pos + 1, id)
  }

  /** The same loop on the sequence of queued threads. */
  function LoopOnThreads(xs: seq<Thread>, pos: nat, id: int): (r: seq<Thread>)
    ensures |r| <= |xs|
    decreases |xs| - pos
  {
    if pos >= |xs| then xs
    else if xs[0].id == id then LoopOnThreads(xs[1..], pos + 1, id)
    else LoopOnThreads(xs[1..] + [xs[0]], pos + 1, id)
  }

  /** The queue loop does to the threads what the sequence loop does. */
  lemma {:induction false} LoopOnQueue(q: RQ.Queue, size: int, pos: nat, id: int)
    requires RQ.Valid(q) && size == |RQ.Elements(q)|
    ensures RQ.Elements(TerminateLoop(q, size, pos, id).queue) == LoopOnThreads(RQ.Elements(q), pos, id)
    decreases size - pos
  {
    var xs := RQ.Elements(q);
    if pos < size {
      var taken := RQ.Dequeue(q);
      assert taken.thread == Some(xs[0]) && RQ.Elements(taken.queue) == xs[1..];
      if xs[0].id == id {
        assert TerminateLoop(q, size, pos, id) == TerminateLoop(taken.queue, size - 1, pos + 1, id);
        LoopOnQueue(taken.queue, size - 1, pos + 1, id);
      } else {
        var back := RQ.Enqueue(taken.queue, Some(xs[0]));
        assert RQ.Contents(Some(xs[0])) == [xs[0]];
        assert RQ.Elements(back) == xs[1..] + [xs[0]];
        assert TerminateLoop(q, size, pos, id) == TerminateLoop(back, size, pos + 1, id);
        LoopOnQueue(back, size, pos + 1, id);
      }
    }
  }

  lemma PrefixStep(q: seq<Thread>, id: int, j: nat)
    requires j < |q|
    ensures q[..j + 1][..j] == q[..j] && q[..j + 1][j] == q[j]
    ensures Matches(q[..j + 1], id) == Matches(q[..j], id) + (if q[j].id == id then 1 else 0)
    ensures Keep(q[..j + 1], id) == Keep(q[..j], id) + (if q[j].id != id then [q[j]] else [])
  {
    assert q[..j + 1][..j] == q[..j];
  }

  /** PrefixStep, stated from the longer prefix. */
  lemma PrefixLast(q: seq<Thread>, id: int, j: nat)
    requires 0 < j <= |q|
    ensures q[..j][..j - 1] == q[..j - 1] && q[..j][j - 1] == q[j - 1]
    ensures Matches(q[..j], id) == Matches(q[..j - 1], id) + (if q[j - 1].id == id then 1 else 0)
    ensures Keep(q[..j], id) == Keep(q[..j - 1], id) + (if q[j - 1].id != id then [q[j - 1]] else [])
  {
    assert q[..j][..j - 1] == q[..j - 1];
  }

  lemma AfterLength(q: seq<Thread>, id: int, j: nat)
    requires j <= |q|
    ensures |After(q, id, j)| == |q| - Matches(q[..j], id)
  {
  }

  /** One iteration turns After(q, id, j) into After(q, id, j + 1). */
  lemma AfterStep(q: seq<Thread>, id: int, j: nat)
    requires j < |q|
    ensures After(q, id, j) != [] && After(q, id, j)[0] == q[j]
    ensures After(q, id, j)[1..] + (if q[j].id != id then [q[j]] else []) == After(q, id, j + 1)
    ensures Matches(q[..j + 1], id) == Matches(q[..j], id) + (if q[j].id == id then 1 else 0)
  {
    PrefixStep(q, id, j);
    assert After(q, id, j)[1..] == q[j + 1..] + Keep(q[..j], id);
  }

  /** The loop from iteration j, started on After(q, id, j), ends on
      After(q, id, StopAt(q, id, j)). */
  lemma {:induction false} LoopFollows(q: seq<Thread>, id: int, j: nat)
    requires j <= |q|
    ensures LoopOnThreads(After(q, id, j), j, id) == After(q, id, StopAt(q, id, j))
    decreases |q| - j
  {
    var xs := After(q, id, j);
    AfterLength(q, id, j);
    if j < |xs| {
      AfterStep(q, id, j);
      var next := if q[j].id == id then xs[1..] else xs[1..] + [xs[0]];
      assert next == After(q, id, j + 1);
      assert LoopOnThreads(xs, j, id) == LoopOnThreads(next, j + 1, id);
      LoopFollows(q, id, j + 1);
    }
  }

  /** What terminate leaves: the threads the loop did not reach, then the
      reached ones that were put back. */
  lemma {:induction false} TerminateResult(s: State, id: int)
    requires Valid(s)
    ensures var q := RQ.Elements(s.ready);
            var m := StopAt(q, id, 0);
            RQ.Elements(TerminateLoop(s.ready, s.size, 0, id).queue) == After(q, id, m)
  {
    var q := RQ.Elements(s.ready);
    assert q[..0] == [] && q[0..] == q;
    assert After(q, id, 0) == q;
    LoopOnQueue(s.ready, s.size, 0, id);
    LoopFollows(q, id, 0);
  }

  /** terminate: the loop over the ready queue, started at pos 0 with the
      current count. The last kept thread ends up in front, and only the
      matches among the threads the loop reached are removed. */
  function Terminate(s: State, t: Thread): (r: State)
    requires Valid(s)
    ensures Valid(r) && r.disk == s.disk
    ensures var q := RQ.Elements(s.ready);
            RQ.Elements(r.ready) == After(q, t.id, StopAt(q, t.id, 0))
  {
    var loop := TerminateLoop(s.ready, s.size, 0, t.id);
    TerminateResult(s, t.id);
    State(loop.queue, loop.size, s.disk)
  }

  /** terminate never loses a thread of another id: each is queued as
      often afterwards as before. */
  lemma TerminateKeepsOthers(s: State, t: Thread, x: Thread)
    requires Valid(s) && x.id != t.id
    ensures multiset(RQ.Elements(Terminate(s, t).ready))[x] == multiset(RQ.Elements(s.ready))[x]
  {
    var q := RQ.Elements(s.ready);
    AfterCounts(q, t.id, StopAt(q, t.id, 0), x);
  }

  /** The loop state holds every thread of another id as often as q does. */
  lemma AfterCounts(q: seq<Thread>, id: int, m: nat, x: Thread)
    requires m <= |q| && x.id != id
    ensures multiset(After(q, id, m))[x] == multiset(q)[x]
  {
    KeepCounts(q[..m], id, x);
    assert q == q[..m] + q[m..];
  }

  /** The loop continues through every iteration from j up to m. */
  lemma {:induction false} StopAtSkip(q: seq<Thread>, id: int, j: nat, m: nat)
    requires j <= m <= |q|
    requires forall i :: j <= i < m ==> i < |q| - Matches(q[..i], id)
    ensures StopAt(q, id, j) == StopAt(q, id, m)
    decreases m - j
  {
    if j < m {
      StopAtSkip(q, id, j + 1, m);
    }
  }

  lemma {:induction false} NoMatches(q: seq<Thread>, id: int, j: nat)
    requires j <= |q| && forall i :: 0 <= i < |q| ==> q[i].id != id
    ensures Matches(q[..j], id) == 0 && Keep(q[..j], id) == q[..j]
    decreases j
  {
    if j > 0 {
      NoMatches(q, id, j - 1);
      PrefixLast(q, id, j);
      assert q[..j - 1] + [q[j - 1]] == q[..j];
    }
  }

  /** terminate of a thread whose id is not queued rotates the whole queue
      once and leaves contents, order and count as they were. */
  lemma TerminateAbsent(s: State, t: Thread)
    requires Valid(s)
    requires forall i :: 0 <= i < |RQ.Elements(s.ready)| ==> RQ.Elements(s.ready)[i].id != t.id
    ensures RQ.Elements(Terminate(s, t).ready) == RQ.Elements(s.ready)
    ensures Terminate(s, t).size == s.size
  {
    var q := RQ.Elements(s.ready);
    forall i | 0 <= i < |q| ensures i < |q| - Matches(q[..i], t.id) {
      NoMatches(q, t.id, i);
    }
    StopAtSkip(q, t.id, 0, |q|);
    NoMatches(q, t.id, |q|);
    assert q[..|q|] == q;
  }

  lemma ExtendTail(q: seq<Thread>, k: nat, i: nat)
    requires k < i < |q|
    ensures q[..k] + q[k + 1..i] + [q[i]] == q[..k] + q[k + 1..i + 1]
  {
    assert q[k + 1..i] + [q[i]] == q[k + 1..i + 1];
  }

  lemma {:induction false} OneMatch(q: seq<Thread>, id: int, k: nat, j: nat)
    requires k < |q| && q[k].id == id
    requires forall i :: 0 <= i < |q| && i != k ==> q[i].id != id
    requires j <= |q|
    ensures Matches(q[..j], id) == (if j > k then 1 else 0)
    ensures Keep(q[..j], id) == (if j > k then q[..k] + q[k + 1..j] else q[..j])
    decreases j
  {
    if j > 0 {
      OneMatch(q, id, k, j - 1);
      PrefixLast(q, id, j);
      if j - 1 > k {
        ExtendTail(q, k, j - 1);
      } else if j - 1 < k {
        assert q[..j - 1] + [q[j - 1]] == q[..j];
      } else {
        assert q[..k] + q[k + 1..j] == q[..k];
      }
    }
  }

  /** Where the loop stops when exactly q[k] has the id: after n - 1
      iterations, unless q[k] is the last thread, which it reaches only in
      iteration n. */
  lemma {:induction false} UniqueStop(q: seq<Thread>, id: int, k: nat)
    requires k < |q| && q[k].id == id
    requires forall i :: 0 <= i < |q| && i != k ==> q[i].id != id
    ensures StopAt(q, id, 0) == if k == |q| - 1 then |q| else |q| - 1
  {
    var n := |q|;
    forall i | 0 <= i < n - 1 ensures i < n - Matches(q[..i], id) {
      OneMatch(q, id, k, i);
    }
    StopAtSkip(q, id, 0, n - 1);
    OneMatch(q, id, k, n - 1);
    if k == n - 1 {
      OneMatch(q, id, k, n);
      assert StopAt(q, id, n - 1) == StopAt(q, id, n);
    }
  }

  /** The queue terminate leaves when exactly q[k] has the id: the last
      thread first, unless it is q[k], then the others in their order. */
  function Removed(q: seq<Thread>, k: nat): (r: seq<Thread>)
    requires k < |q|
    ensures |r| == |q| - 1
    ensures multiset(r) == multiset(q) - multiset{q[k]}
  {
    var n := |q|;
    if k == n - 1 then
      assert q == q[..n - 1] + [q[n - 1]];
      q[..n - 1]
    else
      assert q == q[..k] + [q[k]] + q[k + 1..n - 1] + [q[n - 1]];
      [q[n - 1]] + q[..k] + q[k + 1..n - 1]
  }

  lemma UniqueAfter(q: seq<Thread>, id: int, k: nat)
    requires k < |q| && q[k].id == id
    requires forall i :: 0 <= i < |q| && i != k ==> q[i].id != id
    ensures After(q, id, StopAt(q, id, 0)) == Removed(q, k)
  {
    UniqueStop(q, id, k);
    if k == |q| - 1 {
      UniqueLast(q, id, k);
    } else {
      UniqueInner(q, id, k);
    }
  }

  lemma UniqueLast(q: seq<Thread>, id: int, k: nat)
    requires k == |q| - 1 && q[k].id == id
    requires forall i :: 0 <= i < |q| && i != k ==> q[i].id != id
    ensures After(q, id, |q|) == Removed(q, k)
  {
    var n := |q|;
    OneMatch(q, id, k, n);
    assert Keep(q[..n], id) == q[..k] + q[k + 1..n];
    assert q[n..] == [] && q[k + 1..n] == [];
  }

  lemma UniqueInner(q: seq<Thread>, id: int, k: nat)
    requires k < |q| - 1 && q[k].id == id
    requires forall i :: 0 <= i < |q| && i != k ==> q[i].id != id
    ensures After(q, id, |q| - 1) == Removed(q, k)
  {
    var n := |q|;
    OneMatch(q, id, k, n - 1);
    assert Keep(q[..n - 1], id) == q[..k] + q[k + 1..n - 1];
    assert q[n - 1..] == [q[n - 1]];
  }

  /** terminate of a thread whose id occurs exactly once removes that
      thread and lowers the count by one; the other threads stay as a
      multiset, and the last thread of the queue moves to the front unless
      it is the one removed. */
  lemma TerminateUnique(s: State, t: Thread, k: nat)
    requires Valid(s)
    requires k < |RQ.Elements(s.ready)| && RQ.Elements(s.ready)[k].id == t.id
    requires forall i :: 0 <= i < |RQ.Elements(s.ready)| && i != k ==>
               RQ.Elements(s.ready)[i].id != t.id
    ensures RQ.Elements(Terminate(s, t).ready) == Removed(RQ.Elements(s.ready), k)
    ensures Terminate(s, t).size == s.size - 1
    ensures multiset(RQ.Elements(Terminate(s, t).ready))
            == multiset(RQ.Elements(s.ready)) - multiset{RQ.Elements(s.ready)[k]}
  {
    UniqueAfter(RQ.Elements(s.ready), t.id, k);
  }

  /** With two threads of the same id, terminate removes only the first. */
  lemma TerminateDuplicate()
    ensures var s := Resume(Resume(New(), RQ.Thread(1)), RQ.Thread(1));
            RQ.Elements(Terminate(s, RQ.Thread(1)).ready) == [RQ.Thread(1)]
  {
    var q := [RQ.Thread(1), RQ.Thread(1)];
    assert q[..1] == [RQ.Thread(1)] && q[..1][..0] == [];
    assert q[..0] == [];
    assert StopAt(q, 1, 0) == 1;
  }
}
