// The pool of crypto workers: a fixed number of workers, and one first-in-first-out queue for each
// priority.
module CryptoApi {
  import opened Wrappers

  const NUM_PRIO: nat := 5

  datatype WorkItem = WorkItem(operation: string, rpcId: nat)

  datatype WorkerState = WorkerState(currentWorkItem: Option<WorkItem>, started: bool)

  datatype Settlement = Resolved(result: int) | Rejected

  /** The fields of the pool, and which promises have been settled. */
  datatype Pool = Pool(
    numBusy: int,
    workers: seq<WorkerState>,
    workQueues: seq<seq<WorkItem>>,
    nextRpcId: nat,
    stopped: bool,
    settled: map<nat, Settlement>)

  datatype Outcome = Done(pool: Pool) | AssertionFailed

  function Wake(p: Pool, i: nat, work: WorkItem): Outcome
    requires i < |p.workers|
  {
    if p.stopped then Done(p)
    else if p.workers[i].currentWorkItem.Some? then AssertionFailed
    else Done(p.(workers := p.workers[i := WorkerState(Some(work), true)], numBusy := p.numBusy + 1))
  }

  /** The highest priority below n whose queue is not empty. */
  function HighestNonEmpty(queues: seq<seq<WorkItem>>, n: nat): (r: Option<nat>)
    requires n <= |queues|
    ensures r.None? ==> forall k :: 0 <= k < n ==> queues[k] == []
    ensures r.Some? ==> r.value < n && queues[r.value] != [] && forall k :: r.value < k < n ==> queues[k] == []
  {
    if n == 0 then None
    else if queues[n - 1] != [] then Some(n - 1)
    else HighestNonEmpty(queues, n - 1)
  }

  function FindWork(p: Pool, i: nat): Outcome
    requires i < |p.workers| && |p.workQueues| == NUM_PRIO
  {
    var q := HighestNonEmpty(p.workQueues, NUM_PRIO);
    if q.None? then Done(p)
    else Wake(p.(workQueues := p.workQueues[q.value := p.workQueues[q.value][1..]]), i, p.workQueues[q.value][0])
  }

  function FirstIdle(workers: seq<WorkerState>, from: nat): (r: nat)
    requires from <= |workers|
    ensures from <= r <= |workers|
    ensures forall k :: from <= k < r ==> workers[k].currentWorkItem.Some?
    ensures r < |workers| ==> workers[r].currentWorkItem.None?
    decreases |workers| - from
  {
    if from == |workers| || workers[from].currentWorkItem.None? then from else FirstIdle(workers, from + 1)
  }

  function DoRpc(p: Pool, operation: string, priority: nat): Outcome
    requires priority < NUM_PRIO && |p.workQueues| == NUM_PRIO
  {
    var item := WorkItem(operation, p.nextRpcId);
    var p' := p.(nextRpcId := p.nextRpcId + 1);
    if p.numBusy == |p.workers| then Done(p'.(workQueues := p.workQueues[priority := p.workQueues[priority] + [item]]))
    else
      var i := FirstIdle(p.workers, 0);
      if i == |p.workers| then AssertionFailed else Wake(p', i, item)
  }

  /** The worker is free again before its reply is looked at. */
  function HandleWorkerMessage(p: Pool, i: nat, id: nat, result: int): Outcome
    requires i < |p.workers| && |p.workQueues| == NUM_PRIO
  {
    var current := p.workers[i].currentWorkItem;
    var freed := p.(workers := p.workers[i := p.workers[i].(currentWorkItem := None)], numBusy := p.numBusy - 1);
    var o := FindWork(freed, i);
    if o.Done? && current.Some? && current.value.rpcId == id
    then Done(o.pool.(settled := o.pool.settled[id := Resolved(result)]))
    else o
  }

  function HandleWorkerError(p: Pool, i: nat): Outcome
    requires i < |p.workers| && |p.workQueues| == NUM_PRIO
  {
    var current := p.workers[i].currentWorkItem;
    var p' := p.(workers := p.workers[i := WorkerState(None, false)]);
    if current.Some? then
      FindWork(p'.(numBusy := p.numBusy - 1, settled := p.settled[current.value.rpcId := Rejected]), i)
    else FindWork(p', i)
  }

  /** The timer that terminates a worker which has nothing to do. */
  function TerminateIdle(p: Pool, i: nat): Outcome
    requires i < |p.workers|
  {
    if p.workers[i].currentWorkItem.Some? then Done(p)
    else Done(p.(workers := p.workers[i := WorkerState(None, false)]))
  }

  /** Stopping worker threads rejects what they run, but leaves the busy count as it is. */
  function StoppedWorkers(workers: seq<WorkerState>): seq<WorkerState> {
    if workers == [] then []
    else
      var w := workers[|workers| - 1];
      StoppedWorkers(workers[..|workers| - 1]) + [if w.started then WorkerState(None, false) else w]
  }

  function RejectedItems(workers: seq<WorkerState>, settled: map<nat, Settlement>): map<nat, Settlement> {
    if workers == [] then settled
    else
      var w := workers[|workers| - 1];
      var before := RejectedItems(workers[..|workers| - 1], settled);
      if w.started && w.currentWorkItem.Some? then before[w.currentWorkItem.value.rpcId := Rejected] else before
  }

  function TerminateWorkers(p: Pool): Pool {
    p.(workers := StoppedWorkers(p.workers), settled := RejectedItems(p.workers, p.settled))
  }

  /** A stopped pool wakes no worker any more. */
  function Stop(p: Pool): Pool {
    TerminateWorkers(p).(stopped := true)
  }

  function NewPool(concurrency: nat): Pool {
    Pool(0, seq(concurrency, _ => WorkerState(None, false)), seq(NUM_PRIO, _ => []), 1, false, map[])
  }

  class CryptoPool {
    var numBusy: int
    var workers: seq<WorkerState>
    var workQueues: seq<seq<WorkItem>>
    var nextRpcId: nat
    var stopped: bool
    ghost var settled: map<nat, Settlement>

    ghost function St(): Pool
      reads this
    {
      Pool(numBusy, workers, workQueues, nextRpcId, stopped, settled)
    }

    constructor (concurrency: nat)
      ensures St() == NewPool(concurrency)
    {
      numBusy, nextRpcId, stopped := 0, 1, false;
      workers := seq(concurrency, _ => WorkerState(None, false));
      workQueues := seq(NUM_PRIO, _ => []);
      settled := map[];
    }

    method WakeWorker(i: nat, work: WorkItem) returns (ok: bool)
      requires i < |workers|
      modifies this
      ensures var o := Wake(old(St()), i, work);
              (ok <==> o.Done?) && St() == if ok then o.pool else old(St())
    {
      if stopped {
        return true;
      }
      if workers[i].currentWorkItem.Some? {
        return false;
      }
      workers := workers[i := WorkerState(Some(work), true)];
      numBusy := numBusy + 1;
      return true;
    }

    method FindWorkFor(ws: nat) returns (ok: bool)
      requires ws < |workers| && |workQueues| == NUM_PRIO
      requires workers[ws].currentWorkItem.None?
      modifies this
      ensures ok && FindWork(old(St()), ws) == Done(St())
    {
      ok := true;
      for i := 0 to NUM_PRIO
        invariant St() == old(St())
        invariant HighestNonEmpty(workQueues, NUM_PRIO) == HighestNonEmpty(workQueues, NUM_PRIO - i)
      {
        var q := workQueues[NUM_PRIO - i - 1];
        if q != [] {
          workQueues := workQueues[NUM_PRIO - i - 1 := q[1..]];
          ok := WakeWorker(ws, q[0]);
          return;
        }
      }
    }

    method Rpc(operation: string, priority: nat) returns (ok: bool)
      requires priority < NUM_PRIO && |workQueues| == NUM_PRIO
      modifies this
      ensures var o := DoRpc(old(St()), operation, priority);
              (ok <==> o.Done?) && (ok ==> St() == o.pool)
    {
      var item := WorkItem(operation, nextRpcId);
      nextRpcId := nextRpcId + 1;
      if numBusy == |workers| {
        workQueues := workQueues[priority := workQueues[priority] + [item]];
        return true;
      }
      for i := 0 to |workers|
        invariant St() == old(St()).(nextRpcId := old(nextRpcId) + 1)
        invariant FirstIdle(workers, 0) == FirstIdle(workers, i)
      {
        if workers[i].currentWorkItem.None? {
          ok := WakeWorker(i, item);
          return;
        }
      }
      return false;
    }

    method OnMessage(ws: nat, id: nat, result: int)
      requires ws < |workers| && |workQueues| == NUM_PRIO
      modifies this
      ensures HandleWorkerMessage(old(St()), ws, id, result) == Done(St())
    {
      var current := workers[ws].currentWorkItem;
      workers := workers[ws := workers[ws].(currentWorkItem := None)];
      numBusy := numBusy - 1;
      var ok := FindWorkFor(ws);
      if current.Some? && current.value.rpcId == id {
        settled := settled[id := Resolved(result)];
      }
    }

    method OnError(ws: nat)
      requires ws < |workers| && |workQueues| == NUM_PRIO
      modifies this
      ensures HandleWorkerError(old(St()), ws) == Done(St())
    {
      var current := workers[ws].currentWorkItem;
      workers := workers[ws := WorkerState(None, false)];
      if current.Some? {
        settled := settled[current.value.rpcId := Rejected];
        numBusy := numBusy - 1;
      }
      var ok := FindWorkFor(ws);
    }

    method Terminate()
      modifies this
      ensures St() == TerminateWorkers(old(St()))
    {
      var idle: seq<WorkerState> := [];
      ghost var rejected := settled;
      for i := 0 to |workers|
        invariant St() == old(St())
        invariant idle == StoppedWorkers(workers[..i])
        invariant rejected == RejectedItems(workers[..i], settled)
      {
        assert workers[..i + 1][..i] == workers[..i];
        var w := workers[i];
        if w.started {
          if w.currentWorkItem.Some? {
            rejected := rejected[w.currentWorkItem.value.rpcId := Rejected];
          }
          w := WorkerState(None, false);
        }
        idle := idle + [w];
      }
      assert workers[..|workers|] == workers;
      workers := idle;
      settled := rejected;
    }

    method StopPool()
      modifies this
      ensures St() == Stop(old(St()))
    {
      Terminate();
      stopped := true;
    }

    method OnIdleTimer(ws: nat)
      requires ws < |workers|
      modifies this
      ensures TerminateIdle(old(St()), ws) == Done(St())
    {
      if workers[ws].currentWorkItem.None? {
        workers := workers[ws := WorkerState(None, false)];
      }
    }
  }

  // ---- Counting --------------------------------------------------------------------------------

  function Busy(workers: seq<WorkerState>): nat {
    if workers == [] then 0
    else Busy(workers[..|workers| - 1]) + if workers[|workers| - 1].currentWorkItem.Some? then 1 else 0
  }

  function Holds(w: WorkerState, id: nat): nat {
    if w.currentWorkItem.Some? && w.currentWorkItem.value.rpcId == id then 1 else 0
  }

  function Running(workers: seq<WorkerState>, id: nat): nat {
    if workers == [] then 0 else Running(workers[..|workers| - 1], id) + Holds(workers[|workers| - 1], id)
  }

  function InQueue(q: seq<WorkItem>, id: nat): nat {
    if q == [] then 0 else InQueue(q[..|q| - 1], id) + if q[|q| - 1].rpcId == id then 1 else 0
  }

  function Queued(queues: seq<seq<WorkItem>>, id: nat): nat {
    if queues == [] then 0 else Queued(queues[..|queues| - 1], id) + InQueue(queues[|queues| - 1], id)
  }

  function Length(queues: seq<seq<WorkItem>>): nat {
    if queues == [] then 0 else Length(queues[..|queues| - 1]) + |queues[|queues| - 1]|
  }

  /** In how many places a request is. */
  function Places(p: Pool, id: nat): nat {
    Queued(p.workQueues, id) + Running(p.workers, id) + if id in p.settled then 1 else 0
  }

  lemma {:induction false} WorkerPut(workers: seq<WorkerState>, i: nat, w: WorkerState, id: nat)
    requires i < |workers|
    ensures Busy(workers[i := w]) + (if workers[i].currentWorkItem.Some? then 1 else 0)
         == Busy(workers) + if w.currentWorkItem.Some? then 1 else 0
    ensures Running(workers[i := w], id) + Holds(workers[i], id) == Running(workers, id) + Holds(w, id)
  {
    var n := |workers| - 1;
    if i < n {
      WorkerPut(workers[..n], i, w, id);
      assert workers[i := w][..n] == workers[..n][i := w];
    } else {
      assert workers[i := w][..n] == workers[..n];
    }
  }

  lemma {:induction false} QueuePut(queues: seq<seq<WorkItem>>, k: nat, q: seq<WorkItem>, id: nat)
    requires k < |queues|
    ensures Queued(queues[k := q], id) + InQueue(queues[k], id) == Queued(queues, id) + InQueue(q, id)
    ensures Length(queues[k := q]) + |queues[k]| == Length(queues) + |q|
  {
    var n := |queues| - 1;
    if k < n {
      QueuePut(queues[..n], k, q, id);
      assert queues[k := q][..n] == queues[..n][k := q];
    } else {
      assert queues[k := q][..n] == queues[..n];
    }
  }

  lemma InQueueAppend(q: seq<WorkItem>, item: WorkItem, id: nat)
    ensures InQueue(q + [item], id) == InQueue(q, id) + if item.rpcId == id then 1 else 0
  {
    assert (q + [item])[..|q|] == q;
  }

  lemma {:induction false} InQueueShift(q: seq<WorkItem>, id: nat)
    requires q != []
    ensures InQueue(q, id) == InQueue(q[1..], id) + if q[0].rpcId == id then 1 else 0
  {
    if |q| > 1 {
      InQueueShift(q[..|q| - 1], id);
      assert q[1..][..|q| - 2] == q[..|q| - 1][1..];
    }
  }

  lemma {:induction false} BusyAtMostAll(workers: seq<WorkerState>)
    ensures Busy(workers) <= |workers|
    ensures Busy(workers) == |workers| <==> forall i :: 0 <= i < |workers| ==> workers[i].currentWorkItem.Some?
  {
    if workers != [] {
      BusyAtMostAll(workers[..|workers| - 1]);
    }
  }

  lemma {:induction false} NoneQueued(queues: seq<seq<WorkItem>>)
    ensures Length(queues) == 0 <==> forall k :: 0 <= k < |queues| ==> queues[k] == []
  {
    if queues != [] {
      NoneQueued(queues[..|queues| - 1]);
    }
  }

  // ---- Invariant -------------------------------------------------------------------------------

  /** In every queue older requests come first. */
  ghost predicate Ordered(q: seq<WorkItem>) {
    forall i, j :: 0 <= i < j < |q| ==> q[i].rpcId < q[j].rpcId
  }

  ghost predicate OrderedBelow(queues: seq<seq<WorkItem>>, next: nat) {
    forall k :: 0 <= k < |queues| ==>
      && Ordered(queues[k])
      && forall i :: 0 <= i < |queues[k]| ==> queues[k][i].rpcId < next
  }

  ghost predicate EachInOnePlace(p: Pool) {
    forall id: nat :: Places(p, id) == if 1 <= id < p.nextRpcId then 1 else 0
  }

  /** Only started workers are given work. */
  ghost predicate BusyAreStarted(workers: seq<WorkerState>) {
    forall i :: 0 <= i < |workers| && workers[i].currentWorkItem.Some? ==> workers[i].started
  }

  ghost predicate Inv(p: Pool) {
    && !p.stopped && BusyAreStarted(p.workers)
    && |p.workQueues| == NUM_PRIO && p.nextRpcId >= 1
    && p.numBusy == Busy(p.workers)
    && (Length(p.workQueues) > 0 ==> p.numBusy == |p.workers|)
    && OrderedBelow(p.workQueues, p.nextRpcId)
    && EachInOnePlace(p)
  }

  lemma {:induction false} IdleBusy(n: nat, id: nat)
    ensures Busy(seq(n, _ => WorkerState(None, false))) == 0 && Running(seq(n, _ => WorkerState(None, false)), id) == 0
  {
    if n > 0 {
      IdleBusy(n - 1, id);
      assert seq(n, _ => WorkerState(None, false))[..n - 1] == seq(n - 1, _ => WorkerState(None, false));
    }
  }

  lemma {:induction false} EmptyQueues(queues: seq<seq<WorkItem>>, id: nat)
    requires forall k :: 0 <= k < |queues| ==> queues[k] == []
    ensures Queued(queues, id) == 0 && Length(queues) == 0
  {
    if queues != [] {
      EmptyQueues(queues[..|queues| - 1], id);
    }
  }

  lemma StartIsGood(concurrency: nat)
    ensures Inv(NewPool(concurrency))
  {
    var p := NewPool(concurrency);
    forall id: nat ensures Places(p, id) == 0 {
      IdleBusy(concurrency, id);
      EmptyQueues(p.workQueues, id);
    }
    IdleBusy(concurrency, 0);
    EmptyQueues(p.workQueues, 0);
  }

  /** With open requests, as many workers are busy as there are requests or workers: the pool never
      lets a worker idle while a request waits. */
  lemma PoolIsWorkConserving(p: Pool)
    requires Inv(p)
    ensures var open := Length(p.workQueues) + Busy(p.workers);
            p.numBusy == if open < |p.workers| then open else |p.workers|
  {
    BusyAtMostAll(p.workers);
  }

  // ---- What each event keeps -------------------------------------------------------------------

  /** The pool while worker i has just been freed: only that worker may be idle beside a queue. */
  ghost predicate Freed(p: Pool, i: nat) {
    && !p.stopped && BusyAreStarted(p.workers)
    && |p.workQueues| == NUM_PRIO && p.nextRpcId >= 1
    && i < |p.workers| && p.workers[i].currentWorkItem.None?
    && p.numBusy == Busy(p.workers)
    && (Length(p.workQueues) > 0 ==> p.numBusy + 1 == |p.workers|)
    && OrderedBelow(p.workQueues, p.nextRpcId)
    && EachInOnePlace(p)
  }

  lemma Shifted(queues: seq<seq<WorkItem>>, k: nat, next: nat)
    requires k < |queues| && queues[k] != [] && OrderedBelow(queues, next)
    ensures OrderedBelow(queues[k := queues[k][1..]], next)
    ensures forall i :: 0 < i < |queues[k]| ==> queues[k][0].rpcId < queues[k][i].rpcId
  {
  }

  lemma SomethingQueued(queues: seq<seq<WorkItem>>, k: nat)
    requires k < |queues| && queues[k] != []
    ensures Length(queues) > 0
  {
    NoneQueued(queues);
  }

  /** A freed worker takes the oldest item of the highest priority that has one; without any it
      stays idle. */
  lemma FindWorkKeeps(p: Pool, i: nat)
    requires Freed(p, i)
    ensures var o := FindWork(p, i);
            o.Done? && Inv(o.pool) && o.pool.settled == p.settled && o.pool.nextRpcId == p.nextRpcId
  {
    hide EachInOnePlace, OrderedBelow, Busy, Length;
    var k := HighestNonEmpty(p.workQueues, NUM_PRIO);
    var d := FindWork(p, i).pool;
    if k.None? {
      NoneQueued(p.workQueues);
    } else {
      var q := p.workQueues[k.value];
      SomethingQueued(p.workQueues, k.value);
      Shifted(p.workQueues, k.value, p.nextRpcId);
      QueuePut(p.workQueues, k.value, q[1..], 0);
      WorkerPut(p.workers, i, d.workers[i], 0);
      forall id: nat ensures Places(d, id) == Places(p, id) {
        QueuePut(p.workQueues, k.value, q[1..], id);
        InQueueShift(q, id);
        WorkerPut(p.workers, i, d.workers[i], id);
      }
      SamePlaces(p, d);
    }
  }

  lemma SamePlaces(p: Pool, d: Pool)
    requires EachInOnePlace(p) && d.nextRpcId == p.nextRpcId
    requires forall id: nat :: Places(d, id) == Places(p, id)
    ensures EachInOnePlace(d)
  {
    hide Places;
  }

  /** The item a freed worker takes: the oldest one queued with the highest priority. */
  lemma FreedWorkerTakesOldest(p: Pool, i: nat)
    requires Freed(p, i)
    ensures var d := FindWork(p, i).pool;
            if forall k :: 0 <= k < NUM_PRIO ==> p.workQueues[k] == [] then d == p
            else exists k: nat ::
              && k < NUM_PRIO && p.workQueues[k] != []
              && (forall j :: k < j < NUM_PRIO ==> p.workQueues[j] == [])
              && d.workers == p.workers[i := WorkerState(Some(p.workQueues[k][0]), true)]
              && (forall n :: 0 < n < |p.workQueues[k]| ==> p.workQueues[k][0].rpcId < p.workQueues[k][n].rpcId)
              && d.workQueues == p.workQueues[k := p.workQueues[k][1..]]
  {
    hide EachInOnePlace, Busy, Length;
    var k := HighestNonEmpty(p.workQueues, NUM_PRIO);
    if k.Some? {
      Shifted(p.workQueues, k.value, p.nextRpcId);
      assert p.workQueues[k.value] != [];
    }
  }

  /** A request never reaches a failed assertion; it is run at once if a worker is idle and queued
      otherwise. */
  lemma RequestKeeps(p: Pool, operation: string, priority: nat)
    requires Inv(p) && priority < NUM_PRIO
    ensures var o := DoRpc(p, operation, priority);
            && o.Done? && Inv(o.pool)
            && o.pool.settled == p.settled && o.pool.nextRpcId == p.nextRpcId + 1
            && (if p.numBusy == |p.workers| then Queued(o.pool.workQueues, p.nextRpcId) == 1
                  else Running(o.pool.workers, p.nextRpcId) == 1)
  {
    hide EachInOnePlace, OrderedBelow, Busy, Length, Queued, Running;
    BusyAtMostAll(p.workers);
    var item := WorkItem(operation, p.nextRpcId);
    var d := DoRpc(p, operation, priority).pool;
    NotThereYet(p);
    if p.numBusy == |p.workers| {
      var q := p.workQueues[priority];
      QueuePut(p.workQueues, priority, q + [item], 0);
      Appended(p.workQueues, priority, item, p.nextRpcId);
      forall id: nat ensures Queued(d.workQueues, id) == Queued(p.workQueues, id) + if id == item.rpcId then 1 else 0 {
        QueuePut(p.workQueues, priority, q + [item], id);
        InQueueAppend(q, item, id);
      }
    } else {
      var i := FirstIdle(p.workers, 0);
      WorkerPut(p.workers, i, d.workers[i], 0);
      StillBelow(p.workQueues, p.nextRpcId);
      forall id: nat ensures Running(d.workers, id) == Running(p.workers, id) + if id == item.rpcId then 1 else 0 {
        WorkerPut(p.workers, i, d.workers[i], id);
      }
    }
    OneMorePlace(p, d);
  }

  /** Where a request goes: if all workers are busy, to the end of the queue of its own priority; otherwise
      to the first idle worker. */
  lemma RequestGoesTo(p: Pool, operation: string, priority: nat)
    requires Inv(p) && priority < NUM_PRIO
    ensures DoRpc(p, operation, priority).Done?
    ensures var d, item := DoRpc(p, operation, priority).pool, WorkItem(operation, p.nextRpcId);
            if forall k :: 0 <= k < |p.workers| ==> p.workers[k].currentWorkItem.Some? then
              && d.workers == p.workers && |d.workQueues| == |p.workQueues|
              && d.workQueues[priority] == p.workQueues[priority] + [item]
              && (forall q: nat :: q < NUM_PRIO && q != priority ==> d.workQueues[q] == p.workQueues[q])
            else exists i: nat ::
              && i < |p.workers| && p.workers[i].currentWorkItem.None?
              && (forall k: nat :: k < i ==> p.workers[k].currentWorkItem.Some?)
              && d.workers == p.workers[i := WorkerState(Some(item), true)]
              && d.workQueues == p.workQueues
  {
    CountsOf(p);
    BusyAtMostAll(p.workers);
    hide Inv, Busy, Length;
    var i := FirstIdle(p.workers, 0);
    assert i < |p.workers| ==> p.workers[i].currentWorkItem.None?;
  }

  lemma NotThereYet(p: Pool)
    requires Inv(p)
    ensures Places(p, p.nextRpcId) == 0
    ensures Queued(p.workQueues, p.nextRpcId) == 0 && Running(p.workers, p.nextRpcId) == 0
  {
  }

  lemma OneMorePlace(p: Pool, d: Pool)
    requires EachInOnePlace(p) && d.nextRpcId == p.nextRpcId + 1 && p.nextRpcId >= 1
    requires forall id: nat :: Places(d, id) == Places(p, id) + if id == p.nextRpcId then 1 else 0
    ensures EachInOnePlace(d)
  {
    hide Places;
  }

  lemma Appended(queues: seq<seq<WorkItem>>, k: nat, item: WorkItem, next: nat)
    requires k < |queues| && OrderedBelow(queues, next) && item.rpcId == next
    ensures OrderedBelow(queues[k := queues[k] + [item]], next + 1)
  {
  }

  lemma StillBelow(queues: seq<seq<WorkItem>>, next: nat)
    requires OrderedBelow(queues, next)
    ensures OrderedBelow(queues, next + 1)
  {
  }

  /** Freeing a busy worker and settling its request. */
  lemma SettleFrees(p: Pool, i: nat, started: bool, how: Settlement)
    requires Inv(p) && i < |p.workers| && p.workers[i].currentWorkItem.Some?
    ensures var id := p.workers[i].currentWorkItem.value.rpcId;
            && id !in p.settled && 1 <= id < p.nextRpcId
            && Freed(p.(workers := p.workers[i := WorkerState(None, started)], numBusy := p.numBusy - 1,
                  settled := p.settled[id := how]), i)
  {
    hide EachInOnePlace, OrderedBelow, Busy, Length, Queued, Running;
    var id := p.workers[i].currentWorkItem.value.rpcId;
    var d := p.(workers := p.workers[i := WorkerState(None, started)], numBusy := p.numBusy - 1,
        settled := p.settled[id := how]);
    WorkerPut(p.workers, i, d.workers[i], id);
    PlaceOf(p, id);
    forall k: nat ensures Places(d, k) == Places(p, k) {
      WorkerPut(p.workers, i, d.workers[i], k);
    }
    SamePlaces(p, d);
  }

  lemma PlaceOf(p: Pool, id: nat)
    requires EachInOnePlace(p)
    ensures Places(p, id) == if 1 <= id < p.nextRpcId then 1 else 0
  {
  }

  /** The answer to the request that a worker runs settles that request and no other, and the worker
      takes the next one. */
  lemma AnswerKeeps(p: Pool, i: nat, result: int)
    requires Inv(p) && i < |p.workers| && p.workers[i].currentWorkItem.Some?
    ensures var id := p.workers[i].currentWorkItem.value.rpcId;
            var o := HandleWorkerMessage(p, i, id, result);
            o.Done? && Inv(o.pool) && id !in p.settled && o.pool.settled == p.settled[id := Resolved(result)]
            && o.pool.nextRpcId == p.nextRpcId
  {
    CountsOf(p);
    hide Inv, Freed, FindWork;
    var id := p.workers[i].currentWorkItem.value.rpcId;
    SettleFrees(p, i, p.workers[i].started, Resolved(result));
    var freed := p.(workers := p.workers[i := p.workers[i].(currentWorkItem := None)], numBusy := p.numBusy - 1);
    var d := freed.(settled := p.settled[id := Resolved(result)]);
    FindWorkKeeps(d, i);
    FindWorkIgnoresSettled(freed, i, d.settled);
  }

  lemma FindWorkIgnoresSettled(p: Pool, i: nat, settled: map<nat, Settlement>)
    requires i < |p.workers| && |p.workQueues| == NUM_PRIO
    ensures var o, n := FindWork(p, i), FindWork(p.(settled := settled), i);
            (o.Done? <==> n.Done?) && (o.Done? ==> n.pool == o.pool.(settled := settled) && o.pool.settled == p.settled)
  {
  }

  /** An error rejects the running request, if there is one. */
  lemma ErrorKeeps(p: Pool, i: nat)
    requires Inv(p) && i < |p.workers|
    ensures var c := p.workers[i].currentWorkItem;
            var o := HandleWorkerError(p, i);
            && o.Done? && Inv(o.pool) && o.pool.nextRpcId == p.nextRpcId
            && (c.Some? ==> c.value.rpcId !in p.settled)
            && o.pool.settled == if c.Some? then p.settled[c.value.rpcId := Rejected] else p.settled
  {
    hide Freed, FindWork, EachInOnePlace, OrderedBelow, Busy, Length, Places;
    var c := p.workers[i].currentWorkItem;
    if c.Some? {
      SettleFrees(p, i, false, Rejected);
      var freed := p.(workers := p.workers[i := WorkerState(None, false)], numBusy := p.numBusy - 1,
                      settled := p.settled[c.value.rpcId := Rejected]);
      FindWorkKeeps(freed, i);
    } else {
      IdleStops(p, i);
    }
  }

  /** A worker that is idle stays idle when it is stopped, since nothing is queued then. */
  lemma IdleStops(p: Pool, i: nat)
    requires Inv(p) && i < |p.workers| && p.workers[i].currentWorkItem.None?
    ensures var d := p.(workers := p.workers[i := WorkerState(None, false)]);
            Inv(d) && FindWork(d, i) == Done(d)
  {
    hide EachInOnePlace, OrderedBelow, Busy, Length, Queued, Running;
    var d := p.(workers := p.workers[i := WorkerState(None, false)]);
    BusyAtMostAll(p.workers);
    NoneQueued(p.workQueues);
    WorkerPut(p.workers, i, d.workers[i], 0);
    forall id: nat ensures Places(d, id) == Places(p, id) {
      WorkerPut(p.workers, i, d.workers[i], id);
    }
    SamePlaces(p, d);
  }

  // ---- Messages a worker should not send -------------------------------------------------------

  /** A message from a worker keeps the busy count right exactly when the worker had been given work. */
  lemma CountIsRightIffBusy(p: Pool, i: nat, id: nat, result: int)
    requires Inv(p) && i < |p.workers|
    ensures var o := HandleWorkerMessage(p, i, id, result);
            o.Done? && (o.pool.numBusy == Busy(o.pool.workers) <==> p.workers[i].currentWorkItem.Some?)
  {
    hide EachInOnePlace, OrderedBelow, Busy, Length, Inv;
    var c := p.workers[i].currentWorkItem;
    CountsOf(p);
    var w := p.workers[i].(currentWorkItem := None);
    WorkerPut(p.workers, i, w, 0);
    NoneQueued(p.workQueues);
    BusyAtMostAll(p.workers);
    var k := HighestNonEmpty(p.workQueues, NUM_PRIO);
    if k.Some? {
      SomethingQueued(p.workQueues, k.value);
      WorkerPut(p.workers[i := w], i, WorkerState(Some(p.workQueues[k.value][0]), true), 0);
    }
  }

  lemma CountsOf(p: Pool)
    requires Inv(p)
    ensures |p.workQueues| == NUM_PRIO && p.numBusy == Busy(p.workers) && !p.stopped && BusyAreStarted(p.workers)
    ensures Length(p.workQueues) > 0 ==> p.numBusy == |p.workers|
  {
  }

  /** An answer that names another request loses the one that was running: afterwards it is neither
      queued nor running nor settled. With the right number it is settled. */
  lemma RequestIsLostIffMismatched(p: Pool, i: nat, id: nat, result: int)
    requires Inv(p) && i < |p.workers| && p.workers[i].currentWorkItem.Some?
    ensures var c := p.workers[i].currentWorkItem.value.rpcId;
            var o := HandleWorkerMessage(p, i, id, result);
            o.Done? && (Places(o.pool, c) == 0 <==> id != c)
  {
    CountsOf(p);
    hide Inv, Freed, FindWork, Places;
    var c := p.workers[i].currentWorkItem.value.rpcId;
    AnswerKeeps(p, i, result);
    var right := HandleWorkerMessage(p, i, c, result).pool;
    SettledPlace(p, right, c);
    var freed := p.(workers := p.workers[i := p.workers[i].(currentWorkItem := None)], numBusy := p.numBusy - 1);
    SettleFrees(p, i, p.workers[i].started, Resolved(result));
    FindWorkKeeps(freed.(settled := p.settled[c := Resolved(result)]), i);
    FindWorkIgnoresSettled(freed, i, p.settled[c := Resolved(result)]);
    if id != c {
      UnsettledPlace(FindWork(freed, i).pool, right, c);
    }
  }

  lemma SettledPlace(p: Pool, d: Pool, id: nat)
    requires Inv(d) && id in d.settled
    ensures Places(d, id) == 1 && Queued(d.workQueues, id) == 0 && Running(d.workers, id) == 0
  {
    PlaceOf(d, id);
  }

  lemma UnsettledPlace(p: Pool, d: Pool, id: nat)
    requires p.workQueues == d.workQueues && p.workers == d.workers && id !in p.settled
    requires Queued(d.workQueues, id) == 0 && Running(d.workers, id) == 0
    ensures Places(p, id) == 0
  {
  }

  // ---- Stopping the pool -----------------------------------------------------------------------

  ghost predicate AllIdle(workers: seq<WorkerState>) {
    forall i :: 0 <= i < |workers| ==> workers[i].currentWorkItem.None?
  }

  lemma {:induction false} StopFreesAll(workers: seq<WorkerState>, id: nat)
    requires BusyAreStarted(workers)
    ensures |StoppedWorkers(workers)| == |workers| && AllIdle(StoppedWorkers(workers))
    ensures forall i :: 0 <= i < |workers| ==> !StoppedWorkers(workers)[i].started
    ensures Busy(StoppedWorkers(workers)) == 0 && Running(StoppedWorkers(workers), id) == 0
  {
    if workers != [] {
      var t := workers[..|workers| - 1];
      StopFreesAll(t, id);
      assert StoppedWorkers(workers)[..|t|] == StoppedWorkers(t);
    }
  }

  lemma {:induction false} StopRejectsRunning(workers: seq<WorkerState>, settled: map<nat, Settlement>, id: nat)
    requires BusyAreStarted(workers)
    ensures id in RejectedItems(workers, settled) <==> id in settled || Running(workers, id) > 0
    ensures id in RejectedItems(workers, settled) && RejectedItems(workers, settled)[id] != Rejected ==>
              id in settled && RejectedItems(workers, settled)[id] == settled[id]
  {
    if workers != [] {
      StopRejectsRunning(workers[..|workers| - 1], settled, id);
    }
  }

  /** Stopping ends all workers and rejects exactly the running requests: each request is still in one
      place. But the busy count is then wrong unless no worker was busy. */
  lemma StopRejectsExactlyRunning(p: Pool)
    requires Inv(p)
    ensures var d := Stop(p);
            && d.stopped && AllIdle(d.workers) && EachInOnePlace(d) && d.workQueues == p.workQueues
            && |d.workers| == |p.workers| && (forall i :: 0 <= i < |p.workers| ==> !d.workers[i].started)
            && (forall id: nat :: id in d.settled <==> id in p.settled || Running(p.workers, id) > 0)
            && (d.numBusy == Busy(d.workers) <==> Busy(p.workers) == 0)
  {
    CountsOf(p);
    var d := Stop(p);
    forall id: nat
      ensures Places(d, id) == Places(p, id)
      ensures id in d.settled <==> id in p.settled || Running(p.workers, id) > 0
    {
      StopFreesAll(p.workers, id);
      StopRejectsRunning(p.workers, p.settled, id);
      PlaceOf(p, id);
    }
    StopFreesAll(p.workers, 0);
    SamePlaces(p, d);
  }

  /** A request made after the stop is queued if all workers were busy at the stop; otherwise it is
      lost at once, neither queued nor running nor settled. */
  lemma RequestAfterStopIsLostIff(p: Pool, operation: string, priority: nat)
    requires Inv(p) && priority < NUM_PRIO
    ensures var o := DoRpc(Stop(p), operation, priority);
            o.Done? && (Places(o.pool, p.nextRpcId) == 0 <==> Busy(p.workers) != |p.workers|)
  {
    StopRejectsExactlyRunning(p);
    CountsOf(p);
    StopFreesAll(p.workers, p.nextRpcId);
    hide Inv, AllIdle, Queued, Running, Busy, StoppedWorkers, RejectedItems;
    var d := Stop(p);
    PlaceOf(d, p.nextRpcId);
    BusyAtMostAll(d.workers);
    var q := d.workQueues[priority];
    var item := WorkItem(operation, p.nextRpcId);
    QueuePut(d.workQueues, priority, q + [item], p.nextRpcId);
    InQueueAppend(q, item, p.nextRpcId);
  }

  // ---- Runs ------------------------------------------------------------------------------------

  datatype Event = Request(operation: string, priority: nat) | Answer(i: nat, result: int) | Error(i: nat)
      | IdleTimer(i: nat)

  /** Workers answer what they were given, once. */
  predicate Enabled(p: Pool, e: Event) {
    match e
    case Request(_, priority) => priority < NUM_PRIO
    case Answer(i, _) => i < |p.workers| && p.workers[i].currentWorkItem.Some?
    case Error(i) => i < |p.workers|
    case IdleTimer(i) => i < |p.workers|
  }

  function Next(p: Pool, e: Event): Outcome
    requires Enabled(p, e) && |p.workQueues| == NUM_PRIO
  {
    match e
    case Request(operation, priority) => DoRpc(p, operation, priority)
    case Answer(i, result) => HandleWorkerMessage(p, i, p.workers[i].currentWorkItem.value.rpcId, result)
    case Error(i) => HandleWorkerError(p, i)
    case IdleTimer(i) => TerminateIdle(p, i)
  }

  /** ps are the states of a run: each follows from the one before by an event. */
  ghost predicate IsRun(ps: seq<Pool>, events: seq<Event>) {
    && |ps| == |events| + 1
    && forall k :: 0 <= k < |events| ==>
         Enabled(ps[k], events[k]) && |ps[k].workQueues| == NUM_PRIO && Next(ps[k], events[k]) == Done(ps[k + 1])
  }

  lemma EventKeeps(p: Pool, e: Event)
    requires Inv(p) && Enabled(p, e)
    ensures |p.workQueues| == NUM_PRIO && Next(p, e).Done? && Inv(Next(p, e).pool)
    ensures forall id :: id in p.settled ==>
              id in Next(p, e).pool.settled && Next(p, e).pool.settled[id] == p.settled[id]
  {
    CountsOf(p);
    hide Inv, DoRpc, HandleWorkerMessage, HandleWorkerError, FindWork;
    match e {
      case Request(operation, priority) => RequestKeeps(p, operation, priority);
      case Answer(i, result) => AnswerKeeps(p, i, result);
      case Error(i) => ErrorKeeps(p, i);
      case IdleTimer(i) =>
        if p.workers[i].currentWorkItem.None? {
          IdleStops(p, i);
        }
    }
  }

  /** The workers that an event is not about stay as they are. A worker that answers stays started, one
      with an error is started again only for new work, and the timer stops only idle ones. */
  lemma EventsTouchOneWorker(p: Pool, e: Event)
    requires Inv(p) && Enabled(p, e)
    ensures |p.workQueues| == NUM_PRIO && Next(p, e).Done?
    ensures var d := Next(p, e).pool;
            && |d.workers| == |p.workers|
            && (!e.Request? ==> forall k: nat :: k < |p.workers| && k != e.i ==> d.workers[k] == p.workers[k])
            && (e.Answer? ==> d.workers[e.i].started)
            && (e.Error? ==> (d.workers[e.i].started <==> d.workers[e.i].currentWorkItem.Some?))
            && (e.IdleTimer? ==>
                  if p.workers[e.i].currentWorkItem.Some? then d.workers[e.i] == p.workers[e.i]
                  else !d.workers[e.i].started && d.workers[e.i].currentWorkItem.None?)
  {
    EventKeeps(p, e);
    hide EachInOnePlace, OrderedBelow, Busy, Length;
  }

  lemma {:induction false} RunsKeepInv(ps: seq<Pool>, events: seq<Event>, m: nat)
    requires IsRun(ps, events) && Inv(ps[0]) && m <= |events|
    ensures Inv(ps[m])
    ensures forall id :: id in ps[0].settled ==> id in ps[m].settled && ps[m].settled[id] == ps[0].settled[id]
  {
    if m > 0 {
      RunStep(ps, events, m - 1);
      hide *;
      RunsKeepInv(ps, events, m - 1);
      EventKeeps(ps[m - 1], events[m - 1]);
    }
  }

  lemma RunStep(ps: seq<Pool>, events: seq<Event>, k: nat)
    requires IsRun(ps, events) && k < |events|
    ensures |ps| == |events| + 1 && Enabled(ps[k], events[k]) && |ps[k].workQueues| == NUM_PRIO
    ensures Next(ps[k], events[k]) == Done(ps[k + 1])
  {
  }

  lemma SuffixIsRun(ps: seq<Pool>, events: seq<Event>, n: nat)
    requires IsRun(ps, events) && n <= |events|
    ensures IsRun(ps[n..], events[n..])
  {
    hide Next, Enabled;
  }

  /** Over every run of a new pool: the busy count is right, no worker idles while a request waits,
      every request made is in exactly one place, and a settled promise is never settled again. */
  lemma RunsKeepPool(concurrency: nat, ps: seq<Pool>, events: seq<Event>, n: nat, m: nat)
    requires IsRun(ps, events) && ps[0] == NewPool(concurrency) && n <= m <= |events|
    ensures Inv(ps[m])
    ensures forall id :: id in ps[n].settled ==> id in ps[m].settled && ps[m].settled[id] == ps[n].settled[id]
  {
    hide Inv, Next, Enabled;
    StartIsGood(concurrency);
    RunsKeepInv(ps, events, n);
    SuffixIsRun(ps, events, n);
    RunsKeepInv(ps[n..], events[n..], m - n);
  }

  /** No run gets stuck on an assertion: after any run of a new pool every enabled event succeeds. */
  lemma RunsNeverFail(concurrency: nat, ps: seq<Pool>, events: seq<Event>, e: Event)
    requires IsRun(ps, events) && ps[0] == NewPool(concurrency) && Enabled(ps[|events|], e)
    ensures |ps[|events|].workQueues| == NUM_PRIO && Next(ps[|events|], e).Done?
  {
    RunsKeepPool(concurrency, ps, events, 0, |events|);
    EventKeeps(ps[|events|], e);
  }

  /** Once a pool is stopped nothing runs and nothing is settled any more, whatever is asked for: what
      was queued, and every later request, stays unanswered. */
  lemma {:induction false} StoppedRunsSettleNothing(ps: seq<Pool>, events: seq<Event>, n: nat)
    requires IsRun(ps, events) && n <= |events|
    requires ps[0].stopped && AllIdle(ps[0].workers)
    ensures ps[n].stopped && AllIdle(ps[n].workers) && ps[n].settled == ps[0].settled
  {
    if n > 0 {
      StoppedRunsSettleNothing(ps, events, n - 1);
    }
  }
}
