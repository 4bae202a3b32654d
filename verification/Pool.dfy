/** The shared state of the thread pool: a circular job queue and a few counters, changed only
    while the pool's mutex is held. Each method is one such critical section. */
module Pool {

  /** POOL_job: a function and its argument, by identity. */
  datatype Job = Job(function_: nat, argument: nat)

  /** What the critical sections mean: the circular buffer as a plain queue. */
  datatype Core = Core(queueSize: nat, queue: seq<Job>, busy: nat, limit: nat, shutdown: bool)

  predicate CoreOk(c: Core)
  {
    && c.queueSize >= 1 && c.limit >= 1
    && |c.queue| <= (if c.queueSize > 1 then c.queueSize - 1 else 1)
  }

  /** isQueueFull. With a queue of size 1 the pool hands jobs over only to a free thread. */
  predicate Full(c: Core)
  {
    if c.queueSize > 1 then |c.queue| == c.queueSize - 1 else c.busy == c.limit || c.queue != []
  }

  /** What a worker tests before it takes a job. */
  predicate MustWait(c: Core)
  {
    c.queue == [] || c.busy >= c.limit
  }

  function Popped(c: Core): Core
    requires c.queue != []
  {
    c.(queue := c.queue[1..], busy := c.busy + 1)
  }

  /** A pool that shuts down drops new jobs silently. */
  function Pushed(c: Core, job: Job): Core
  {
    if c.shutdown then c else c.(queue := c.queue + [job])
  }

  datatype Take = MustSleep | MustExit | Took(job: Job)

  /** The jobs in the slots of the circular buffer, oldest first. */
  function InOrder(slots: seq<Job>, head: nat, tail: nat, empty: bool): seq<Job>
    requires head < |slots| && tail < |slots|
  {
    if empty then [] else if head < tail then slots[head..tail] else slots[head..] + slots[..tail]
  }

  /** A buffer that is not full has a free slot at its tail: no queued job is overwritten. */
  lemma Enqueued(slots: seq<Job>, head: nat, tail: nat, empty: bool, job: Job)
    requires head < |slots| && tail < |slots|
    requires if |slots| == 1 then empty else empty <==> head == tail
    requires |slots| > 1 ==> head != (tail + 1) % |slots|
    ensures InOrder(slots[tail := job], head, (tail + 1) % |slots|, false) == InOrder(slots, head, tail, empty) + [job]
  {
    ModSmall(tail + 1, |slots|);
  }

  /** POOL_ctx_s. */
  class PoolCtx {
    const queue: array<Job>
    var threadCapacity: nat
    var threadLimit: nat
    var queueHead: nat
    var queueTail: nat
    var numThreadsBusy: nat
    var queueEmpty: bool
    var shutdown: bool

    /** The jobs in the circular buffer, oldest first. */
    ghost function Contents(): seq<Job>
      requires queueHead < queue.Length && queueTail < queue.Length
      reads this, queue
    {
      InOrder(queue[..], queueHead, queueTail, queueEmpty)
    }

    ghost predicate Valid()
      reads this, queue
    {
      && queueHead < queue.Length && queueTail < queue.Length
      && (queue.Length > 1 ==> (queueEmpty <==> queueHead == queueTail))
      && threadLimit >= 1
    }

    ghost function View(): Core
      requires Valid()
      reads this, queue
    {
      Core(queue.Length, Contents(), numThreadsBusy, threadLimit, shutdown)
    }

    constructor (numThreads: nat, queueSize: nat)
      requires numThreads > 0
      ensures Valid() && fresh(queue)
      ensures View() == Core(queueSize + 1, [], 0, numThreads, false) && threadCapacity == 0
    {
      queue := new Job[queueSize + 1](_ => Job(0, 0));
      queueHead, queueTail, numThreadsBusy, queueEmpty := 0, 0, 0, true;
      shutdown := false;
      threadLimit, threadCapacity := numThreads, 0;
    }

    /** POOL_create. `canAllocate` says whether memory, mutex and conditions can be had, and
        `creatable` how many threads can: it fails exactly when no thread is asked for, or not
        everything asked for can be had. */
    static method Create(numThreads: nat, queueSize: nat, canAllocate: bool, creatable: nat) returns (pool: PoolCtx?)
      ensures pool == null <==> numThreads == 0 || !canAllocate || creatable < numThreads
      ensures pool != null ==> fresh(pool) && pool.Valid() && CoreOk(pool.View())
                               && pool.View() == Core(queueSize + 1, [], 0, numThreads, false)
                               && pool.threadCapacity == numThreads
    {
      if numThreads == 0 || !canAllocate {
        return null;
      }
      pool := new PoolCtx(numThreads, queueSize);
      while pool.threadCapacity < numThreads
        invariant fresh(pool) && pool.Valid() && pool.threadCapacity <= numThreads && pool.threadCapacity <= creatable
        invariant pool.View() == Core(queueSize + 1, [], 0, numThreads, false)
        modifies pool`threadCapacity
      {
        if pool.threadCapacity == creatable {
          return null;
        }
        pool.threadCapacity := pool.threadCapacity + 1;
      }
    }

    /** isQueueFull. */
    predicate IsQueueFull()
      reads this, queue
      requires Valid()
      ensures IsQueueFull() <==> Full(View())
      ensures IsQueueFull() <==> if queue.Length > 1 then |Contents()| == queue.Length - 1
                                 else numThreadsBusy == threadLimit || Contents() != []
    {
      if queue.Length > 1 then
        ModSmall(queueTail + 1, queue.Length);
        queueHead == (queueTail + 1) % queue.Length
      else
        numThreadsBusy == threadLimit || !queueEmpty
    }

    /** POOL_add_internal. Stores the job in a free slot: no queued job is overwritten. */
    method AddInternal(job: Job)
      requires Valid() && (!shutdown ==> !Full(View()))
      modifies this`queueEmpty, this`queueTail, queue
      ensures Valid() && View() == Pushed(old(View()), job)
      ensures Contents() == if shutdown then old(Contents()) else old(Contents()) + [job]
    {
      if shutdown {
        return;
      }
      assert !IsQueueFull();
      Enqueued(queue[..], queueHead, queueTail, queueEmpty, job);
      hide InOrder;
      queueEmpty := false;
      queue[queueTail] := job;
      queueTail := (queueTail + 1) % queue.Length;
    }

    /** One round of POOL_add: waits while the queue is full and the pool is running. */
    method AddAttempt(job: Job) returns (done: bool)
      requires Valid()
      modifies this`queueEmpty, this`queueTail, queue
      ensures Valid()
      ensures done <==> old(shutdown) || if queue.Length > 1 then |old(Contents())| < queue.Length - 1
                                         else numThreadsBusy != threadLimit && old(Contents()) == []
      ensures done <==> !Full(old(View())) || old(shutdown)
      ensures View() == if done then Pushed(old(View()), job) else old(View())
      ensures Contents() == if done && !shutdown then old(Contents()) + [job] else old(Contents())
    {
      if IsQueueFull() && !shutdown {
        return false;
      }
      AddInternal(job);
      done := true;
    }

    /** POOL_tryAdd. Under shutdown it reports success for a job that it drops. */
    method TryAdd(job: Job) returns (accepted: bool)
      requires Valid()
      modifies this`queueEmpty, this`queueTail, queue
      ensures Valid()
      ensures accepted <==> if queue.Length > 1 then |old(Contents())| < queue.Length - 1
                            else numThreadsBusy != threadLimit && old(Contents()) == []
      ensures accepted <==> !Full(old(View()))
      ensures View() == if accepted then Pushed(old(View()), job) else old(View())
      ensures Contents() == if accepted && !shutdown then old(Contents()) + [job] else old(Contents())
    {
      if IsQueueFull() {
        return false;
      }
      AddInternal(job);
      accepted := true;
    }

    /** POOL_thread between locking the mutex and running a job. */
    method TakeJob() returns (take: Take)
      requires Valid()
      modifies this`queueHead, this`numThreadsBusy, this`queueEmpty
      ensures Valid()
      ensures take.Took? <==> old(Contents()) != [] && old(numThreadsBusy) < threadLimit
      ensures take.Took? <==> !MustWait(old(View()))
      ensures take.Took? ==> View() == Popped(old(View())) && old(Contents()) == [take.job] + Contents()
      ensures take.Took? ==> numThreadsBusy == old(numThreadsBusy) + 1
      ensures !take.Took? ==> View() == old(View()) && (take.MustExit? <==> shutdown)
    {
      if queueEmpty || numThreadsBusy >= threadLimit {
        return if shutdown then MustExit else MustSleep;
      }
      ModSmall(queueHead + 1, queue.Length);
      var job := queue[queueHead];
      queueHead := (queueHead + 1) % queue.Length;
      numThreadsBusy := numThreadsBusy + 1;
      queueEmpty := queueHead == queueTail;
      take := Took(job);
    }

    /** POOL_thread after a job has run. */
    method FinishJob()
      requires Valid() && numThreadsBusy > 0
      modifies this`numThreadsBusy
      ensures Valid() && View() == old(View()).(busy := old(View()).busy - 1)
    {
      numThreadsBusy := numThreadsBusy - 1;
    }

    /** One round of POOL_joinJobs. */
    method JoinAttempt() returns (done: bool)
      requires Valid()
      ensures done <==> View().queue == [] && View().busy == 0
    {
      done := queueEmpty && numThreadsBusy == 0;
    }

    /** The critical section of POOL_join. */
    method SetShutdown()
      requires Valid()
      modifies this`shutdown
      ensures Valid() && View() == old(View()).(shutdown := true)
    {
      shutdown := true;
    }

    /** POOL_resize_internal. `canAllocate` and `creatable` say how far the system lets the
        pool grow; the limit is raised even where the threads cannot be had. */
    method ResizeInternal(numThreads: nat, canAllocate: bool, creatable: nat) returns (failed: bool)
      requires Valid()
      modifies this`threadLimit, this`threadCapacity
      ensures Valid()
      ensures View() == if numThreads == 0 then old(View()) else old(View()).(limit := numThreads)
      ensures var missing := numThreads - old(threadCapacity);
              && threadCapacity - old(threadCapacity)
                 == (if missing <= 0 || !canAllocate then 0 else if missing <= creatable then missing else creatable)
              && (failed <==> numThreads == 0 || (missing > 0 && (!canAllocate || creatable < missing)))
    {
      if numThreads <= threadCapacity {
        if numThreads == 0 {
          return true;
        }
        threadLimit := numThreads;
        return false;
      }
      threadLimit := numThreads;
      if !canAllocate {
        return true;
      }
      var created := 0;
      while threadCapacity < numThreads
        invariant threadCapacity == old(threadCapacity) + created <= numThreads && created <= creatable
        invariant Valid() && threadLimit == numThreads
      {
        if created == creatable {
          return true;
        }
        threadCapacity := threadCapacity + 1;
        created := created + 1;
      }
      failed := false;
    }
  }

  lemma ModSmall(x: nat, n: nat)
    requires 0 < n && x <= n
    ensures x % n == if x == n then 0 else x
  {
  }
}
