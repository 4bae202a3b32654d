/** Safety of the thread pool over every run, with any number of clients and resizes. */
module PoolSafety {
  import opened Pool
  import opened PoolRuns

  lemma CreatedInv(numThreads: nat, queueSize: nat, clientCount: nat)
    requires numThreads > 0
    ensures Inv(Created(numThreads, queueSize, clientCount))
  {
    NoWorkers();
    hide Count, Running, Grown;
    GrownCounts([], numThreads);
    GrownLength([], numThreads);
  }

  lemma NoWorkers()
    ensures Running([]) == multiset{} && forall k :: Count([], k) == 0
  {
  }

  /** The worker counts after worker `w` has moved. */
  lemma Moved(s: State, w: nat, to: Worker)
    requires w < |s.workers|
    ensures Running(s.workers[w := to]) == Running(s.workers) - JobOf(s.workers[w]) + JobOf(to)
    ensures JobOf(s.workers[w]) <= Running(s.workers)
    ensures forall k :: Count(s.workers[w := to], k)
                        == Count(s.workers, k) - One(s.workers[w], k) + One(to, k)
  {
    RunningUpdate(s.workers, w, to);
    forall k ensures Count(s.workers[w := to], k) == Count(s.workers, k) - One(s.workers[w], k) + One(to, k) {
      CountUpdate(s.workers, w, to, k);
    }
  }

  /** A worker that finds nothing to do sleeps, or exits under shutdown. It may leave jobs
      behind, but then the limit is used up by workers that are still busy. */
  lemma RestKeeps(s: State, w: nat, t: State)
    requires Inv(s) && w < |s.workers| && Tests(s, w, t) && MustWait(s.core)
    ensures Inv(t)
  {
    hide Count, Running;
    Moved(s, w, if s.core.shutdown then Exited else Asleep);
  }

  lemma TakeKeeps(s: State, w: nat, t: State)
    requires Inv(s) && w < |s.workers| && Tests(s, w, t) && !MustWait(s.core)
    ensures Inv(t)
  {
    hide Count, Running;
    var job := s.core.queue[0];
    Moved(s, w, Busy(job));
    assert s.core.queue == [job] + t.core.queue;
  }

  lemma FinishKeeps(s: State, w: nat, t: State)
    requires Inv(s) && w < |s.workers| && Finishes(s, w, t)
    ensures Inv(t)
  {
    hide Count, Running;
    Moved(s, w, Awake);
  }

  lemma AddKeeps(s: State, c: nat, job: Job, t: State)
    requires Inv(s) && c < |s.clients| && Adds(s, c, job, t)
    requires !s.clients[c].Closing? && !s.clients[c].Broadcasting? && !s.clients[c].Closed?
    requires !s.core.shutdown ==> !Full(s.core)
    ensures Inv(t)
  {
    hide Count, Running;
    if s.core.shutdown {
      assert t.core == s.core;
    } else {
      WokeCounts(s.workers, t.workers);
      CountAll(s.workers);
      CountAll(t.workers);
      if Count(s.workers, AsleepKind) > 0 {
        var i := CountWitness(s.workers, AsleepKind);
        assert t.workers != s.workers;
      }
      assert s.accepted + [job] == s.started + (s.core.queue + [job]);
    }
  }

  lemma WorkersStirKeeps(s: State, t: State)
    requires Inv(s) && WorkersWoke(s.workers, t.workers) && t == s.(workers := t.workers)
    ensures Inv(t)
  {
    hide Count, Running;
    WokeCounts(s.workers, t.workers);
  }

  /** Moves of the clients alone, as long as they do not start or finish a shutdown. */
  lemma ClientsKeep(s: State, t: State)
    requires Inv(s) && t == s.(clients := t.clients) && |t.clients| == |s.clients|
    requires forall c :: 0 <= c < |t.clients| ==>
               (t.clients[c].Closing? || t.clients[c].Broadcasting? ==>
                  s.clients[c].Closing? || s.clients[c].Broadcasting?)
               && (t.clients[c].Closed? ==> s.clients[c].Closed?)
    ensures Inv(t)
  {
  }

  lemma ResizeKeeps(s: State, numThreads: nat, created: nat, t: State)
    requires Inv(s) && Resizes(s, numThreads, created, t)
    ensures Inv(t)
  {
    hide Count, Running;
    var awake := AllWorkersWoken(s.workers);
    WakeAllCounts(s.workers);
    WokeCounts(s.workers, awake);
    GrownCounts(awake, created);
    GrownLength(awake, created);
  }

  lemma {:induction false} GrownLength(workers: seq<Worker>, created: nat)
    ensures |Grown(workers, created)| == |workers| + created
  {
    if created > 0 {
      GrownLength(workers, created - 1);
    }
  }

  lemma BroadcastPopKeeps(s: State, c: nat, t: State)
    requires Inv(s) && Step(s, BroadcastPop(c), t)
    ensures Inv(t)
  {
    hide Count, Running;
    WakeAllCounts(s.workers);
    WokeCounts(s.workers, t.workers);
  }

  lemma StepKeeps(s: State, a: Action, t: State)
    requires Inv(s) && Step(s, a, t)
    ensures Inv(t)
  {
    hide Inv, Tests, Finishes, Adds, Resizes;
    match a
    case WorkerTest(w) =>
      if MustWait(s.core) { RestKeeps(s, w, t); } else { TakeKeeps(s, w, t); }
    case WorkerFinish(w) => FinishKeeps(s, w, t);
    case WorkersStir => WorkersStirKeeps(s, t);
    case AddTest(c) =>
      if Full(s.core) && !s.core.shutdown { ClientsKeep(s, t); } else { AddKeeps(s, c, s.clients[c].job, t); }
    case TryAdd(c, job) =>
      if !Full(s.core) { AddKeeps(s, c, job, t); }
    case Resize(c, numThreads, created) => ResizeKeeps(s, numThreads, created, t);
    case SetShutdown(c) => ShutdownKeeps(s, c, t);
    case BroadcastPop(c) => BroadcastPopKeeps(s, c, t);
    case _ => ClientsKeep(s, t);
  }

  lemma ShutdownKeeps(s: State, c: nat, t: State)
    requires Inv(s) && Step(s, SetShutdown(c), t)
    ensures Inv(t)
  {
  }

  lemma {:induction false} RunKeeps(run: seq<State>, actions: seq<Action>)
    requires Run(run, actions) && Inv(run[0])
    ensures forall i :: 0 <= i < |run| ==> Inv(run[i])
  {
    hide Inv, Step;
    if actions != [] {
      var n := |actions| - 1;
      RunKeeps(run[..n + 1], actions[..n]);
      assert Inv(run[..n + 1][n]);
      StepKeeps(run[n], actions[n], run[n + 1]);
    }
  }

  lemma EveryStateOk(run: seq<State>, actions: seq<Action>)
    requires RunFromCreation(run, actions)
    ensures forall i :: 0 <= i < |run| ==> Inv(run[i])
  {
    hide Inv, Created, Step;
    var numThreads: nat, queueSize: nat, clientCount: nat
      :| numThreads > 0 && run[0] == Created(numThreads, queueSize, clientCount);
    CreatedInv(numThreads, queueSize, clientCount);
    RunKeeps(run, actions);
  }

  // What that means.

  /** Each accepted job starts at most once, in the order of acceptance; none is lost, and none
      is queued beyond the buffer's room. */
  lemma FifoExactlyOnce(run: seq<State>, actions: seq<Action>, i: nat)
    requires RunFromCreation(run, actions) && i < |run|
    ensures run[i].started <= run[i].accepted
    ensures run[i].core.queue == run[i].accepted[|run[i].started|..]
    ensures multiset(run[i].accepted)
            == run[i].finished + Running(run[i].workers) + multiset(run[i].core.queue)
    ensures |run[i].core.queue| <= (if run[i].core.queueSize > 1 then run[i].core.queueSize - 1 else 1)
    ensures |Running(run[i].workers)| == run[i].core.busy
  {
    EveryStateOk(run, actions);
    CountAll(run[i].workers);
    assert Inv(run[i]);
  }

  /** Once every worker has exited, every accepted job has finished, although a worker may exit
      while jobs are still queued. */
  lemma AllExitedAllDone(run: seq<State>, actions: seq<Action>, i: nat)
    requires RunFromCreation(run, actions) && i < |run|
    requires forall w :: 0 <= w < |run[i].workers| ==> run[i].workers[w].Exited?
    ensures run[i].core.queue == [] && run[i].finished == multiset(run[i].accepted)
    ensures run[i].started == run[i].accepted
  {
    EveryStateOk(run, actions);
    AllExited(run[i].workers);
    assert Inv(run[i]);
  }

  lemma {:induction false} AllExited(workers: seq<Worker>)
    requires forall w :: 0 <= w < |workers| ==> workers[w].Exited?
    ensures Running(workers) == multiset{}
    ensures Count(workers, AwakeKind) == Count(workers, BusyKind) == Count(workers, AsleepKind) == 0
  {
    if workers != [] {
      AllExited(workers[..|workers| - 1]);
    }
  }

  /** POOL_joinJobs returns only when every job accepted so far has finished. */
  lemma JoinReturnsWhenDone(run: seq<State>, actions: seq<Action>, i: nat, c: nat)
    requires RunFromCreation(run, actions) && i < |actions|
    requires actions[i] == JoinTest(c) && c < |run[i + 1].clients| && run[i + 1].clients[c].Idle?
    ensures run[i + 1].finished == multiset(run[i + 1].accepted)
  {
    EveryStateOk(run, actions);
    assert Inv(run[i]) && Step(run[i], actions[i], run[i + 1]);
    CountAll(run[i].workers);
  }

  lemma ClosedStays(s: State, a: Action, t: State, c: nat)
    requires Step(s, a, t) && c < |s.clients| && s.clients[c].Closed?
    ensures c < |t.clients| && t.clients[c].Closed?
  {
  }

  /** After POOL_join has broadcast, no worker ever sleeps again. */
  lemma {:induction false} NoSleepAfterJoin(run: seq<State>, actions: seq<Action>, i: nat, j: nat, c: nat)
    requires RunFromCreation(run, actions) && i <= j < |run|
    requires c < |run[i].clients| && run[i].clients[c].Closed?
    ensures c < |run[j].clients| && run[j].clients[c].Closed? && run[j].core.shutdown
    ensures forall w :: 0 <= w < |run[j].workers| ==> !run[j].workers[w].Asleep?
    decreases j
  {
    if i < j {
      NoSleepAfterJoin(run, actions, i, j - 1, c);
      assert Step(run[j - 1], actions[j - 1], run[j - 1 + 1]);
      ClosedStays(run[j - 1], actions[j - 1], run[j], c);
    }
    EveryStateOk(run, actions);
    assert Inv(run[j]);
    forall w | 0 <= w < |run[j].workers| ensures !run[j].workers[w].Asleep? {
      CountPositive(run[j].workers, w);
    }
  }

  /** However many clients there are, a queued job has a worker that is awake or busy. */
  lemma QueuedJobHasWorker(run: seq<State>, actions: seq<Action>, i: nat)
    requires RunFromCreation(run, actions) && i < |run| && run[i].core.queue != []
    ensures exists w :: 0 <= w < |run[i].workers| && (run[i].workers[w].Awake? || run[i].workers[w].Busy?)
  {
    hide Count, Running, Step;
    EveryStateOk(run, actions);
    var s := run[i];
    assert Inv(s);
    if Count(s.workers, AwakeKind) > 0 {
      var w := CountWitness(s.workers, AwakeKind);
    } else {
      var w := CountWitness(s.workers, BusyKind);
    }
  }

  // The thread limit.

  lemma StepWithinLimit(s: State, a: Action, t: State)
    requires Step(s, a, t)
    ensures t.started != s.started ==> s.core.busy < s.core.limit && s.core.queue != []
    ensures t.core.busy > s.core.busy ==> s.core.busy < s.core.limit
    ensures t.core.busy <= s.core.busy + 1
    ensures !a.Resize? ==> t.core.limit == s.core.limit
  {
    hide PushSignalled, PopSignalled, WorkersWoke, ClientsWoke;
  }

  /** No job starts while as many are running as the limit allows, whatever resizes there are. */
  lemma StartsWithinLimit(run: seq<State>, actions: seq<Action>, i: nat)
    requires RunFromCreation(run, actions) && i < |actions| && run[i + 1].started != run[i].started
    ensures |Running(run[i].workers)| < run[i].core.limit
  {
    FifoExactlyOnce(run, actions, i);
    StepWithinLimit(run[i], actions[i], run[i + 1]);
  }

  /** As long as nobody resizes, the pool never runs more jobs than it did at first, or than the
      limit allows. */
  lemma {:induction false} LimitKept(run: seq<State>, actions: seq<Action>, i: nat, j: nat)
    requires Run(run, actions) && i <= j < |run|
    requires forall k :: i <= k < j ==> !actions[k].Resize?
    ensures run[j].core.limit == run[i].core.limit
    ensures run[j].core.busy <= run[i].core.busy || run[j].core.busy <= run[i].core.limit
    decreases j
  {
    hide Step;
    if i < j {
      LimitKept(run, actions, i, j - 1);
      assert Step(run[j - 1], actions[j - 1], run[j - 1 + 1]);
      StepWithinLimit(run[j - 1], actions[j - 1], run[j]);
    }
  }

  /** So a pool that is never resized never runs more jobs at once than it has threads. */
  lemma NeverOverLimit(run: seq<State>, actions: seq<Action>, numThreads: nat, queueSize: nat, clientCount: nat, i: nat)
    requires Run(run, actions) && numThreads > 0 && run[0] == Created(numThreads, queueSize, clientCount)
    requires i < |run| && forall k :: 0 <= k < |actions| ==> !actions[k].Resize?
    ensures |Running(run[i].workers)| <= numThreads
  {
    hide Step;
    LimitKept(run, actions, 0, i);
    FifoExactlyOnce(run, actions, i);
  }

  // Room for jobs.

  lemma {:induction false} SizeKept(run: seq<State>, actions: seq<Action>, i: nat)
    requires Run(run, actions) && i < |run|
    ensures run[i].core.queueSize == run[0].core.queueSize
  {
    hide PushSignalled, PopSignalled, WorkersWoke, ClientsWoke;
    if i > 0 {
      SizeKept(run, actions, i - 1);
      assert Step(run[i - 1], actions[i - 1], run[i - 1 + 1]);
    }
  }

  /** When POOL_add waits: exactly when the pool is running and queueSize jobs are queued or,
      for a pool without a queue, when as many jobs are running as the limit allows or one has
      yet to be picked up. */
  lemma WaitsExactly(run: seq<State>, actions: seq<Action>, numThreads: nat, queueSize: nat, clientCount: nat, i: nat, c: nat)
    requires Run(run, actions) && numThreads > 0 && run[0] == Created(numThreads, queueSize, clientCount)
    requires i < |actions| && actions[i] == AddTest(c)
    ensures c < |run[i].clients| && run[i].clients[c].Adding? && c < |run[i + 1].clients|
    ensures run[i + 1].clients[c].AddAsleep? <==>
              && !run[i].core.shutdown
              && if queueSize > 0 then |run[i].core.queue| == queueSize
                 else run[i].core.queue != [] || |Running(run[i].workers)| == run[i].core.limit
    ensures !run[i + 1].clients[c].AddAsleep? && !run[i].core.shutdown ==>
              run[i + 1].core.queue == run[i].core.queue + [run[i].clients[c].job]
  {
    hide PushSignalled, PopSignalled, WorkersWoke, ClientsWoke, Created;
    SizeKept(run, actions, i);
    FifoExactlyOnce(run, actions, i);
    QueueSizeIs(numThreads, queueSize, clientCount);
    assert Step(run[i], actions[i], run[i + 1]);
  }

  lemma QueueSizeIs(numThreads: nat, queueSize: nat, clientCount: nat)
    ensures Created(numThreads, queueSize, clientCount).core.queueSize == queueSize + 1
  {
  }

  /** The other side: POOL_tryAdd answers 1 exactly when POOL_add would not have to wait. */
  lemma TryAddExactly(run: seq<State>, actions: seq<Action>, numThreads: nat, queueSize: nat, clientCount: nat,
                      i: nat, c: nat, job: Job)
    requires Run(run, actions) && numThreads > 0 && run[0] == Created(numThreads, queueSize, clientCount)
    requires i < |actions| && actions[i] == TryAdd(c, job) && !run[i].core.shutdown
    ensures run[i + 1].accepted == run[i].accepted + [job] <==>
              if queueSize > 0 then |run[i].core.queue| < queueSize
              else run[i].core.queue == [] && |Running(run[i].workers)| != run[i].core.limit
  {
    hide PushSignalled, PopSignalled, WorkersWoke, ClientsWoke, Created;
    SizeKept(run, actions, i);
    FifoExactlyOnce(run, actions, i);
    QueueSizeIs(numThreads, queueSize, clientCount);
    assert Step(run[i], actions[i], run[i + 1]);
  }

  /** A run of nothing but calls of one client, each adding the next job. */
  ghost predicate AddsAll(run: seq<State>, actions: seq<Action>, c: nat, jobs: seq<Job>)
  {
    && Run(run, actions) && |actions| == |jobs|
    && forall i :: 0 <= i < |jobs| ==> actions[i] == TryAdd(c, jobs[i])
  }

  /** A running pool takes as many jobs in a row as its queue has room for, whatever the workers
      are doing meanwhile: every single one is queued, in order. */
  lemma {:induction false} TakesInARow(run: seq<State>, actions: seq<Action>, c: nat, jobs: seq<Job>)
    requires AddsAll(run, actions, c, jobs) && !run[0].core.shutdown && run[0].core.queueSize > 1
    requires |run[0].core.queue| + |jobs| <= run[0].core.queueSize - 1
    ensures run[|jobs|].core == run[0].core.(queue := run[0].core.queue + jobs)
  {
    hide PushSignalled, PopSignalled, WorkersWoke, ClientsWoke;
    if jobs != [] {
      var n := |jobs| - 1;
      TakesInARow(run[..n + 1], actions[..n], c, jobs[..n]);
      assert Step(run[n], actions[n], run[n + 1]);
      assert run[0].core.queue + jobs[..n] + [jobs[n]] == run[0].core.queue + jobs;
    }
  }
}
