/** Every run of the thread pool: worker threads, and any number of client threads, taking
    turns at the mutex. One action is one stretch of code that a thread runs while it holds the
    mutex, or one wakeup. A job that calls into the pool is one more client. */
module PoolRuns {
  import opened Pool

  /** Where a worker thread is: about to test its condition, waiting on queuePopCond, running
      a job, or gone. */
  datatype Worker = Awake | Asleep | Busy(job: Job) | Exited

  /** Where a client thread is. `Closing` and `Broadcasting` are the two halves of POOL_join
      after its critical section: the push condition is broadcast first, then the pop one. */
  datatype Client =
    | Idle
    | Adding(job: Job) | AddAsleep(job: Job)
    | Joining | JoinAsleep
    | Closing | Broadcasting | Closed
  {
    predicate Sleeps() { AddAsleep? || JoinAsleep? }

    function Woken(): Client
    {
      match this
      case AddAsleep(job) => Adding(job)
      case JoinAsleep => Joining
      case _ => this
    }
  }

  /** The last three fields only record history: jobs queued, jobs taken, jobs done. */
  datatype State = State(
    core: Core, workers: seq<Worker>, clients: seq<Client>,
    accepted: seq<Job>, started: seq<Job>, finished: multiset<Job>)

  datatype Action =
    | WorkerTest(w: nat) | WorkerFinish(w: nat) | WorkersStir | ClientsStir
    | AddCall(c: nat, job: Job) | AddTest(c: nat) | TryAdd(c: nat, job: Job)
    | JoinCall(c: nat) | JoinTest(c: nat)
    | Resize(c: nat, numThreads: nat, created: nat)
    | SetShutdown(c: nat) | BroadcastPush(c: nat) | BroadcastPop(c: nat)

  // Condition variables.

  /** Some sleeping workers have woken, perhaps none. */
  ghost predicate WorkersWoke(before: seq<Worker>, after: seq<Worker>)
  {
    && |after| == |before|
    && forall i :: 0 <= i < |before| ==> after[i] == before[i] || (before[i].Asleep? && after[i].Awake?)
  }

  ghost predicate ClientsWoke(before: seq<Client>, after: seq<Client>)
  {
    && |after| == |before|
    && forall i :: 0 <= i < |before| ==> after[i] == before[i] || after[i] == before[i].Woken()
  }

  /** A signal on queuePopCond wakes at least one waiting worker, when there is one. */
  ghost predicate PopSignalled(before: seq<Worker>, after: seq<Worker>)
  {
    && WorkersWoke(before, after)
    && ((exists i :: 0 <= i < |before| && before[i].Asleep?) ==> after != before)
  }

  /** A signal on queuePushCond wakes at least one waiting client, whichever it waits for. */
  ghost predicate PushSignalled(before: seq<Client>, after: seq<Client>)
  {
    && ClientsWoke(before, after)
    && ((exists i :: 0 <= i < |before| && before[i].Sleeps()) ==> after != before)
  }

  function AllWorkersWoken(workers: seq<Worker>): (after: seq<Worker>)
    ensures |after| == |workers|
  {
    seq(|workers|, i requires 0 <= i < |workers| => if workers[i].Asleep? then Awake else workers[i])
  }

  function AllClientsWoken(clients: seq<Client>): (after: seq<Client>)
    ensures |after| == |clients|
  {
    seq(|clients|, i requires 0 <= i < |clients| => clients[i].Woken())
  }

  /** `created` more threads, each about to make its first test. */
  function Grown(workers: seq<Worker>, created: nat): seq<Worker>
  {
    if created == 0 then workers else Grown(workers, created - 1) + [Awake]
  }

  // The actions.

  /** POOL_add_internal by client `c`, which is then done. */
  ghost predicate Adds(s: State, c: nat, job: Job, t: State)
    requires c < |s.clients|
  {
    && (if s.core.shutdown then t.workers == s.workers else PopSignalled(s.workers, t.workers))
    && t == s.(core := Pushed(s.core, job), workers := t.workers, clients := s.clients[c := Idle],
               accepted := if s.core.shutdown then s.accepted else s.accepted + [job])
  }

  ghost predicate Tests(s: State, w: nat, t: State)
    requires w < |s.workers|
  {
    && s.workers[w].Awake?
    && if MustWait(s.core) then
         t == s.(workers := s.workers[w := if s.core.shutdown then Exited else Asleep])
       else
         && PushSignalled(s.clients, t.clients)
         && t == s.(core := Popped(s.core), workers := s.workers[w := Busy(s.core.queue[0])],
                    clients := t.clients, started := s.started + [s.core.queue[0]])
  }

  ghost predicate Finishes(s: State, w: nat, t: State)
    requires w < |s.workers|
  {
    && s.workers[w].Busy? && s.core.busy > 0
    && PushSignalled(s.clients, t.clients)
    && t == s.(core := s.core.(busy := s.core.busy - 1), workers := s.workers[w := Awake],
               clients := t.clients, finished := s.finished + multiset{s.workers[w].job})
  }

  ghost predicate Resizes(s: State, numThreads: nat, created: nat, t: State)
  {
    && created <= (if |s.workers| < numThreads then numThreads - |s.workers| else 0)
    && t == s.(core := if numThreads == 0 then s.core else s.core.(limit := numThreads),
               workers := Grown(AllWorkersWoken(s.workers), created))
  }

  ghost predicate Step(s: State, a: Action, t: State)
  {
    match a
    case WorkerTest(w) => w < |s.workers| && Tests(s, w, t)
    case WorkerFinish(w) => w < |s.workers| && Finishes(s, w, t)
    case WorkersStir => WorkersWoke(s.workers, t.workers) && t == s.(workers := t.workers)
    case ClientsStir => ClientsWoke(s.clients, t.clients) && t == s.(clients := t.clients)
    case AddCall(c, job) =>
      c < |s.clients| && s.clients[c].Idle? && t == s.(clients := s.clients[c := Adding(job)])
    case AddTest(c) =>
      && c < |s.clients| && s.clients[c].Adding?
      && if Full(s.core) && !s.core.shutdown then t == s.(clients := s.clients[c := AddAsleep(s.clients[c].job)])
         else Adds(s, c, s.clients[c].job, t)
    case TryAdd(c, job) =>
      c < |s.clients| && s.clients[c].Idle? && if Full(s.core) then t == s else Adds(s, c, job, t)
    case JoinCall(c) =>
      c < |s.clients| && s.clients[c].Idle? && t == s.(clients := s.clients[c := Joining])
    case JoinTest(c) =>
      && c < |s.clients| && s.clients[c].Joining?
      && t == s.(clients := s.clients[c := if s.core.queue != [] || s.core.busy > 0 then JoinAsleep else Idle])
    case Resize(c, numThreads, created) =>
      c < |s.clients| && s.clients[c].Idle? && Resizes(s, numThreads, created, t)
    case SetShutdown(c) =>
      && c < |s.clients| && s.clients[c].Idle?
      && t == s.(core := s.core.(shutdown := true), clients := s.clients[c := Closing])
    case BroadcastPush(c) =>
      && c < |s.clients| && s.clients[c].Closing?
      && t == s.(clients := AllClientsWoken(s.clients)[c := Broadcasting])
    case BroadcastPop(c) =>
      && c < |s.clients| && s.clients[c].Broadcasting?
      && t == s.(workers := AllWorkersWoken(s.workers), clients := s.clients[c := Closed])
  }

  /** POOL_create, with `clientCount` threads about to use the pool. */
  function Created(numThreads: nat, queueSize: nat, clientCount: nat): State
  {
    State(Core(queueSize + 1, [], 0, numThreads, false),
          Grown([], numThreads), seq(clientCount, _ => Idle), [], [], multiset{})
  }

  ghost predicate Run(run: seq<State>, actions: seq<Action>)
  {
    && |run| == |actions| + 1
    && forall i :: 0 <= i < |actions| ==> Step(run[i], actions[i], run[i + 1])
  }

  ghost predicate RunFromCreation(run: seq<State>, actions: seq<Action>)
  {
    && Run(run, actions)
    && exists numThreads: nat, queueSize: nat, clientCount: nat ::
         numThreads > 0 && run[0] == Created(numThreads, queueSize, clientCount)
  }

  // Counting workers.

  datatype Kind = AwakeKind | AsleepKind | BusyKind | ExitedKind

  function KindOf(w: Worker): Kind
  {
    match w
    case Awake => AwakeKind
    case Asleep => AsleepKind
    case Busy(_) => BusyKind
    case Exited => ExitedKind
  }

  function One(w: Worker, k: Kind): nat { if KindOf(w) == k then 1 else 0 }

  function Count(workers: seq<Worker>, k: Kind): nat
  {
    if workers == [] then 0 else Count(workers[..|workers| - 1], k) + One(workers[|workers| - 1], k)
  }

  function JobOf(w: Worker): multiset<Job>
  {
    if w.Busy? then multiset{w.job} else multiset{}
  }

  /** The jobs that workers are running. */
  function Running(workers: seq<Worker>): multiset<Job>
  {
    if workers == [] then multiset{} else Running(workers[..|workers| - 1]) + JobOf(workers[|workers| - 1])
  }

  lemma Snoc(workers: seq<Worker>, k: Kind)
    requires workers != []
    ensures var last := |workers| - 1;
            && Count(workers, k) == Count(workers[..last], k) + One(workers[last], k)
            && Running(workers) == Running(workers[..last]) + JobOf(workers[last])
  {
  }

  lemma {:induction false} CountUpdate(workers: seq<Worker>, i: nat, w: Worker, k: Kind)
    requires i < |workers|
    ensures Count(workers[i := w], k) == Count(workers, k) - One(workers[i], k) + One(w, k)
  {
    var last := |workers| - 1;
    if i == last {
      assert workers[i := w][..last] == workers[..last];
    } else {
      CountUpdate(workers[..last], i, w, k);
      assert workers[i := w][..last] == workers[..last][i := w];
    }
  }

  lemma Swap(rest: multiset<Job>, last: multiset<Job>, out: multiset<Job>, in_: multiset<Job>)
    requires out <= rest
    ensures rest - out + in_ + last == rest + last - out + in_
  {
  }

  lemma {:induction false} RunningUpdate(workers: seq<Worker>, i: nat, w: Worker)
    requires i < |workers|
    ensures JobOf(workers[i]) <= Running(workers)
    ensures Running(workers[i := w]) == Running(workers) - JobOf(workers[i]) + JobOf(w)
  {
    hide Running, JobOf;
    var last := |workers| - 1;
    Snoc(workers, AwakeKind);
    Snoc(workers[i := w], AwakeKind);
    if i == last {
      assert workers[i := w][..last] == workers[..last];
    } else {
      RunningUpdate(workers[..last], i, w);
      assert workers[i := w][..last] == workers[..last][i := w];
      Swap(Running(workers[..last]), JobOf(workers[last]), JobOf(workers[i]), JobOf(w));
    }
  }

  lemma {:induction false} CountPositive(workers: seq<Worker>, i: nat)
    requires i < |workers|
    ensures Count(workers, KindOf(workers[i])) > 0
  {
    if i < |workers| - 1 {
      CountPositive(workers[..|workers| - 1], i);
    }
  }

  lemma {:induction false} CountWitness(workers: seq<Worker>, k: Kind) returns (i: nat)
    requires Count(workers, k) > 0
    ensures i < |workers| && KindOf(workers[i]) == k
  {
    i := |workers| - 1;
    if KindOf(workers[i]) != k {
      i := CountWitness(workers[..i], k);
    }
  }

  lemma {:induction false} CountAll(workers: seq<Worker>)
    ensures Count(workers, AwakeKind) + Count(workers, AsleepKind) + Count(workers, BusyKind)
            + Count(workers, ExitedKind) == |workers|
    ensures Count(workers, BusyKind) == |Running(workers)|
  {
    if workers != [] {
      CountAll(workers[..|workers| - 1]);
    }
  }

  /** A wakeup turns sleepers into awake workers and touches nothing else. */
  lemma {:induction false} WokeCounts(before: seq<Worker>, after: seq<Worker>)
    requires WorkersWoke(before, after)
    ensures Running(after) == Running(before)
    ensures Count(after, BusyKind) == Count(before, BusyKind)
    ensures Count(after, ExitedKind) == Count(before, ExitedKind)
    ensures Count(after, AwakeKind) + Count(after, AsleepKind)
            == Count(before, AwakeKind) + Count(before, AsleepKind)
    ensures if after == before then Count(after, AsleepKind) == Count(before, AsleepKind)
            else Count(after, AsleepKind) < Count(before, AsleepKind)
  {
    hide Count, Running;
    if before == [] {
      assert after == before;
    } else {
      var last := |before| - 1;
      WokeCounts(before[..last], after[..last]);
      forall k ensures Count(before, k) == Count(before[..last], k) + One(before[last], k)
      {
        Snoc(before, k);
      }
      forall k ensures Count(after, k) == Count(after[..last], k) + One(after[last], k)
      {
        Snoc(after, k);
      }
      Snoc(before, AwakeKind);
      Snoc(after, AwakeKind);
      assert before == before[..last] + [before[last]] && after == after[..last] + [after[last]];
    }
  }

  lemma WakeAllCounts(workers: seq<Worker>)
    ensures WorkersWoke(workers, AllWorkersWoken(workers))
    ensures Count(AllWorkersWoken(workers), AsleepKind) == 0
  {
    if Count(AllWorkersWoken(workers), AsleepKind) > 0 {
      var i := CountWitness(AllWorkersWoken(workers), AsleepKind);
    }
  }

  lemma {:induction false} GrownCounts(workers: seq<Worker>, created: nat)
    ensures Running(Grown(workers, created)) == Running(workers)
    ensures Count(Grown(workers, created), AwakeKind) == Count(workers, AwakeKind) + created
    ensures forall k :: k != AwakeKind ==> Count(Grown(workers, created), k) == Count(workers, k)
  {
    hide Count, Running;
    if created > 0 {
      GrownCounts(workers, created - 1);
      var grown := Grown(workers, created);
      assert grown[..|grown| - 1] == Grown(workers, created - 1);
      forall k ensures Count(grown, k) == Count(Grown(workers, created - 1), k) + One(Awake, k)
      {
        Snoc(grown, k);
      }
      Snoc(grown, AwakeKind);
    }
  }

  // What every state of every run satisfies.

  /** Each accepted job is queued, running or finished, once; jobs start in acceptance order. */
  ghost predicate JobsAccounted(s: State)
  {
    && s.accepted == s.started + s.core.queue
    && multiset(s.started) == s.finished + Running(s.workers)
  }

  ghost predicate ThreadsAccounted(s: State)
  {
    && |s.workers| > 0
    && s.core.busy == Count(s.workers, BusyKind)
    && (!s.core.shutdown ==> Count(s.workers, ExitedKind) == 0)
  }

  /** While workers sleep, those awake are enough for the queue or will fill the limit. */
  ghost predicate EnoughAwake(s: State)
  {
    && (Count(s.workers, AsleepKind) > 0 ==>
          || |s.core.queue| <= Count(s.workers, AwakeKind)
          || s.core.limit <= s.core.busy + Count(s.workers, AwakeKind))
    && (s.core.queue != [] ==> Count(s.workers, AwakeKind) + Count(s.workers, BusyKind) > 0)
  }

  /** Only POOL_join shuts down, and once one broadcast is out no worker sleeps. */
  ghost predicate ClosersAccounted(s: State)
  {
    forall c :: 0 <= c < |s.clients| ==>
      && (s.clients[c].Closing? || s.clients[c].Broadcasting? || s.clients[c].Closed? ==> s.core.shutdown)
      && (s.clients[c].Closed? ==> Count(s.workers, AsleepKind) == 0)
  }

  ghost predicate Inv(s: State)
  {
    CoreOk(s.core) && JobsAccounted(s) && ThreadsAccounted(s) && EnoughAwake(s) && ClosersAccounted(s)
  }
}
