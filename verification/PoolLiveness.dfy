/** Progress of the thread pool: workers drain the queue, and a single client is never left
    asleep. */
module PoolLiveness {
  import opened Pool
  import opened PoolRuns
  import opened PoolSafety

  // Progress of the workers alone.

  predicate OfWorker(a: Action) { a.WorkerTest? || a.WorkerFinish? }

  /** Steps that workers can still make before nothing is left to do. */
  function WorkLeft(s: State): nat
  {
    3 * |s.core.queue| + 2 * Count(s.workers, BusyKind) + Count(s.workers, AwakeKind)
  }

  lemma WorkShrinks(s: State, a: Action, t: State)
    requires Inv(s) && OfWorker(a) && Step(s, a, t)
    ensures WorkLeft(t) < WorkLeft(s)
  {
    hide Count, Running;
    match a
    case WorkerTest(w) =>
      Moved(s, w, t.workers[w]);
    case WorkerFinish(w) =>
      Moved(s, w, Awake);
  }

  /** However the workers are scheduled, they run out of steps. */
  lemma {:induction false} WorkersStop(run: seq<State>, actions: seq<Action>)
    requires Run(run, actions) && Inv(run[0])
    requires forall i :: 0 <= i < |actions| ==> OfWorker(actions[i])
    ensures |actions| + WorkLeft(run[|actions|]) <= WorkLeft(run[0])
    ensures Inv(run[|actions|])
  {
    hide WorkLeft, Inv, Step;
    if actions != [] {
      var n := |actions| - 1;
      WorkersStop(run[..n + 1], actions[..n]);
      assert Step(run[n], actions[n], run[n + 1]);
      WorkShrinks(run[n], actions[n], run[n + 1]);
      StepKeeps(run[n], actions[n], run[n + 1]);
    }
  }

  ghost predicate Stuck(s: State)
  {
    forall a, t :: OfWorker(a) ==> !Step(s, a, t)
  }

  /** An awake worker can test and a busy one can finish, whatever the rest of the state. */
  lemma WorkerCanMove(s: State, w: nat) returns (a: Action, t: State)
    requires Inv(s) && w < |s.workers| && (s.workers[w].Awake? || s.workers[w].Busy?)
    ensures OfWorker(a) && Step(s, a, t)
  {
    hide Count, Running;
    CountPositive(s.workers, w);
    var woken := AllClientsWoken(s.clients);
    assert PushSignalled(s.clients, woken) by {
      if i :| 0 <= i < |s.clients| && s.clients[i].Sleeps() {
        assert woken[i] != s.clients[i];
      }
    }
    if s.workers[w].Busy? {
      a := WorkerFinish(w);
      t := s.(core := s.core.(busy := s.core.busy - 1), workers := s.workers[w := Awake], clients := woken,
              finished := s.finished + multiset{s.workers[w].job});
    } else {
      a := WorkerTest(w);
      if MustWait(s.core) {
        t := s.(workers := s.workers[w := if s.core.shutdown then Exited else Asleep]);
      } else {
        var job := s.core.queue[0];
        t := s.(core := Popped(s.core), workers := s.workers[w := Busy(job)], clients := woken,
                started := s.started + [job]);
      }
    }
  }

  /** When the workers can do no more, every accepted job has finished; and after POOL_join's
      broadcasts they have all exited, so joining the threads returns. */
  lemma StuckMeansDone(s: State)
    requires Inv(s) && Stuck(s)
    ensures s.core.queue == [] && s.core.busy == 0 && s.finished == multiset(s.accepted)
    ensures (exists c :: 0 <= c < |s.clients| && s.clients[c].Closed?) ==>
              forall w :: 0 <= w < |s.workers| ==> s.workers[w].Exited?
  {
    hide Count, Running;
    if Count(s.workers, AwakeKind) > 0 {
      var w := CountWitness(s.workers, AwakeKind);
      var a, t := WorkerCanMove(s, w);
      assert false;
    } else if Count(s.workers, BusyKind) > 0 {
      var w := CountWitness(s.workers, BusyKind);
      var a, t := WorkerCanMove(s, w);
      assert false;
    } else {
      CountAll(s.workers);
      forall w | 0 <= w < |s.workers| ensures s.workers[w].Asleep? || s.workers[w].Exited? {
        CountPositive(s.workers, w);
      }
      forall w | 0 <= w < |s.workers| && s.workers[w].Asleep? ensures Count(s.workers, AsleepKind) > 0 {
        CountPositive(s.workers, w);
      }
    }
  }

  // A single client.

  /** What a sleeping client waits for still holds. */
  predicate WaitHolds(core: Core, client: Client)
  {
    match client
    case AddAsleep(_) => Full(core) && !core.shutdown
    case JoinAsleep => core.queue != [] || core.busy > 0
    case _ => true
  }

  ghost predicate SingleInv(s: State)
  {
    Inv(s) && |s.clients| == 1 && WaitHolds(s.core, s.clients[0])
  }

  lemma SignalReachesOnlyClient(before: seq<Client>, after: seq<Client>)
    requires |before| == 1 && PushSignalled(before, after)
    ensures |after| == 1 && !after[0].Sleeps()
  {
    assert after[0] == before[0] ==> after == before;
  }

  lemma SingleKept(s: State, a: Action, t: State)
    requires SingleInv(s) && Step(s, a, t)
    ensures SingleInv(t)
  {
    hide Inv, CoreOk, Full, MustWait;
    StepKeeps(s, a, t);
    if OfWorker(a) && t.core != s.core {
      SignalReachesOnlyClient(s.clients, t.clients);
    }
  }

  lemma {:induction false} SingleKeeps(run: seq<State>, actions: seq<Action>)
    requires Run(run, actions) && SingleInv(run[0])
    ensures forall i :: 0 <= i < |run| ==> SingleInv(run[i])
  {
    hide SingleInv, Step;
    if actions != [] {
      var n := |actions| - 1;
      SingleKeeps(run[..n + 1], actions[..n]);
      assert SingleInv(run[..n + 1][n]);
      SingleKept(run[n], actions[n], run[n + 1]);
    }
  }

  /** No lost wakeup: in every state of every run with one client, a queued job has a worker
      awake for it, and a sleeping client still has cause to wait and a worker awake. */
  lemma NoLostWakeup(run: seq<State>, actions: seq<Action>, i: nat)
    requires RunFromCreation(run, actions) && |run[0].clients| == 1 && i < |run|
    ensures |run[i].clients| == 1 && WaitHolds(run[i].core, run[i].clients[0])
    ensures run[i].core.queue != [] || run[i].clients[0].Sleeps() ==>
              exists w :: 0 <= w < |run[i].workers| && (run[i].workers[w].Awake? || run[i].workers[w].Busy?)
  {
    hide Count, Running, Step;
    var s := run[i];
    assert SingleInv(run[0]) by { EveryStateOk(run, actions); }
    SingleKeeps(run, actions);
    assert SingleInv(s);
    if s.core.queue != [] || s.clients[0].Sleeps() {
      if Count(s.workers, AwakeKind) > 0 {
        var w := CountWitness(s.workers, AwakeKind);
      } else {
        var w := CountWitness(s.workers, BusyKind);
      }
    }
  }

  /** A worker step that leaves the client asleep is a worker going to rest. */
  lemma RestOnly(s: State, a: Action, t: State)
    requires SingleInv(s) && OfWorker(a) && Step(s, a, t) && t.clients[0].Sleeps()
    ensures Count(t.workers, AwakeKind) < Count(s.workers, AwakeKind)
  {
    hide Inv, Count, Running;
    if t.core != s.core {
      SignalReachesOnlyClient(s.clients, t.clients);
      assert false;
    } else {
      var w := a.w;
      Moved(s, w, t.workers[w]);
    }
  }

  /** A sleeping client is woken before the workers have made one more step than there are
      workers awake. */
  lemma {:induction false} SleeperWokenInTime(run: seq<State>, actions: seq<Action>)
    requires Run(run, actions) && SingleInv(run[0])
    requires forall i :: 0 <= i < |actions| ==> OfWorker(actions[i])
    requires forall i :: 0 <= i < |run| ==> |run[i].clients| == 1 && run[i].clients[0].Sleeps()
    ensures |actions| + Count(run[|actions|].workers, AwakeKind) <= Count(run[0].workers, AwakeKind)
  {
    hide SingleInv, Count, Step;
    if actions != [] {
      var n := |actions| - 1;
      SleeperWokenInTime(run[..n + 1], actions[..n]);
      SingleKeeps(run, actions);
      assert SingleInv(run[n]) && Step(run[n], actions[n], run[n + 1]);
      RestOnly(run[n], actions[n], run[n + 1]);
    }
  }
}
