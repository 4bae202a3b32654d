/** When a client of the thread pool can be left asleep for good: exactly when there are two
    clients or more and one of them joins jobs. */
module PoolStranding {
  import opened Pool
  import opened PoolRuns
  import opened PoolSafety
  import opened PoolLiveness

  /** A client that is inside a call and awake: it has a move of its own to make. */
  predicate UnderWay(client: Client)
  {
    client.Adding? || client.Joining? || client.Closing? || client.Broadcasting?
  }

  /** A client sleeps, the workers can do nothing more, and no other client is under way. */
  ghost predicate Stranded(s: State)
  {
    && (exists c :: 0 <= c < |s.clients| && s.clients[c].Sleeps())
    && Stuck(s)
    && forall c :: 0 <= c < |s.clients| ==> !UnderWay(s.clients[c])
  }

  // Clients that never join.

  ghost predicate NoJoinCall(actions: seq<Action>)
  {
    forall i :: 0 <= i < |actions| ==> !actions[i].JoinCall?
  }

  predicate AnyAdding(clients: seq<Client>)
  {
    exists c :: 0 <= c < |clients| && clients[c].Adding?
  }

  predicate AnyClosing(clients: seq<Client>)
  {
    exists c :: 0 <= c < |clients| && clients[c].Closing?
  }

  predicate NoneSleeps(clients: seq<Client>)
  {
    forall c :: 0 <= c < |clients| ==> !clients[c].AddAsleep?
  }

  predicate NoneJoins(clients: seq<Client>)
  {
    forall c :: 0 <= c < |clients| ==> !clients[c].Joining? && !clients[c].JoinAsleep?
  }

  /** Whenever an adder sleeps, something is still to come: a worker's signal, an adder's own
      test, or under shutdown the broadcast. */
  ghost predicate Hope(core: Core, clients: seq<Client>)
  {
    || NoneSleeps(clients)
    || (if core.shutdown then AnyClosing(clients)
        else core.queue != [] || core.busy > 0 || AnyAdding(clients))
  }

  ghost predicate AddersInv(s: State)
  {
    Inv(s) && NoneJoins(s.clients) && Hope(s.core, s.clients)
  }

  /** One client's move keeps the others' places. */
  lemma MoveKeeps(clients: seq<Client>, c: nat, to: Client)
    requires c < |clients| && NoneJoins(clients) && !to.Joining? && !to.JoinAsleep?
    ensures NoneJoins(clients[c := to])
    ensures to.Adding? ==> AnyAdding(clients[c := to])
    ensures to.Closing? ==> AnyClosing(clients[c := to])
    ensures AnyAdding(clients) && !clients[c].Adding? ==> AnyAdding(clients[c := to])
    ensures AnyClosing(clients) && !clients[c].Closing? ==> AnyClosing(clients[c := to])
    ensures NoneSleeps(clients) && !to.AddAsleep? ==> NoneSleeps(clients[c := to])
  {
    var after := clients[c := to];
    assert after[c] == to;
    if AnyAdding(clients) && !clients[c].Adding? {
      var i :| 0 <= i < |clients| && clients[i].Adding?;
      assert after[i].Adding?;
    }
    if AnyClosing(clients) && !clients[c].Closing? {
      var i :| 0 <= i < |clients| && clients[i].Closing?;
      assert after[i].Closing?;
    }
  }

  /** A wakeup leaves no sleeper unless it wakes nobody, and disturbs no one else. */
  lemma WakeKeeps(before: seq<Client>, after: seq<Client>)
    requires ClientsWoke(before, after) && NoneJoins(before)
    ensures NoneJoins(after)
    ensures AnyAdding(before) ==> AnyAdding(after)
    ensures AnyClosing(before) ==> AnyClosing(after)
    ensures NoneSleeps(before) ==> NoneSleeps(after)
    ensures after != before ==> AnyAdding(after)
  {
    if AnyAdding(before) {
      var i :| 0 <= i < |before| && before[i].Adding?;
      assert after[i].Adding?;
    }
    if AnyClosing(before) {
      var i :| 0 <= i < |before| && before[i].Closing?;
      assert after[i].Closing?;
    }
    if after != before {
      var i :| 0 <= i < |before| && after[i] != before[i];
      assert after[i].Adding?;
    }
  }

  lemma SignalGivesHope(before: seq<Client>, after: seq<Client>)
    requires PushSignalled(before, after) && NoneJoins(before)
    ensures NoneJoins(after) && (NoneSleeps(after) || AnyAdding(after))
    ensures AnyClosing(before) ==> AnyClosing(after)
    ensures NoneSleeps(before) ==> NoneSleeps(after)
  {
    WakeKeeps(before, after);
    if !NoneSleeps(before) {
      var i :| 0 <= i < |before| && before[i].AddAsleep?;
      assert before[i].Sleeps();
    }
  }

  lemma AllWokenSleepless(clients: seq<Client>)
    requires NoneJoins(clients)
    ensures NoneSleeps(AllClientsWoken(clients)) && NoneJoins(AllClientsWoken(clients))
  {
  }

  lemma WorkerKeepsHope(s: State, a: Action, t: State)
    requires AddersInv(s) && OfWorker(a) && Step(s, a, t)
    ensures NoneJoins(t.clients) && Hope(t.core, t.clients)
  {
    hide Inv, NoneJoins, NoneSleeps, AnyAdding, AnyClosing, PushSignalled;
    if a.WorkerFinish? || !MustWait(s.core) {
      SignalGivesHope(s.clients, t.clients);
    }
  }

  lemma AddKeepsHope(s: State, c: nat, job: Job, t: State)
    requires AddersInv(s) && c < |s.clients| && !s.clients[c].Closing? && Adds(s, c, job, t)
    ensures NoneJoins(t.clients) && Hope(t.core, t.clients)
  {
    hide Inv, NoneJoins, NoneSleeps, AnyAdding, AnyClosing, PopSignalled;
    MoveKeeps(s.clients, c, Idle);
  }

  lemma FullMeansWork(core: Core)
    requires CoreOk(core) && Full(core)
    ensures core.queue != [] || core.busy > 0
  {
  }

  lemma StepKeepsHope(s: State, a: Action, t: State)
    requires AddersInv(s) && Step(s, a, t) && !a.JoinCall?
    ensures NoneJoins(t.clients) && Hope(t.core, t.clients)
  {
    hide NoneSleeps, AnyAdding, AnyClosing, Adds, Tests, Finishes, Full;
    match a
    case WorkerTest(_) => WorkerKeepsHope(s, a, t);
    case WorkerFinish(_) => WorkerKeepsHope(s, a, t);
    case WorkersStir =>
    case ClientsStir => WakeKeeps(s.clients, t.clients);
    case AddCall(c, job) => MoveKeeps(s.clients, c, Adding(job));
    case AddTest(c) =>
      if Full(s.core) && !s.core.shutdown {
        FullMeansWork(s.core);
        MoveKeeps(s.clients, c, AddAsleep(s.clients[c].job));
      } else {
        AddKeepsHope(s, c, s.clients[c].job, t);
      }
    case TryAdd(c, job) =>
      if !Full(s.core) {
        AddKeepsHope(s, c, job, t);
      }
    case JoinTest(_) =>
    case Resize(_, _, _) =>
    case SetShutdown(c) => MoveKeeps(s.clients, c, Closing);
    case BroadcastPush(c) =>
      AllWokenSleepless(s.clients);
      MoveKeeps(AllClientsWoken(s.clients), c, Broadcasting);
    case BroadcastPop(c) => MoveKeeps(s.clients, c, Closed);
  }

  lemma {:induction false} RunKeepsHope(run: seq<State>, actions: seq<Action>)
    requires Run(run, actions) && AddersInv(run[0]) && NoJoinCall(actions)
    ensures forall i :: 0 <= i < |run| ==> AddersInv(run[i])
  {
    hide Inv, Step, NoneJoins, Hope;
    if actions != [] {
      var n := |actions| - 1;
      RunKeepsHope(run[..n + 1], actions[..n]);
      assert AddersInv(run[..n + 1][n]);
      StepKeeps(run[n], actions[n], run[n + 1]);
      StepKeepsHope(run[n], actions[n], run[n + 1]);
    }
  }

  /** As long as nobody joins, any number of clients may add, resize and shut down: while an
      adder sleeps, a worker or another client has a move to make. */
  lemma AddersNeverStranded(run: seq<State>, actions: seq<Action>, i: nat)
    requires RunFromCreation(run, actions) && NoJoinCall(actions) && i < |run|
    ensures !Stranded(run[i])
  {
    hide Step, Inv;
    EveryStateOk(run, actions);
    RunKeepsHope(run, actions);
    var s := run[i];
    assert AddersInv(s);
    if Stranded(s) {
      StuckMeansDone(s);
      assert false;
    }
  }

  lemma OneNeverStranded(run: seq<State>, actions: seq<Action>, i: nat)
    requires RunFromCreation(run, actions) && |run[0].clients| <= 1 && i < |run|
    ensures !Stranded(run[i])
  {
    hide Step;
    ClientsCounted(run, actions, i);
    if |run[0].clients| == 1 && Stranded(run[i]) {
      NoLostWakeup(run, actions, i);
      EveryStateOk(run, actions);
      var w :| 0 <= w < |run[i].workers| && (run[i].workers[w].Awake? || run[i].workers[w].Busy?);
      var a, t := WorkerCanMove(run[i], w);
      assert false;
    }
  }

  lemma StepCountsClients(s: State, a: Action, t: State)
    requires Step(s, a, t)
    ensures |t.clients| == |s.clients|
  {
  }

  lemma {:induction false} ClientsCounted(run: seq<State>, actions: seq<Action>, i: nat)
    requires Run(run, actions) && i < |run|
    ensures |run[i].clients| == |run[0].clients|
  {
    hide Step;
    if i > 0 {
      ClientsCounted(run, actions, i - 1);
      assert Step(run[i - 1], actions[i - 1], run[i - 1 + 1]);
      StepCountsClients(run[i - 1], actions[i - 1], run[i]);
    }
  }

  // Two clients or more, and one that joins.

  /** Worker 0 is `first`, the next `rested` workers sleep, the others are awake. */
  function Crew(n: nat, rested: nat, first: Worker): (crew: seq<Worker>)
    ensures |crew| == n
  {
    seq(n, i => if i == 0 then first else if i <= rested then Asleep else Awake)
  }

  /** Clients 0 and 1, and the others idle. */
  function Callers(n: nat, c0: Client, c1: Client): (callers: seq<Client>)
    ensures |callers| == n
  {
    seq(n, i => if i == 0 then c0 else if i == 1 then c1 else Idle)
  }

  lemma CrewMoves(n: nat, rested: nat, first: Worker, to: Worker)
    requires n > 0
    ensures Crew(n, rested, first)[0 := to] == Crew(n, rested, to)
    ensures rested + 1 < n ==> Crew(n, rested, first)[rested + 1 := Asleep] == Crew(n, rested + 1, first)
  {
  }

  lemma CallersMove(n: nat, c0: Client, c1: Client, to: Client)
    requires n >= 2
    ensures Callers(n, c0, c1)[0 := to] == Callers(n, to, c1)
    ensures Callers(n, c0, c1)[1 := to] == Callers(n, c0, to)
  {
  }

  lemma {:induction false} CrewGrows(n: nat)
    ensures Grown([], n) == Crew(n, 0, Awake)
  {
    if n > 0 {
      CrewGrows(n - 1);
      assert Crew(n - 1, 0, Awake) + [Awake] == Crew(n, 0, Awake);
    }
  }

  /** How far the pool is with its one job. */
  datatype Progress = Before | Queued(job: Job) | Taken(job: Job) | Done(job: Job)

  function Scene(n: nat, queueSize: nat, p: Progress, rested: nat, first: Worker, callers: seq<Client>): State
  {
    match p
    case Before => State(Core(queueSize + 1, [], 0, n, false), Crew(n, rested, first), callers, [], [], multiset{})
    case Queued(a) => State(Core(queueSize + 1, [a], 0, n, false), Crew(n, rested, first), callers, [a], [], multiset{})
    case Taken(a) => State(Core(queueSize + 1, [], 1, n, false), Crew(n, rested, first), callers, [a], [a], multiset{})
    case Done(a) => State(Core(queueSize + 1, [], 0, n, false), Crew(n, rested, first), callers, [a], [a], multiset{a})
  }

  /** A run from the creation of a pool with these parameters. */
  ghost predicate RunOf(n: nat, queueSize: nat, clientCount: nat, run: seq<State>, actions: seq<Action>)
  {
    n > 0 && Run(run, actions) && run[0] == Created(n, queueSize, clientCount)
  }

  lemma Extend(n: nat, queueSize: nat, clientCount: nat, run: seq<State>, actions: seq<Action>, a: Action, t: State)
    returns (run': seq<State>, actions': seq<Action>)
    requires RunOf(n, queueSize, clientCount, run, actions) && Step(run[|actions|], a, t)
    ensures RunOf(n, queueSize, clientCount, run', actions') && actions' == actions + [a] && run'[|actions'|] == t
  {
    hide Step, Created;
    run', actions' := run + [t], actions + [a];
  }

  lemma Starts(n: nat, queueSize: nat, clientCount: nat)
    requires clientCount >= 2
    ensures Created(n, queueSize, clientCount) == Scene(n, queueSize, Before, 0, Awake, Callers(clientCount, Idle, Idle))
  {
    CrewGrows(n);
    assert seq(clientCount, _ => Idle) == Callers(clientCount, Idle, Idle);
  }

  // The steps of the two runs below.

  lemma CallStep(n: nat, queueSize: nat, m: nat, a: Job)
    requires n > 0 && m >= 2
    ensures Step(Scene(n, queueSize, Before, 0, Awake, Callers(m, Idle, Idle)), AddCall(0, a),
                 Scene(n, queueSize, Before, 0, Awake, Callers(m, Adding(a), Idle)))
  {
    CallersMove(m, Idle, Idle, Adding(a));
  }

  lemma QueueStep(n: nat, queueSize: nat, m: nat, a: Job)
    requires n > 0 && m >= 2
    ensures Step(Scene(n, queueSize, Before, 0, Awake, Callers(m, Adding(a), Idle)), AddTest(0),
                 Scene(n, queueSize, Queued(a), 0, Awake, Callers(m, Idle, Idle)))
  {
    CallersMove(m, Adding(a), Idle, Idle);
  }

  lemma TakeStep(n: nat, queueSize: nat, m: nat, a: Job)
    requires n > 0 && m >= 2
    ensures Step(Scene(n, queueSize, Queued(a), 0, Awake, Callers(m, Idle, Idle)), WorkerTest(0),
                 Scene(n, queueSize, Taken(a), 0, Busy(a), Callers(m, Idle, Idle)))
  {
    CrewMoves(n, 0, Awake, Busy(a));
  }

  lemma RestStep(n: nat, queueSize: nat, p: Progress, rested: nat, first: Worker, callers: seq<Client>)
    requires rested + 1 < n && !p.Queued?
    ensures Step(Scene(n, queueSize, p, rested, first, callers), WorkerTest(rested + 1),
                 Scene(n, queueSize, p, rested + 1, first, callers))
  {
    CrewMoves(n, rested, first, first);
  }

  /** The job is taken, and the other workers go to sleep one after another. */
  lemma JobTaken(n: nat, queueSize: nat, m: nat, a: Job, rested: nat) returns (run: seq<State>, actions: seq<Action>)
    requires n > 0 && m >= 2 && rested < n
    ensures RunOf(n, queueSize, m, run, actions)
    ensures run[|actions|] == Scene(n, queueSize, Taken(a), rested, Busy(a), Callers(m, Idle, Idle))
  {
    hide Step, Scene;
    if rested == 0 {
      Starts(n, queueSize, m);
      run, actions := [Created(n, queueSize, m)], [];
      CallStep(n, queueSize, m, a);
      run, actions := Extend(n, queueSize, m, run, actions, AddCall(0, a),
                             Scene(n, queueSize, Before, 0, Awake, Callers(m, Adding(a), Idle)));
      QueueStep(n, queueSize, m, a);
      run, actions := Extend(n, queueSize, m, run, actions, AddTest(0),
                             Scene(n, queueSize, Queued(a), 0, Awake, Callers(m, Idle, Idle)));
      TakeStep(n, queueSize, m, a);
      run, actions := Extend(n, queueSize, m, run, actions, WorkerTest(0),
                             Scene(n, queueSize, Taken(a), 0, Busy(a), Callers(m, Idle, Idle)));
    } else {
      run, actions := JobTaken(n, queueSize, m, a, rested - 1);
      RestStep(n, queueSize, Taken(a), rested - 1, Busy(a), Callers(m, Idle, Idle));
      run, actions := Extend(n, queueSize, m, run, actions, WorkerTest(rested),
                             Scene(n, queueSize, Taken(a), rested, Busy(a), Callers(m, Idle, Idle)));
    }
  }

  /** A client's own step that changes nothing but its place. */
  lemma ClientStep(n: nat, queueSize: nat, p: Progress, rested: nat, first: Worker, m: nat,
                   c0: Client, c1: Client, d0: Client, d1: Client, a: Action)
    requires n > 0 && m >= 2
    requires a == JoinCall(0) ==> c0 == Idle && d0 == Joining && d1 == c1
    requires a == JoinCall(1) ==> c1 == Idle && d1 == Joining && d0 == c0
    requires a == JoinTest(0) ==> c0 == Joining && d0 == (if p.Taken? then JoinAsleep else Idle) && d1 == c1
    requires a == JoinTest(1) ==> c1 == Joining && d1 == (if p.Taken? then JoinAsleep else Idle) && d0 == c0
    requires a in {JoinCall(0), JoinCall(1), JoinTest(0), JoinTest(1)} && !p.Queued?
    ensures Step(Scene(n, queueSize, p, rested, first, Callers(m, c0, c1)), a,
                 Scene(n, queueSize, p, rested, first, Callers(m, d0, d1)))
  {
    CallersMove(m, c0, c1, d0);
    CallersMove(m, c0, c1, d1);
  }

  /** The worker finishes, and its signal reaches only one sleeping joiner. */
  lemma FinishStep(n: nat, queueSize: nat, m: nat, a: Job, c1: Client)
    requires n > 0 && m >= 2
    ensures Step(Scene(n, queueSize, Taken(a), n - 1, Busy(a), Callers(m, JoinAsleep, c1)), WorkerFinish(0),
                 Scene(n, queueSize, Done(a), n - 1, Awake, Callers(m, Joining, c1)))
  {
    CrewMoves(n, n - 1, Busy(a), Awake);
    var before, after := Callers(m, JoinAsleep, c1), Callers(m, Joining, c1);
    assert after[0] != before[0];
  }

  lemma LastRestStep(n: nat, queueSize: nat, a: Job, callers: seq<Client>)
    requires n > 0
    ensures Step(Scene(n, queueSize, Done(a), n - 1, Awake, callers), WorkerTest(0),
                 Scene(n, queueSize, Done(a), n - 1, Asleep, callers))
  {
    CrewMoves(n, n - 1, Awake, Asleep);
  }

  /** Once client 0 sleeps in POOL_joinJobs and client 1 sleeps too, the job's end wakes client
      0 alone, which returns. */
  lemma Abandoned(n: nat, queueSize: nat, m: nat, a: Job, c1: Client, run: seq<State>, actions: seq<Action>)
    returns (run': seq<State>, actions': seq<Action>)
    requires RunOf(n, queueSize, m, run, actions) && m >= 2 && c1.Sleeps()
    requires run[|actions|] == Scene(n, queueSize, Taken(a), n - 1, Busy(a), Callers(m, JoinAsleep, c1))
    ensures RunOf(n, queueSize, m, run', actions')
    ensures run'[|actions'|] == Scene(n, queueSize, Done(a), n - 1, Asleep, Callers(m, Idle, c1))
    ensures Stranded(run'[|actions'|])
  {
    hide Step, Scene, Stranded;
    FinishStep(n, queueSize, m, a, c1);
    run', actions' := Extend(n, queueSize, m, run, actions, WorkerFinish(0),
                             Scene(n, queueSize, Done(a), n - 1, Awake, Callers(m, Joining, c1)));
    LastRestStep(n, queueSize, a, Callers(m, Joining, c1));
    run', actions' := Extend(n, queueSize, m, run', actions', WorkerTest(0),
                             Scene(n, queueSize, Done(a), n - 1, Asleep, Callers(m, Joining, c1)));
    ClientStep(n, queueSize, Done(a), n - 1, Asleep, m, Joining, c1, Idle, c1, JoinTest(0));
    run', actions' := Extend(n, queueSize, m, run', actions', JoinTest(0),
                             Scene(n, queueSize, Done(a), n - 1, Asleep, Callers(m, Idle, c1)));
    NobodyMoves(n, queueSize, m, a, c1);
  }

  lemma NobodyMoves(n: nat, queueSize: nat, m: nat, a: Job, c1: Client)
    requires n > 0 && m >= 2 && c1.Sleeps()
    ensures Stranded(Scene(n, queueSize, Done(a), n - 1, Asleep, Callers(m, Idle, c1)))
  {
    assert Callers(m, Idle, c1)[1].Sleeps();
  }

  /** Two joiners: for every number of threads, every queue size and any two clients or more,
      one of them can be left asleep in POOL_joinJobs with nothing queued or running. */
  lemma JoinerStranded(n: nat, queueSize: nat, m: nat, a: Job) returns (run: seq<State>, actions: seq<Action>)
    requires n > 0 && m >= 2
    ensures RunOf(n, queueSize, m, run, actions) && Stranded(run[|actions|])
    ensures run[|actions|].clients == Callers(m, Idle, JoinAsleep)
    ensures run[|actions|].core.queue == [] && run[|actions|].core.busy == 0 && !run[|actions|].core.shutdown
  {
    run, actions := JobTaken(n, queueSize, m, a, n - 1);
    hide Step, Stranded;
    ClientStep(n, queueSize, Taken(a), n - 1, Busy(a), m, Idle, Idle, Joining, Idle, JoinCall(0));
    run, actions := Extend(n, queueSize, m, run, actions, JoinCall(0),
                           Scene(n, queueSize, Taken(a), n - 1, Busy(a), Callers(m, Joining, Idle)));
    ClientStep(n, queueSize, Taken(a), n - 1, Busy(a), m, Joining, Idle, JoinAsleep, Idle, JoinTest(0));
    run, actions := Extend(n, queueSize, m, run, actions, JoinTest(0),
                           Scene(n, queueSize, Taken(a), n - 1, Busy(a), Callers(m, JoinAsleep, Idle)));
    ClientStep(n, queueSize, Taken(a), n - 1, Busy(a), m, JoinAsleep, Idle, JoinAsleep, Joining, JoinCall(1));
    run, actions := Extend(n, queueSize, m, run, actions, JoinCall(1),
                           Scene(n, queueSize, Taken(a), n - 1, Busy(a), Callers(m, JoinAsleep, Joining)));
    ClientStep(n, queueSize, Taken(a), n - 1, Busy(a), m, JoinAsleep, Joining, JoinAsleep, JoinAsleep, JoinTest(1));
    run, actions := Extend(n, queueSize, m, run, actions, JoinTest(1),
                           Scene(n, queueSize, Taken(a), n - 1, Busy(a), Callers(m, JoinAsleep, JoinAsleep)));
    run, actions := Abandoned(n, queueSize, m, a, JoinAsleep, run, actions);
  }

  lemma WaitingAdd(m: nat, a: Job, b: Job)
    requires m >= 2
    ensures Step(Scene(1, 0, Taken(a), 0, Busy(a), Callers(m, JoinAsleep, Idle)), AddCall(1, b),
                 Scene(1, 0, Taken(a), 0, Busy(a), Callers(m, JoinAsleep, Adding(b))))
    ensures Step(Scene(1, 0, Taken(a), 0, Busy(a), Callers(m, JoinAsleep, Adding(b))), AddTest(1),
                 Scene(1, 0, Taken(a), 0, Busy(a), Callers(m, JoinAsleep, AddAsleep(b))))
  {
    CallersMove(m, JoinAsleep, Idle, Adding(b));
    CallersMove(m, JoinAsleep, Adding(b), AddAsleep(b));
  }

  /** A joiner and an adder: in a pool of one thread and no spare slot, the adder can be left
      asleep although the queue is no longer full. */
  lemma AdderStranded(m: nat, a: Job, b: Job) returns (run: seq<State>, actions: seq<Action>)
    requires m >= 2
    ensures RunOf(1, 0, m, run, actions) && Stranded(run[|actions|])
    ensures run[|actions|].clients == Callers(m, Idle, AddAsleep(b))
    ensures !Full(run[|actions|].core) && !run[|actions|].core.shutdown
  {
    run, actions := JobTaken(1, 0, m, a, 0);
    hide Step, Stranded;
    ClientStep(1, 0, Taken(a), 0, Busy(a), m, Idle, Idle, Joining, Idle, JoinCall(0));
    run, actions := Extend(1, 0, m, run, actions, JoinCall(0),
                           Scene(1, 0, Taken(a), 0, Busy(a), Callers(m, Joining, Idle)));
    ClientStep(1, 0, Taken(a), 0, Busy(a), m, Joining, Idle, JoinAsleep, Idle, JoinTest(0));
    run, actions := Extend(1, 0, m, run, actions, JoinTest(0),
                           Scene(1, 0, Taken(a), 0, Busy(a), Callers(m, JoinAsleep, Idle)));
    WaitingAdd(m, a, b);
    run, actions := Extend(1, 0, m, run, actions, AddCall(1, b),
                           Scene(1, 0, Taken(a), 0, Busy(a), Callers(m, JoinAsleep, Adding(b))));
    run, actions := Extend(1, 0, m, run, actions, AddTest(1),
                           Scene(1, 0, Taken(a), 0, Busy(a), Callers(m, JoinAsleep, AddAsleep(b))));
    run, actions := Abandoned(1, 0, m, a, AddAsleep(b), run, actions);
  }

  // Exactly when.

  /** No run of such a pool strands a client, where the clients may or may not join jobs. */
  ghost predicate NeverStrands(n: nat, queueSize: nat, clientCount: nat, joins: bool)
  {
    forall run, actions ::
      RunOf(n, queueSize, clientCount, run, actions) && (joins || NoJoinCall(actions)) ==>
        !Stranded(run[|actions|])
  }

  /** The wakeups of a pool suffice if and only if it has at most one client, or nobody joins. */
  lemma StrandingExact(n: nat, queueSize: nat, clientCount: nat, joins: bool)
    requires n > 0
    ensures NeverStrands(n, queueSize, clientCount, joins) <==> clientCount <= 1 || !joins
  {
    hide Step, Stranded, NoJoinCall;
    if clientCount <= 1 || !joins {
      forall run, actions | RunOf(n, queueSize, clientCount, run, actions) && (joins || NoJoinCall(actions))
        ensures !Stranded(run[|actions|])
      {
        if clientCount <= 1 {
          OneNeverStranded(run, actions, |actions|);
        } else {
          AddersNeverStranded(run, actions, |actions|);
        }
      }
    } else {
      var run, actions := JoinerStranded(n, queueSize, clientCount, Job(0, 0));
    }
  }
}
