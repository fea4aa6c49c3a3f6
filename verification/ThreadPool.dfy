/** The thread pool of ThreadPool/ThreadPool.h as a system of interleaved steps: any number of
    worker threads, any number of client threads that call enqueue, and one thread that runs the
    destructor. A step is one lock acquisition, one critical section up to its unlock, or one
    action outside the lock. */
module ThreadPool {

  type Task(==, !new)

  datatype Worker =
    | AtLock            // about to lock queue_mutex: just started, woken, or done with a task
    | Holding           // holds the mutex, about to test the predicate
    | Asleep            // blocked in condition.wait
    | HasTask(t: Task)  // outside the lock, running a task
    | Returned

  datatype Client =
    | Idle
    | Entered(t: Task)  // inside enqueue, holds the mutex
    | Pushed            // mutex released, notify_one still to come

  datatype Destructor =
    | NotCalled
    | Stopping          // holds the mutex
    | Announcing        // mutex released, notify_all still to come
    | Joining(n: nat)   // the first n workers have been joined

  datatype Thread = W(i: nat) | C(c: nat) | D

  datatype Owner = Free | Held(who: Thread)

  /** The last four fields are history: tasks accepted and refused in lock order, tasks in the
      order they left the queue, and tasks in the order they ended. */
  datatype State = State(
    workers: seq<Worker>, clients: seq<Client>, dtor: Destructor, mutex: Owner,
    tasks: seq<Task>, stop: bool,
    accepted: seq<Task>, refused: seq<Task>, taken: seq<Task>, finished: seq<Task>)

  datatype Step =
    | Acquire(i: nat) | Sleep(i: nat) | Return(i: nat) | Take(i: nat) | Finish(i: nat) | Spurious(i: nat)
    | Enter(c: nat, t: Task) | Push(c: nat) | Refuse(c: nat) | NotifyOne(c: nat, i: nat)
    | BeginStop | SetStop | NotifyAll | Join

  predicate Enabled(s: State, a: Step) {
    match a
    case Acquire(i) => i < |s.workers| && s.workers[i] == AtLock && s.mutex == Free
    case Sleep(i) => i < |s.workers| && s.workers[i] == Holding && !s.stop && s.tasks == []
    case Return(i) => i < |s.workers| && s.workers[i] == Holding && s.stop && s.tasks == []
    case Take(i) => i < |s.workers| && s.workers[i] == Holding && s.tasks != []
    case Finish(i) => i < |s.workers| && s.workers[i].HasTask?
    case Spurious(i) => i < |s.workers| && s.workers[i] == Asleep
    case Enter(c, _) => c < |s.clients| && s.clients[c] == Idle && s.mutex == Free
    case Push(c) => c < |s.clients| && s.clients[c].Entered? && !s.stop
    case Refuse(c) => c < |s.clients| && s.clients[c].Entered? && s.stop
    // notify_one wakes some sleeping worker, and does nothing when none sleeps
    case NotifyOne(c, i) => c < |s.clients| && s.clients[c] == Pushed &&
      (if i < |s.workers| then s.workers[i] == Asleep else Asleep !in s.workers)
    case BeginStop => s.dtor == NotCalled && s.mutex == Free
    case SetStop => s.dtor == Stopping
    case NotifyAll => s.dtor == Announcing
    case Join => s.dtor.Joining? && s.dtor.n < |s.workers| && s.workers[s.dtor.n] == Returned
  }

  function Wake(ws: seq<Worker>): (r: seq<Worker>)
    ensures |r| == |ws| && forall i :: 0 <= i < |ws| ==> r[i] == if ws[i] == Asleep then AtLock else ws[i]
  {
    seq(|ws|, i requires 0 <= i < |ws| => if ws[i] == Asleep then AtLock else ws[i])
  }

  function Do(s: State, a: Step): State
    requires Enabled(s, a)
  {
    match a
    case Acquire(i) => s.(workers := s.workers[i := Holding], mutex := Held(W(i)))
    case Sleep(i) => s.(workers := s.workers[i := Asleep], mutex := Free)
    case Return(i) => s.(workers := s.workers[i := Returned], mutex := Free)
    case Take(i) => s.(workers := s.workers[i := HasTask(s.tasks[0])], mutex := Free,
                       tasks := s.tasks[1..], taken := s.taken + [s.tasks[0]])
    case Finish(i) => s.(workers := s.workers[i := AtLock], finished := s.finished + [s.workers[i].t])
    case Spurious(i) => s.(workers := s.workers[i := AtLock])
    case Enter(c, t) => s.(clients := s.clients[c := Entered(t)], mutex := Held(C(c)))
    case Push(c) => s.(clients := s.clients[c := Pushed], mutex := Free,
                       tasks := s.tasks + [s.clients[c].t], accepted := s.accepted + [s.clients[c].t])
    case Refuse(c) => s.(clients := s.clients[c := Idle], mutex := Free, refused := s.refused + [s.clients[c].t])
    case NotifyOne(c, i) => s.(clients := s.clients[c := Idle],
                               workers := if i < |s.workers| then s.workers[i := AtLock] else s.workers)
    case BeginStop => s.(dtor := Stopping, mutex := Held(D))
    case SetStop => s.(dtor := Announcing, mutex := Free, stop := true)
    case NotifyAll => s.(dtor := Joining(0), workers := Wake(s.workers))
    case Join => s.(dtor := Joining(s.dtor.n + 1))
  }

  ghost predicate Init(s: State) {
    && (forall i :: 0 <= i < |s.workers| ==> s.workers[i] == AtLock)
    && (forall c :: 0 <= c < |s.clients| ==> s.clients[c] == Idle)
    && s.dtor == NotCalled && s.mutex == Free && s.tasks == [] && !s.stop
    && s.accepted == s.refused == s.taken == s.finished == []
  }

  /** A run is a sequence of steps, each enabled in the state that the ones before it lead to. */
  ghost predicate IsRun(s: State, run: seq<Step>)
    decreases |run|, 0
  {
    run == [] || (IsRun(s, run[..|run| - 1]) && Enabled(After(s, run[..|run| - 1]), run[|run| - 1]))
  }

  ghost function After(s: State, run: seq<Step>): State
    requires IsRun(s, run)
    decreases |run|, 1
  {
    if run == [] then s else Do(After(s, run[..|run| - 1]), run[|run| - 1])
  }

  // ---- the invariant ----

  /** The mutex is held by exactly the thread that stands inside a critical section. */
  ghost predicate MutexInv(s: State) {
    && (forall i :: 0 <= i < |s.workers| ==> (s.workers[i] == Holding <==> s.mutex == Held(W(i))))
    && (forall c :: 0 <= c < |s.clients| ==> (s.clients[c].Entered? <==> s.mutex == Held(C(c))))
    && (s.dtor == Stopping <==> s.mutex == Held(D))
    && (s.mutex.Held? && s.mutex.who.W? ==> s.mutex.who.i < |s.workers|)
    && (s.mutex.Held? && s.mutex.who.C? ==> s.mutex.who.c < |s.clients|)
  }

  /** The tasks that workers are running now. */
  ghost function Running(ws: seq<Worker>): multiset<Task> {
    if ws == [] then multiset{} else
      Running(ws[..|ws| - 1]) + TaskOf(ws[|ws| - 1])
  }

  ghost function TaskOf(w: Worker): multiset<Task> {
    if w.HasTask? then multiset{w.t} else multiset{}
  }

  /** Tasks leave the queue in the order in which they were accepted, and what left the queue is
      either running or has ended, each task exactly once. */
  ghost predicate TaskInv(s: State) {
    && s.accepted == s.taken + s.tasks
    && multiset(s.taken) == multiset(s.finished) + Running(s.workers)
  }

  predicate Awake(w: Worker) { w == AtLock || w == Holding || w.HasTask? }

  /** A non-empty queue has a worker that will look at it, or a wake-up that is still to come. */
  ghost predicate NoLostWakeup(s: State) {
    s.tasks != [] && s.workers != [] ==>
      || (exists i :: 0 <= i < |s.workers| && Awake(s.workers[i]))
      || (exists c :: 0 <= c < |s.clients| && s.clients[c] == Pushed)
      || s.dtor == Announcing
  }

  ghost predicate StopInv(s: State) {
    && (s.stop <==> s.dtor == Announcing || s.dtor.Joining?)
    && (Returned in s.workers ==> s.stop && s.tasks == [])
    && (s.dtor.Joining? ==> Asleep !in s.workers && s.dtor.n <= |s.workers|)
    && (s.dtor.Joining? ==> forall i :: 0 <= i < s.dtor.n ==> s.workers[i] == Returned)
  }

  ghost predicate Inv(s: State) {
    MutexInv(s) && TaskInv(s) && NoLostWakeup(s) && StopInv(s)
  }

  lemma {:induction false} RunningUpdate(ws: seq<Worker>, i: nat, w: Worker)
    requires i < |ws|
    ensures Running(ws[i := w]) + TaskOf(ws[i]) == Running(ws) + TaskOf(w)
  {
    hide TaskOf;
    var n := |ws| - 1;
    var ws' := ws[i := w];
    if i == n {
      assert ws'[..n] == ws[..n];
    } else {
      assert ws'[..n] == ws[..n][i := w];
      RunningUpdate(ws[..n], i, w);
      calc {
        Running(ws') + TaskOf(ws[i]);
        (Running(ws'[..n]) + TaskOf(ws[i])) + TaskOf(ws[n]);
        (Running(ws[..n]) + TaskOf(w)) + TaskOf(ws[n]);
        Running(ws) + TaskOf(w);
      }
    }
  }

  lemma RunningSame(ws: seq<Worker>, i: nat, w: Worker)
    requires i < |ws| && !w.HasTask? && !ws[i].HasTask?
    ensures Running(ws[i := w]) == Running(ws)
  {
    RunningUpdate(ws, i, w);
    assert Running(ws[i := w]) + multiset{} == Running(ws[i := w]);
    assert Running(ws) + multiset{} == Running(ws);
  }

  lemma {:induction false} RunningWake(ws: seq<Worker>)
    ensures Running(Wake(ws)) == Running(ws)
  {
    if ws != [] {
      assert Wake(ws)[..|ws| - 1] == Wake(ws[..|ws| - 1]);
      RunningWake(ws[..|ws| - 1]);
    }
  }

  lemma {:induction false} NoneRunning(ws: seq<Worker>)
    requires forall i :: 0 <= i < |ws| ==> !ws[i].HasTask?
    ensures Running(ws) == multiset{}
  {
    if ws != [] {
      NoneRunning(ws[..|ws| - 1]);
    }
  }

  lemma MutexStep(s: State, a: Step)
    requires MutexInv(s) && Enabled(s, a)
    ensures MutexInv(Do(s, a))
  {}

  lemma TakeStep(s: State, i: nat)
    requires TaskInv(s) && Enabled(s, Take(i))
    ensures TaskInv(Do(s, Take(i)))
  {
    hide Running;
    var t := s.tasks[0];
    var r, r' := Running(s.workers), Running(s.workers[i := HasTask(t)]);
    assert r' == r + multiset{t} by {
      RunningUpdate(s.workers, i, HasTask(t));
    }
    FirstLeaves(s.taken, s.tasks);
  }

  lemma FirstLeaves(taken: seq<Task>, tasks: seq<Task>)
    requires tasks != []
    ensures taken + tasks == (taken + [tasks[0]]) + tasks[1..]
    ensures multiset(taken + [tasks[0]]) == multiset(taken) + multiset{tasks[0]}
  {}

  lemma FinishStep(s: State, i: nat)
    requires TaskInv(s) && Enabled(s, Finish(i))
    ensures TaskInv(Do(s, Finish(i)))
  {
    var t := s.workers[i].t;
    RunningUpdate(s.workers, i, AtLock);
    var r, r' := Running(s.workers), Running(s.workers[i := AtLock]);
    assert r' + multiset{t} == r;
    assert multiset(s.finished + [t]) == multiset(s.finished) + multiset{t};
  }

  lemma TaskStep(s: State, a: Step)
    requires TaskInv(s) && Enabled(s, a)
    ensures TaskInv(Do(s, a))
  {
    hide Running, Wake;
    var s' := Do(s, a);
    match a
    case Take(i) => TakeStep(s, i);
    case Finish(i) => FinishStep(s, i);
    case NotifyAll => RunningWake(s.workers);
    case NotifyOne(c, i) =>
      if i < |s.workers| {
        RunningSame(s.workers, i, AtLock);
      }
    case Push(c) => assert s'.accepted == s'.taken + s'.tasks;
    case Acquire(i) => RunningSame(s.workers, i, Holding);
    case Sleep(i) => RunningSame(s.workers, i, Asleep);
    case Return(i) => RunningSame(s.workers, i, Returned);
    case Spurious(i) => RunningSame(s.workers, i, AtLock);
    case _ =>
  }

  lemma StopStep(s: State, a: Step)
    requires MutexInv(s) && StopInv(s) && Enabled(s, a)
    ensures StopInv(Do(s, a))
  {
    var s' := Do(s, a);
    if Returned in s'.workers && !a.Return? {
      var i :| 0 <= i < |s'.workers| && s'.workers[i] == Returned;
      assert s.workers[i] == Returned;
    }
    if Asleep in s'.workers && !a.Sleep? {
      var i :| 0 <= i < |s'.workers| && s'.workers[i] == Asleep;
      assert s.workers[i] == Asleep;
    }
  }

  lemma WakeupStep(s: State, a: Step)
    requires MutexInv(s) && StopInv(s) && NoLostWakeup(s) && Enabled(s, a)
    ensures NoLostWakeup(Do(s, a))
  {
    var s' := Do(s, a);
    if s'.tasks != [] && s'.workers != [] {
      match a
      case Push(c) => assert s'.clients[c] == Pushed;
      case NotifyOne(c, i) =>
        var j := if i < |s.workers| then i else 0;
        assert Awake(s'.workers[j]) by { assert s.workers[0] in s.workers; }
      case NotifyAll =>
        assert Awake(s'.workers[0]) by { assert s.workers[0] in s.workers; }
      case Acquire(i) => assert Awake(s'.workers[i]);
      case Take(i) => assert Awake(s'.workers[i]);
      case Finish(i) => assert Awake(s'.workers[i]);
      case Spurious(i) => assert Awake(s'.workers[i]);
      case Sleep(i) =>
      case Return(i) =>
      case Enter(d, t) => KeepWitness(s, s');
      case Refuse(d) => KeepWitness(s, s');
      case _ => KeepWitness(s, s');
    }
  }

  lemma KeepWitness(s: State, s': State)
    requires NoLostWakeup(s) && s.tasks != [] && s'.workers == s.workers != []
    requires |s.clients| == |s'.clients|
    requires forall c :: 0 <= c < |s.clients| && s.clients[c] == Pushed ==> s'.clients[c] == Pushed
    requires s.dtor == Announcing ==> s'.dtor == Announcing
    ensures NoLostWakeup(s')
  {}

  lemma InvStep(s: State, a: Step)
    requires Inv(s) && Enabled(s, a)
    ensures Inv(Do(s, a))
  {
    hide MutexInv, TaskInv, NoLostWakeup, StopInv, Do;
    MutexStep(s, a);
    TaskStep(s, a);
    StopStep(s, a);
    WakeupStep(s, a);
  }

  lemma InitInv(s: State)
    requires Init(s)
    ensures Inv(s)
  {
    NoneRunning(s.workers);
  }

  lemma SameWorkers(s: State, a: Step)
    requires Enabled(s, a)
    ensures |Do(s, a).workers| == |s.workers|
  {}

  /** Safety over every interleaving. */
  lemma {:induction false} RunInv(s: State, run: seq<Step>)
    requires Init(s) && IsRun(s, run)
    ensures Inv(After(s, run)) && |After(s, run).workers| == |s.workers|
  {
    hide Inv, Enabled, Init, Do;
    if run == [] {
      InitInv(s);
    } else {
      var y, a := After(s, run[..|run| - 1]), run[|run| - 1];
      RunInv(s, run[..|run| - 1]);
      InvStep(y, a);
      SameWorkers(y, a);
    }
  }

  // ---- main results ----

  /** Tasks start in the order of their acceptance, none is lost and none runs twice. */
  lemma TasksInOrderOnce(s: State, run: seq<Step>)
    requires Init(s) && IsRun(s, run)
    ensures var z := After(s, run);
      z.taken <= z.accepted && multiset(z.finished) + Running(z.workers) + multiset(z.tasks) == multiset(z.accepted)
  {
    RunInv(s, run);
  }

  /** When every worker has returned, exactly the accepted tasks have been executed, once each. */
  lemma AllExecuted(s: State, run: seq<Step>)
    requires Init(s) && s.workers != [] && IsRun(s, run)
    requires forall i :: 0 <= i < |After(s, run).workers| ==> After(s, run).workers[i] == Returned
    ensures multiset(After(s, run).finished) == multiset(After(s, run).accepted)
  {
    RunInv(s, run);
    var z := After(s, run);
    NoneRunning(z.workers);
    assert z.workers[0] in z.workers;
    assert z.accepted == z.taken;
  }

  /** Every call of enqueue is accepted until the destructor sets stop. */
  lemma {:induction false} NoneRefusedBefore(s: State, run: seq<Step>)
    requires Init(s) && IsRun(s, run)
    ensures !After(s, run).stop ==> After(s, run).refused == []
  {
    if run != [] {
      NoneRefusedBefore(s, run[..|run| - 1]);
    }
  }

  /** None is accepted from then on, whatever else happens. */
  lemma {:induction false} NoneAcceptedAfter(s: State, rest: seq<Step>)
    requires s.stop && IsRun(s, rest)
    ensures After(s, rest).stop && After(s, rest).accepted == s.accepted && s.refused <= After(s, rest).refused
  {
    if rest != [] {
      NoneAcceptedAfter(s, rest[..|rest| - 1]);
    }
  }

  /** Steps the pool takes by itself: everything but a new call of enqueue or of the destructor,
      and wake-ups without cause. */
  predicate Internal(a: Step) { !a.Enter? && !a.BeginStop? && !a.Spurious? }

  /** Nothing to do: the queue is empty, every worker sleeps and no call is under way. */
  ghost predicate Quiet(s: State) {
    && s.tasks == [] && s.dtor == NotCalled
    && (forall i :: 0 <= i < |s.workers| ==> s.workers[i] == Asleep)
    && (forall c :: 0 <= c < |s.clients| ==> s.clients[c] == Idle)
  }

  /** The destructor has joined every worker and no call is under way. */
  ghost predicate Destroyed(s: State) {
    && s.dtor == Joining(|s.workers|)
    && (forall i :: 0 <= i < |s.workers| ==> s.workers[i] == Returned)
    && (forall c :: 0 <= c < |s.clients| ==> s.clients[c] == Idle)
  }

  /** A thread inside a critical section can always leave it. */
  lemma HolderMoves(s: State)
    requires MutexInv(s) && s.mutex.Held?
    ensures exists a :: Enabled(s, a) && Internal(a)
  {
    match s.mutex.who
    case W(i) =>
      var a := if s.tasks != [] then Take(i) else if s.stop then Return(i) else Sleep(i);
      assert Enabled(s, a) && Internal(a);
    case C(c) =>
      var a := if s.stop then Refuse(c) else Push(c);
      assert Enabled(s, a) && Internal(a);
    case D =>
      assert Enabled(s, SetStop) && Internal(SetStop);
  }

  lemma BusyMoves(s: State)
    requires s.mutex == Free && MutexInv(s)
    requires (exists i :: 0 <= i < |s.workers| && Awake(s.workers[i]))
          || (exists c :: 0 <= c < |s.clients| && s.clients[c] == Pushed) || s.dtor == Announcing
    ensures exists a :: Enabled(s, a) && Internal(a)
  {
    if s.dtor == Announcing {
      assert Enabled(s, NotifyAll) && Internal(NotifyAll);
    } else if i :| 0 <= i < |s.workers| && Awake(s.workers[i]) {
      var a := if s.workers[i] == AtLock then Acquire(i) else Finish(i);
      assert Enabled(s, a) && Internal(a);
    } else {
      var c :| 0 <= c < |s.clients| && s.clients[c] == Pushed;
      if j :| 0 <= j < |s.workers| && s.workers[j] == Asleep {
        assert Enabled(s, NotifyOne(c, j)) && Internal(NotifyOne(c, j));
      } else {
        assert Enabled(s, NotifyOne(c, |s.workers|)) && Internal(NotifyOne(c, |s.workers|));
      }
    }
  }

  /** No deadlock: a reachable state in which the pool cannot move by itself is quiet or destroyed. */
  lemma NeverStuck(s: State, run: seq<Step>)
    requires Init(s) && s.workers != [] && IsRun(s, run)
    ensures var z := After(s, run);
      Quiet(z) || Destroyed(z) || exists a :: Enabled(z, a) && Internal(a)
  {
    RunInv(s, run);
    var z := After(s, run);
    if z.mutex.Held? {
      HolderMoves(z);
    } else if (exists i :: 0 <= i < |z.workers| && Awake(z.workers[i]))
           || (exists c :: 0 <= c < |z.clients| && z.clients[c] == Pushed) || z.dtor == Announcing {
      BusyMoves(z);
    } else {
      forall i | 0 <= i < |z.workers| ensures z.workers[i] == Asleep || z.workers[i] == Returned {
        assert !Awake(z.workers[i]);
      }
      forall c | 0 <= c < |z.clients| ensures z.clients[c] == Idle {}
      if z.dtor.Joining? {
        forall i | 0 <= i < |z.workers| ensures z.workers[i] == Returned {
          assert z.workers[i] in z.workers;
        }
        if z.dtor.n < |z.workers| {
          assert Enabled(z, Join) && Internal(Join);
        }
      } else {
        forall i | 0 <= i < |z.workers| ensures z.workers[i] == Asleep {
          assert z.workers[i] in z.workers;
        }
      }
    }
  }

  // ---- shutdown ends ----

  function WorkerRank(w: Worker): nat {
    match w case Returned => 0 case Holding => 1 case AtLock => 2 case Asleep => 3 case HasTask(_) => 3
  }

  function ClientRank(c: Client): nat {
    match c case Idle => 0 case Pushed => 1 case Entered(_) => 2
  }

  function WorkersRank(ws: seq<Worker>): nat {
    if ws == [] then 0 else WorkersRank(ws[..|ws| - 1]) + WorkerRank(ws[|ws| - 1])
  }

  function ClientsRank(cs: seq<Client>): nat {
    if cs == [] then 0 else ClientsRank(cs[..|cs| - 1]) + ClientRank(cs[|cs| - 1])
  }

  /** An upper bound on the steps left until the pool is destroyed. */
  function Rank(s: State): nat {
    3 * |s.tasks| + WorkersRank(s.workers) + ClientsRank(s.clients) +
    (match s.dtor
     case Joining(n) => if n <= |s.workers| then |s.workers| - n else 0
     case _ => |s.workers| + 1)
  }

  lemma {:induction false} WorkersRankUpdate(ws: seq<Worker>, i: nat, w: Worker)
    requires i < |ws|
    ensures WorkersRank(ws[i := w]) + WorkerRank(ws[i]) == WorkersRank(ws) + WorkerRank(w)
  {
    var n := |ws| - 1;
    if i == n {
      assert ws[i := w][..n] == ws[..n];
    } else {
      assert ws[i := w][..n] == ws[..n][i := w];
      WorkersRankUpdate(ws[..n], i, w);
    }
  }

  lemma {:induction false} ClientsRankUpdate(cs: seq<Client>, i: nat, c: Client)
    requires i < |cs|
    ensures ClientsRank(cs[i := c]) + ClientRank(cs[i]) == ClientsRank(cs) + ClientRank(c)
  {
    var n := |cs| - 1;
    if i == n {
      assert cs[i := c][..n] == cs[..n];
    } else {
      assert cs[i := c][..n] == cs[..n][i := c];
      ClientsRankUpdate(cs[..n], i, c);
    }
  }

  lemma {:induction false} WakeRank(ws: seq<Worker>)
    ensures WorkersRank(Wake(ws)) <= WorkersRank(ws)
  {
    if ws != [] {
      assert Wake(ws)[..|ws| - 1] == Wake(ws[..|ws| - 1]);
      WakeRank(ws[..|ws| - 1]);
    }
  }

  /** Once stop is set, every step but a new call brings the end nearer, wake-ups without cause included. */
  lemma ShutdownStep(s: State, a: Step)
    requires Inv(s) && s.stop && Enabled(s, a) && !a.Enter?
    ensures Do(s, a).stop && Rank(Do(s, a)) < Rank(s)
  {
    hide MutexInv, TaskInv, NoLostWakeup, WorkersRank, ClientsRank;
    match a
    case Acquire(i) => WorkersRankUpdate(s.workers, i, Holding);
    case Return(i) => WorkersRankUpdate(s.workers, i, Returned);
    case Take(i) => WorkersRankUpdate(s.workers, i, HasTask(s.tasks[0]));
    case Finish(i) => WorkersRankUpdate(s.workers, i, AtLock);
    case Spurious(i) => WorkersRankUpdate(s.workers, i, AtLock);
    case Refuse(c) => ClientsRankUpdate(s.clients, c, Idle);
    case NotifyOne(c, i) =>
      ClientsRankUpdate(s.clients, c, Idle);
      if i < |s.workers| {
        WorkersRankUpdate(s.workers, i, AtLock);
      }
    case NotifyAll => WakeRank(s.workers);
    case Join =>
    case _ => assert false;
  }

  /** The destructor always ends: after stop was set, any run without new calls is at most Rank
      steps long, and one that cannot be continued has destroyed the pool with all accepted tasks run. */
  lemma {:induction false} ShutdownBounded(s: State, before: seq<Step>, rest: seq<Step>)
    requires Init(s) && IsRun(s, before) && After(s, before).stop
    requires IsRun(After(s, before), rest)
    requires forall i :: 0 <= i < |rest| ==> !rest[i].Enter?
    ensures Inv(After(After(s, before), rest)) && After(After(s, before), rest).stop
    ensures |rest| + Rank(After(After(s, before), rest)) <= Rank(After(s, before))
  {
    RunInv(s, before);
    if rest != [] {
      var front := rest[..|rest| - 1];
      ShutdownBounded(s, before, front);
      var y := After(After(s, before), front);
      assert !rest[|rest| - 1].Enter?;
      ShutdownStep(y, rest[|rest| - 1]);
      InvStep(y, rest[|rest| - 1]);
    }
  }

  lemma {:induction false} RunConcat(s: State, a: seq<Step>, b: seq<Step>)
    requires IsRun(s, a) && IsRun(After(s, a), b)
    ensures IsRun(s, a + b) && After(s, a + b) == After(After(s, a), b)
  {
    if b == [] {
      assert a + b == a;
    } else {
      RunConcat(s, a, b[..|b| - 1]);
      assert (a + b)[..|a + b| - 1] == a + b[..|b| - 1];
    }
  }

  lemma ShutdownCompletes(s: State, before: seq<Step>, rest: seq<Step>)
    requires Init(s) && s.workers != [] && IsRun(s, before) && After(s, before).stop
    requires IsRun(After(s, before), rest)
    requires forall i :: 0 <= i < |rest| ==> !rest[i].Enter?
    requires forall a :: Internal(a) ==> !Enabled(After(After(s, before), rest), a)
    ensures var z := After(After(s, before), rest);
      Destroyed(z) && multiset(z.finished) == multiset(z.accepted)
  {
    ShutdownBounded(s, before, rest);
    RunConcat(s, before, rest);
    NeverStuck(s, before + rest);
    AllExecuted(s, before + rest);
  }

  /** Without workers nothing is ever taken from the queue. */
  lemma {:induction false} EmptyPoolIdle(s: State, run: seq<Step>)
    requires Init(s) && s.workers == [] && IsRun(s, run)
    ensures After(s, run).workers == [] && After(s, run).taken == [] && After(s, run).finished == []
  {
    if run != [] {
      EmptyPoolIdle(s, run[..|run| - 1]);
    }
  }

  /** Once all workers have returned, every accepted task has been executed exactly once if and only if the
      pool has a worker at all, or nothing was accepted. */
  lemma AllExecutedIff(s: State, run: seq<Step>)
    requires Init(s) && IsRun(s, run)
    requires forall i :: 0 <= i < |After(s, run).workers| ==> After(s, run).workers[i] == Returned
    ensures multiset(After(s, run).finished) == multiset(After(s, run).accepted)
       <==> s.workers != [] || After(s, run).accepted == []
  {
    if s.workers != [] {
      AllExecuted(s, run);
    } else {
      EmptyPoolIdle(s, run);
      hide IsRun, After, Init;
      assert |multiset(After(s, run).accepted)| == |After(s, run).accepted|;
    }
  }

  lemma Extend(s: State, run: seq<Step>, a: Step, x: State, y: State)
    requires IsRun(s, run) && After(s, run) == x && Enabled(x, a) && Do(x, a) == y
    ensures IsRun(s, run + [a]) && After(s, run + [a]) == y
  {}

  ghost predicate LosesTask(s: State, run: seq<Step>, t: Task) {
    && Init(s) && s.workers == [] && IsRun(s, run) && Destroyed(After(s, run))
    && After(s, run).accepted == [t] && After(s, run).finished == []
  }

  /** A pool needs a worker for this: without one, an accepted task is never executed although the
      destructor ends. */
  lemma EmptyPoolLosesTask(t: Task)
    ensures exists s, run :: LosesTask(s, run, t)
  {
    hide IsRun, After;
    var s := State([], [Idle], NotCalled, Free, [], false, [], [], [], []);
    EmptyPoolAccepts(s, t);
    var run := [Enter(0, t)] + [Push(0)] + [NotifyOne(0, 0)];
    var x := s.(tasks := [t], accepted := [t]);
    EmptyPoolStops(s, run, x);
    assert LosesTask(s, run + [BeginStop] + [SetStop] + [NotifyAll], t);
  }

  lemma EmptyPoolAccepts(s: State, t: Task)
    requires s == State([], [Idle], NotCalled, Free, [], false, [], [], [], [])
    ensures var run := [Enter(0, t)] + [Push(0)] + [NotifyOne(0, 0)];
      IsRun(s, run) && After(s, run) == s.(tasks := [t], accepted := [t])
  {
    assert IsRun(s, []) && After(s, []) == s;
    hide IsRun, After;
    var x1 := s.(clients := [Entered(t)], mutex := Held(C(0)));
    var x2 := s.(clients := [Pushed], tasks := [t], accepted := [t]);
    assert [] + [Enter(0, t)] == [Enter(0, t)];
    Extend(s, [], Enter(0, t), s, x1);
    Extend(s, [Enter(0, t)], Push(0), x1, x2);
    Extend(s, [Enter(0, t)] + [Push(0)], NotifyOne(0, 0), x2, s.(tasks := [t], accepted := [t]));
  }

  lemma EmptyPoolStops(s: State, run: seq<Step>, x: State)
    requires IsRun(s, run) && After(s, run) == x
    requires x.workers == [] && x.dtor == NotCalled && x.mutex == Free && x.clients == [Idle]
    ensures var run' := run + [BeginStop] + [SetStop] + [NotifyAll];
      IsRun(s, run') && After(s, run') == x.(dtor := Joining(0), stop := true)
  {
    hide IsRun, After;
    var x1 := x.(dtor := Stopping, mutex := Held(D));
    var x2 := x.(dtor := Announcing, stop := true);
    Extend(s, run, BeginStop, x, x1);
    Extend(s, run + [BeginStop], SetStop, x1, x2);
    Extend(s, run + [BeginStop] + [SetStop], NotifyAll, x2, x.(dtor := Joining(0), stop := true));
  }
}
