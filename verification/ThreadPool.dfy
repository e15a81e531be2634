/** The thread pool: `detach_task`, `wait`, `worker` and `destroy_threads` as steps, one for
    every section under the mutex and one for every access to shared data outside it. */
module ThreadPools {
  type Task = nat

  /** Where a worker is. `Asleep` is inside `task_available_cv.wait`, in no queue for the lock. */
  datatype Worker =
    | Starting | Running | ReadWaiting | ReadRunning | ReadTasks | Notifying | Checking | Asleep | Exited

  /** Where a caller of `wait` is. */
  datatype Waiter = Outside | Blocked | Woken

  datatype State = State(
    tasks: seq<Task>,
    tasksRunning: int,
    waiting: bool,
    workersRunning: bool,
    workers: seq<Worker>,
    waiters: seq<Waiter>,
    pending: nat,            // tasks pushed whose notify_one is still to come
    closing: bool,           // destroy_threads is about to notify
    submitted: seq<Task>,
    started: seq<Task>)

  datatype Event =
    | Push(task: Task)
    | NotifyOne(sleeper: nat)
    | NotifyNobody
    | Work(worker: nat)
    | Wait(waiter: nat)
    | Recheck(waiter: nat)
    | Shutdown
    | NotifyAll
    | SpuriousWorker(worker: nat)
    | SpuriousWaiter(waiter: nat)

  function Start(workers: nat, waiters: nat): State {
    State([], workers, false, true, seq(workers, _ => Starting), seq(waiters, _ => Outside), 0, false, [], [])
  }

  predicate Enabled(s: State, e: Event) {
    match e
    case Push(_) => true
    case NotifyOne(i) => s.pending > 0 && i < |s.workers| && s.workers[i] == Asleep
    case NotifyNobody => s.pending > 0 && Asleep !in s.workers
    case Work(i) => i < |s.workers| && s.workers[i] != Asleep && s.workers[i] != Exited
    case Wait(j) => j < |s.waiters| && s.waiters[j] == Outside
    case Recheck(j) => j < |s.waiters| && s.waiters[j] == Woken
    case Shutdown => s.workersRunning
    case NotifyAll => s.closing
    case SpuriousWorker(i) => i < |s.workers| && s.workers[i] == Asleep
    case SpuriousWaiter(j) => j < |s.waiters| && s.waiters[j] == Blocked
  }

  function WithWorker(s: State, i: nat, w: Worker): State
    requires i < |s.workers|
  {
    s.(workers := s.workers[i := w])
  }

  function WakeWorkers(ws: seq<Worker>): (r: seq<Worker>)
    ensures |r| == |ws|
  {
    seq(|ws|, i requires 0 <= i < |ws| => if ws[i] == Asleep then Checking else ws[i])
  }

  function WakeWaiters(ws: seq<Waiter>): (r: seq<Waiter>)
    ensures |r| == |ws|
  {
    seq(|ws|, j requires 0 <= j < |ws| => if ws[j] == Blocked then Woken else ws[j])
  }

  /** A worker's next step. */
  function Worked(s: State, i: nat): State
    requires Enabled(s, Work(i))
  {
    match s.workers[i]
    case Starting => WithWorker(s, i, ReadWaiting).(tasksRunning := s.tasksRunning - 1)
    case Running => WithWorker(s, i, ReadWaiting).(tasksRunning := s.tasksRunning - 1)
    case ReadWaiting => WithWorker(s, i, if s.waiting then ReadRunning else Checking)
    case ReadRunning => WithWorker(s, i, if s.tasksRunning == 0 then ReadTasks else Checking)
    case ReadTasks => WithWorker(s, i, if s.tasks == [] then Notifying else Checking)
    case Notifying => WithWorker(s, i, Checking).(waiters := WakeWaiters(s.waiters))
    case Checking =>
      if !s.workersRunning then WithWorker(s, i, Exited)
      else if s.tasks == [] then WithWorker(s, i, Asleep)
      else WithWorker(s, i, Running).(tasksRunning := s.tasksRunning + 1, tasks := s.tasks[1..],
                              started := s.started + [s.tasks[0]])
  }

  /** The waiter looks at the condition of `wait`. */
  function Looked(s: State, j: nat): State
    requires j < |s.waiters|
  {
    if s.tasksRunning == 0 && s.tasks == []
    then s.(waiting := false, waiters := s.waiters[j := Outside])
    else s.(waiters := s.waiters[j := Blocked])
  }

  function Apply(s: State, e: Event): State
    requires Enabled(s, e)
  {
    match e
    case Push(t) => s.(tasks := s.tasks + [t], submitted := s.submitted + [t], pending := s.pending + 1)
    case NotifyOne(i) => WithWorker(s, i, Checking).(pending := s.pending - 1)
    case NotifyNobody => s.(pending := s.pending - 1)
    case Work(i) => Worked(s, i)
    case Wait(j) => Looked(s.(waiting := true), j)
    case Recheck(j) => Looked(s, j)
    case Shutdown => s.(workersRunning := false, closing := true)
    case NotifyAll => s.(workers := WakeWorkers(s.workers), closing := false)
    case SpuriousWorker(i) => WithWorker(s, i, Checking)
    case SpuriousWaiter(j) => s.(waiters := s.waiters[j := Woken])
  }

  /** A run, as the list of its steps. */
  predicate Legal(s: State, run: seq<Event>)
    decreases |run|, 0
  {
    run == [] || (Legal(s, run[..|run| - 1]) && Enabled(After(s, run[..|run| - 1]), run[|run| - 1]))
  }

  function After(s: State, run: seq<Event>): State
    requires Legal(s, run)
    decreases |run|, 1
  {
    if run == [] then s else Apply(After(s, run[..|run| - 1]), run[|run| - 1])
  }

  // ---------------------------------------------------------------- counting workers

  function Sum(ws: seq<Worker>, weight: Worker -> nat): nat {
    if ws == [] then 0 else Sum(ws[..|ws| - 1], weight) + weight(ws[|ws| - 1])
  }

  /** Has the task it was started with, or a later one, still to be taken off `tasks_running`. */
  function Busy(w: Worker): nat { if w == Starting || w == Running then 1 else 0 }

  /** Will look at the queue before it runs a task or sleeps. */
  function Free(w: Worker): nat { if w in {Starting, ReadWaiting, ReadRunning, ReadTasks, Notifying, Checking} then 1 else 0 }

  predicate AboutToNotify(w: Worker) {
    w in {ReadWaiting, ReadRunning, ReadTasks, Notifying}
  }

  lemma {:induction false} SumUpdate(ws: seq<Worker>, i: nat, w: Worker, weight: Worker -> nat)
    requires i < |ws|
    ensures Sum(ws[i := w], weight) == Sum(ws, weight) - weight(ws[i]) + weight(w)
    decreases |ws|
  {
    var n := |ws| - 1;
    if i == n {
      assert ws[i := w][..n] == ws[..n];
    } else {
      SumUpdate(ws[..n], i, w, weight);
      assert ws[i := w][..n] == ws[..n][i := w];
    }
  }

  lemma {:induction false} SumAt(ws: seq<Worker>, i: nat, weight: Worker -> nat)
    requires i < |ws|
    ensures Sum(ws, weight) >= weight(ws[i])
    decreases |ws|
  {
    if i < |ws| - 1 {
      SumAt(ws[..|ws| - 1], i, weight);
    }
  }

  lemma {:induction false} SumOfSame(ws: seq<Worker>, w: Worker, weight: Worker -> nat)
    requires forall i | 0 <= i < |ws| :: ws[i] == w
    ensures Sum(ws, weight) == |ws| * weight(w)
    decreases |ws|
  {
    if ws != [] {
      SumOfSame(ws[..|ws| - 1], w, weight);
    }
  }

  lemma {:induction false} SumIsZero(ws: seq<Worker>, weight: Worker -> nat)
    requires forall i | 0 <= i < |ws| :: weight(ws[i]) == 0
    ensures Sum(ws, weight) == 0
    decreases |ws|
  {
    if ws != [] {
      SumIsZero(ws[..|ws| - 1], weight);
    }
  }

  lemma {:induction false} SumWoken(ws: seq<Worker>, weight: Worker -> nat)
    requires weight(Asleep) == weight(Checking)
    ensures Sum(WakeWorkers(ws), weight) == Sum(ws, weight)
    decreases |ws|
  {
    if ws != [] {
      var n := |ws| - 1;
      SumWoken(ws[..n], weight);
      assert WakeWorkers(ws)[..n] == WakeWorkers(ws[..n]);
    }
  }

  // ---------------------------------------------------------------- what every step keeps

  /** `tasks_running` counts the workers that have not taken themselves off it, and tasks are
      started in the order they came. */
  ghost predicate Accounted(s: State) {
    s.tasksRunning == Sum(s.workers, Busy) && s.started + s.tasks == s.submitted
  }

  /** While a worker sleeps, every queued task has a notification to come or a free worker. */
  ghost predicate NoneStranded(s: State) {
    s.workersRunning && Asleep in s.workers ==> |s.tasks| <= s.pending + Sum(s.workers, Free)
  }

  /** Once the pool is closed only the notification keeps workers asleep. */
  ghost predicate Closing(s: State) {
    && (!s.workersRunning && Asleep in s.workers ==> s.closing)
    && (s.closing ==> !s.workersRunning)
    && (s.workersRunning ==> Exited !in s.workers)
  }

  /** A single waiter that is in `wait` has its flag up; blocked although all is done, it has a
      worker on its way to notify it. */
  ghost predicate WaiterHeard(s: State) {
    |s.waiters| <= 1 ==>
      forall j | 0 <= j < |s.waiters| && s.waiters[j] != Outside ::
        s.waiting && (s.waiters[j] == Blocked && s.tasksRunning == 0 && s.tasks == [] ==> OneComing(s.workers))
  }

  ghost predicate OneComing(ws: seq<Worker>) {
    exists i :: 0 <= i < |ws| && AboutToNotify(ws[i])
  }

  ghost predicate Invariant(s: State) {
    Accounted(s) && NoneStranded(s) && Closing(s) && WaiterHeard(s)
  }

  lemma StartInvariant(workers: nat, waiters: nat)
    ensures Invariant(Start(workers, waiters))
  {
    var s := Start(workers, waiters);
    SumOfSame(s.workers, Starting, Busy);
    assert Asleep !in s.workers && Exited !in s.workers;
  }

  lemma WorkAccounted(s: State, i: nat)
    requires Accounted(s) && Enabled(s, Work(i))
    ensures Accounted(Worked(s, i))
  {
    hide Sum;
    SumUpdate(s.workers, i, Worked(s, i).workers[i], Busy);
    WorkConserves(s, i);
  }

  lemma WorkConserves(s: State, i: nat)
    requires Enabled(s, Work(i))
    ensures Worked(s, i).started + Worked(s, i).tasks == s.started + s.tasks
  {
    if s.tasks != [] {
      assert s.started + [s.tasks[0]] + s.tasks[1..] == s.started + s.tasks;
    }
  }

  lemma StepAccounted(s: State, e: Event)
    requires Accounted(s) && Enabled(s, e)
    ensures Accounted(Apply(s, e))
  {
    hide Sum, Worked;
    match e
    case Push(t) => assert s.started + (s.tasks + [t]) == s.started + s.tasks + [t];
    case Work(i) => WorkAccounted(s, i);
    case NotifyOne(i) => SumUpdate(s.workers, i, Checking, Busy);
    case SpuriousWorker(i) => SumUpdate(s.workers, i, Checking, Busy);
    case NotifyAll => SumWoken(s.workers, Busy);
    case _ =>
  }

  lemma AsleepUpdate(ws: seq<Worker>, i: nat, w: Worker)
    requires i < |ws| && w != Asleep && Asleep in ws[i := w]
    ensures Asleep in ws
  {
    var k :| 0 <= k < |ws| && ws[i := w][k] == Asleep;
    assert ws[k] == Asleep;
  }

  lemma WorkNoneStranded(s: State, i: nat)
    requires NoneStranded(s) && Enabled(s, Work(i))
    ensures NoneStranded(Worked(s, i))
  {
    hide Sum;
    var t := Worked(s, i);
    SumUpdate(s.workers, i, t.workers[i], Free);
    if t.workersRunning && t.workers[i] != Asleep && Asleep in t.workers {
      AsleepUpdate(s.workers, i, t.workers[i]);
    }
  }

  lemma WakeNoneStranded(s: State, i: nat, pending: nat)
    requires NoneStranded(s) && i < |s.workers| && s.workers[i] == Asleep && pending <= s.pending <= pending + 1
    ensures NoneStranded(WithWorker(s, i, Checking).(pending := pending))
  {
    hide Sum;
    SumUpdate(s.workers, i, Checking, Free);
  }

  lemma StepNoneStranded(s: State, e: Event)
    requires NoneStranded(s) && Closing(s) && Enabled(s, e)
    ensures NoneStranded(Apply(s, e))
  {
    hide Sum, Worked;
    match e
    case Work(i) => WorkNoneStranded(s, i);
    case NotifyOne(i) => WakeNoneStranded(s, i, s.pending - 1);
    case SpuriousWorker(i) => WakeNoneStranded(s, i, s.pending);
    case _ =>
  }

  lemma WorkClosing(s: State, i: nat)
    requires Closing(s) && Enabled(s, Work(i))
    ensures Closing(Worked(s, i))
  {
    var t := Worked(s, i);
    if t.workers[i] != Asleep && Asleep in t.workers {
      AsleepUpdate(s.workers, i, t.workers[i]);
    }
  }

  lemma StepClosing(s: State, e: Event)
    requires Closing(s) && Enabled(s, e)
    ensures Closing(Apply(s, e))
  {
    hide Worked;
    var t := Apply(s, e);
    match e
    case Work(i) => WorkClosing(s, i);
    case NotifyOne(i) =>
      if Asleep in t.workers {
        AsleepUpdate(s.workers, i, Checking);
      }
    case SpuriousWorker(i) =>
      if Asleep in t.workers {
        AsleepUpdate(s.workers, i, Checking);
      }
    case _ =>
  }

  lemma ComingUpdate(ws: seq<Worker>, i: nat, w: Worker)
    requires i < |ws| && OneComing(ws) && (AboutToNotify(ws[i]) ==> AboutToNotify(w))
    ensures OneComing(ws[i := w])
  {
    var k :| 0 <= k < |ws| && AboutToNotify(ws[k]);
    assert AboutToNotify(ws[i := w][k]);
  }

  lemma WorkWaiterHeard(s: State, i: nat)
    requires WaiterHeard(s) && Accounted(s) && Enabled(s, Work(i))
    ensures WaiterHeard(Worked(s, i))
  {
    hide Sum, OneComing;
    var t := Worked(s, i);
    if |s.waiters| == 1 && t.waiters[0] == Blocked && t.tasksRunning == 0 && t.tasks == [] {
      if t.workers[i] == ReadWaiting {
        ComingAt(t.workers, i);
      } else {
        SumUpdate(s.workers, i, t.workers[i], Busy);
        SumAt(t.workers, i, Busy);
        ComingUpdate(s.workers, i, t.workers[i]);
      }
    }
  }

  lemma ComingAt(ws: seq<Worker>, i: nat)
    requires i < |ws| && AboutToNotify(ws[i])
    ensures OneComing(ws)
  {
  }

  lemma ComingWoken(ws: seq<Worker>)
    requires OneComing(ws)
    ensures OneComing(WakeWorkers(ws))
  {
    var k :| 0 <= k < |ws| && AboutToNotify(ws[k]);
    assert AboutToNotify(WakeWorkers(ws)[k]);
  }

  lemma StepWaiterHeard(s: State, e: Event)
    requires WaiterHeard(s) && Accounted(s) && Enabled(s, e)
    ensures WaiterHeard(Apply(s, e))
  {
    hide Worked, OneComing, Sum, WakeWorkers, Accounted;
    if OneComing(s.workers) {
      match e
      case NotifyOne(i) => ComingUpdate(s.workers, i, Checking);
      case SpuriousWorker(i) => ComingUpdate(s.workers, i, Checking);
      case NotifyAll => ComingWoken(s.workers);
      case _ =>
    }
    match e
    case Work(i) => WorkWaiterHeard(s, i);
    case _ =>
  }

  /** Every step keeps the invariant. */
  lemma Keeps(s: State, e: Event)
    requires Invariant(s) && Enabled(s, e)
    ensures Invariant(Apply(s, e))
  {
    hide Enabled, Apply, Accounted, NoneStranded, Closing, WaiterHeard;
    StepAccounted(s, e);
    StepNoneStranded(s, e);
    StepClosing(s, e);
    StepWaiterHeard(s, e);
  }

  /** Main result: every state of every run satisfies the invariant. */
  lemma {:induction false} AlwaysInvariant(workers: nat, waiters: nat, run: seq<Event>)
    requires Legal(Start(workers, waiters), run)
    ensures var s := After(Start(workers, waiters), run);
            Invariant(s) && |s.workers| == workers && |s.waiters| == waiters
    decreases |run|
  {
    hide Invariant, Enabled, Apply;
    StartInvariant(workers, waiters);
    if run != [] {
      var init, e := run[..|run| - 1], run[|run| - 1];
      AlwaysInvariant(workers, waiters, init);
      Keeps(After(Start(workers, waiters), init), e);
      SameThreads(After(Start(workers, waiters), init), e);
    }
  }

  lemma SameThreads(s: State, e: Event)
    requires Enabled(s, e)
    ensures |Apply(s, e).workers| == |s.workers| && |Apply(s, e).waiters| == |s.waiters|
  {
    hide WakeWorkers, WakeWaiters, Worked;
    if e.Work? {
      SameThreadsWorked(s, e.worker);
    }
  }

  lemma SameThreadsWorked(s: State, i: nat)
    requires Enabled(s, Work(i))
    ensures |Worked(s, i).workers| == |s.workers| && |Worked(s, i).waiters| == |s.waiters|
  {
    hide WakeWaiters;
  }

  // ---------------------------------------------------------------- runs end

  /** Steps the pool makes on its own account: nobody submits, waits or closes, and no wakeup
      comes out of the blue. */
  predicate Internal(e: Event) {
    !(e.Push? || e.Wait? || e.Shutdown? || e.SpuriousWorker? || e.SpuriousWaiter?)
  }

  function Rank(w: Worker, waiters: nat): nat {
    match w
    case Asleep => 0
    case Exited => 0
    case Checking => 1
    case Notifying => 2 + waiters
    case ReadTasks => 3 + waiters
    case ReadRunning => 4 + waiters
    case ReadWaiting => 5 + waiters
    case Running => 6 + waiters
    case Starting => 6 + waiters
  }

  function Ranks(waiters: nat): Worker -> nat {
    w => Rank(w, waiters)
  }

  function WokenCount(ws: seq<Waiter>): (n: nat)
    ensures n <= |ws|
  {
    if ws == [] then 0 else WokenCount(ws[..|ws| - 1]) + if ws[|ws| - 1] == Woken then 1 else 0
  }

  /** How many steps are left at most. */
  function StepsLeft(s: State): nat {
    |s.tasks| * (6 + |s.waiters|) + Sum(s.workers, Ranks(|s.waiters|)) + WokenCount(s.waiters)
    + 2 * s.pending + if s.closing then |s.workers| + 1 else 0
  }

  lemma {:induction false} WokenUpdate(ws: seq<Waiter>, j: nat, w: Waiter)
    requires j < |ws| && ws[j] == Woken && w != Woken
    ensures WokenCount(ws[j := w]) == WokenCount(ws) - 1
    decreases |ws|
  {
    var n := |ws| - 1;
    if j == n {
      assert ws[j := w][..n] == ws[..n];
    } else {
      WokenUpdate(ws[..n], j, w);
      assert ws[j := w][..n] == ws[..n][j := w];
    }
  }

  lemma {:induction false} SumAllWoken(ws: seq<Worker>, waiters: nat)
    ensures Sum(WakeWorkers(ws), Ranks(waiters)) <= Sum(ws, Ranks(waiters)) + |ws|
    decreases |ws|
  {
    if ws != [] {
      var n := |ws| - 1;
      SumAllWoken(ws[..n], waiters);
      assert WakeWorkers(ws)[..n] == WakeWorkers(ws[..n]);
    }
  }

  lemma WorkDecreases(s: State, i: nat)
    requires Enabled(s, Work(i))
    ensures StepsLeft(Worked(s, i)) < StepsLeft(s)
  {
    hide Sum, WokenCount;
    var t := Worked(s, i);
    var n := |s.waiters|;
    SumUpdate(s.workers, i, t.workers[i], Ranks(n));
    if s.workers[i] == Checking {
      OneTaskLess(|s.tasks|, 6 + n);
    }
  }

  lemma OneTaskLess(k: nat, weight: nat)
    ensures k > 0 ==> k * weight == (k - 1) * weight + weight
  {
  }

  lemma StepDecreases(s: State, e: Event)
    requires Enabled(s, e) && Internal(e)
    ensures StepsLeft(Apply(s, e)) < StepsLeft(s)
  {
    hide Sum, Worked, WokenCount;
    var t := Apply(s, e);
    var n := |s.waiters|;
    match e
    case Work(i) => WorkDecreases(s, i);
    case NotifyOne(i) => SumUpdate(s.workers, i, Checking, Ranks(n));
    case NotifyNobody => 
    case NotifyAll => SumAllWoken(s.workers, n);
    case Recheck(j) => WokenUpdate(s.waiters, j, t.waiters[j]);
  }

  /** Main result: left to itself the pool comes to rest within `StepsLeft` steps. */
  lemma {:induction false} ComesToRest(s: State, run: seq<Event>)
    requires Legal(s, run) && forall e | e in run :: Internal(e)
    ensures StepsLeft(After(s, run)) + |run| <= StepsLeft(s)
    decreases |run|
  {
    if run != [] {
      var init := run[..|run| - 1];
      assert forall e | e in init :: e in run;
      ComesToRest(s, init);
      StepDecreases(After(s, init), run[|run| - 1]);
    }
  }

  ghost predicate AtRest(s: State) {
    forall e | Internal(e) :: !Enabled(s, e)
  }

  lemma RestingWorkers(s: State)
    requires AtRest(s)
    ensures forall i | 0 <= i < |s.workers| :: s.workers[i] == Asleep || s.workers[i] == Exited
    ensures s.pending == 0 && !s.closing
    ensures forall j | 0 <= j < |s.waiters| :: s.waiters[j] != Woken
  {
    forall i | 0 <= i < |s.workers|
      ensures s.workers[i] == Asleep || s.workers[i] == Exited
    {
      assert !Enabled(s, Work(i));
    }
    assert !Enabled(s, NotifyNobody) && !Enabled(s, NotifyAll);
    if s.pending > 0 {
      var i :| 0 <= i < |s.workers| && s.workers[i] == Asleep;
      assert Enabled(s, NotifyOne(i));
    }
    forall j | 0 <= j < |s.waiters|
      ensures s.waiters[j] != Woken
    {
      assert !Enabled(s, Recheck(j));
    }
  }

  /** Main result: where an open pool comes to rest every task was started and finished, in
      order, and nobody is left in `wait` provided there is at most one waiter. */
  lemma RestIsDone(s: State)
    requires Invariant(s) && AtRest(s) && s.workersRunning && s.workers != []
    ensures s.tasks == [] && s.started == s.submitted && s.tasksRunning == 0
    ensures |s.waiters| <= 1 ==> forall j | 0 <= j < |s.waiters| :: s.waiters[j] == Outside
  {
    RestingWorkers(s);
    assert s.workers[0] == Asleep;
    SumIsZero(s.workers, Free);
    SumIsZero(s.workers, Busy);
    assert s.started + s.tasks == s.started;
  }

  /** A closed pool comes to rest when every worker has left its loop. */
  lemma ClosedRest(s: State)
    requires Invariant(s) && AtRest(s) && !s.workersRunning
    ensures forall i | 0 <= i < |s.workers| :: s.workers[i] == Exited
  {
    RestingWorkers(s);
  }

  // ---------------------------------------------------------------- what calls come to

  lemma {:induction false} NobodyBusy(ws: seq<Worker>)
    ensures Sum(ws, Busy) == 0 <==> forall i | 0 <= i < |ws| :: ws[i] != Starting && ws[i] != Running
    decreases |ws|
  {
    if ws != [] {
      var front := ws[..|ws| - 1];
      NobodyBusy(front);
      assert forall i | 0 <= i < |front| :: front[i] == ws[i];
    }
  }

  /** Main result: whenever a caller of `wait` looks, it returns if every task submitted so far
      has been started and no worker is starting up or running one, and blocks otherwise. */
  lemma WaitReturnsIff(s: State, e: Event)
    requires Invariant(s) && Enabled(s, e) && (e.Wait? || e.Recheck?)
    ensures var w := Apply(s, e).waiters[e.waiter];
            && (w == Outside <==> s.started == s.submitted
                                  && forall i | 0 <= i < |s.workers| :: s.workers[i] != Starting && s.workers[i] != Running)
            && (w != Outside ==> w == Blocked)
  {
    hide NoneStranded, Closing, WaiterHeard, Sum;
    NobodyBusy(s.workers);
    assert |s.started + s.tasks| == |s.started| + |s.tasks|;
    assert s.tasks == [] ==> s.started + s.tasks == s.started;
  }

  /** What a step does to each worker: one sleeps, leaves or starts the first task only from its
      check, and only as the flag and the queue say then; a sleeper wakes by a notification. */
  lemma StepWorker(s: State, e: Event, i: nat)
    requires Enabled(s, e) && i < |s.workers|
    ensures |Apply(s, e).workers| == |s.workers|
    ensures var t, w := Apply(s, e), s.workers[i];
            var checks := e == Work(i) && w == Checking;
            && (t.workers[i] == Asleep <==>
                  (w == Asleep && e != NotifyOne(i) && e != NotifyAll && e != SpuriousWorker(i))
                  || (checks && s.workersRunning && s.tasks == []))
            && (t.workers[i] == Exited <==> w == Exited || (checks && !s.workersRunning))
            && (t.workers[i] == Running <==>
                  (w == Running && e != Work(i)) || (checks && s.workersRunning && s.tasks != []))
            && (t.workers[i] == ReadRunning <==>
                  (w == ReadRunning && e != Work(i)) || (e == Work(i) && w == ReadWaiting && s.waiting))
            && (t.workers[i] == ReadTasks <==>
                  (w == ReadTasks && e != Work(i)) || (e == Work(i) && w == ReadRunning && s.tasksRunning == 0))
            && (t.workers[i] == Notifying <==> (w == Notifying && e != Work(i)) || (e == Work(i) && w == ReadTasks && s.tasks == []))
  {
    hide Worked, WakeWaiters;
    SameThreads(s, e);
    if e.Work? {
      OthersStay(s, e.worker, i);
      WorkedAt(s, e.worker);
    }
  }

  lemma OthersStay(s: State, i: nat, k: nat)
    requires Enabled(s, Work(i)) && k < |s.workers|
    ensures |Worked(s, i).workers| == |s.workers| && (k != i ==> Worked(s, i).workers[k] == s.workers[k])
  {
    hide WakeWaiters;
  }

  lemma WorkedAt(s: State, i: nat)
    requires Enabled(s, Work(i))
    ensures |Worked(s, i).workers| == |s.workers|
    ensures Worked(s, i).workers[i]
            == match s.workers[i]
               case Starting => ReadWaiting
               case Running => ReadWaiting
               case ReadWaiting => if s.waiting then ReadRunning else Checking
               case ReadRunning => if s.tasksRunning == 0 then ReadTasks else Checking
               case ReadTasks => if s.tasks == [] then Notifying else Checking
               case Notifying => Checking
               case Checking => if !s.workersRunning then Exited else if s.tasks == [] then Asleep else Running
  {
    hide WakeWaiters;
  }

  /** What a step does to each caller of `wait`: one blocks only when it looks and not all is
      done, and a worker's notification leaves nobody blocked. */
  lemma StepWaiter(s: State, e: Event, j: nat)
    requires Enabled(s, e) && j < |s.waiters|
    ensures var t, w := Apply(s, e), s.waiters[j];
            var notified := e.Work? && s.workers[e.worker] == Notifying;
            && |t.waiters| == |s.waiters|
            && (t.waiters[j] == Blocked <==>
                  (w == Blocked && e != SpuriousWaiter(j) && !notified)
                  || ((e == Wait(j) || e == Recheck(j)) && !(s.tasksRunning == 0 && s.tasks == [])))
            && (t.waiters[j] == Woken <==>
                  (w == Woken && e != Recheck(j)) || (w == Blocked && (e == SpuriousWaiter(j) || notified)))
  {
    hide Worked, WakeWorkers;
    if e.Work? {
      WorkedWaiters(s, e.worker);
    }
  }

  lemma WorkedWaiters(s: State, i: nat)
    requires Enabled(s, Work(i))
    ensures Worked(s, i).waiters == if s.workers[i] == Notifying then WakeWaiters(s.waiters) else s.waiters
  {
    hide WakeWaiters;
  }

  /** Before anybody waits no worker goes beyond reading the flag, and none notifies. */
  lemma {:induction false} NobodyWaits(workers: nat, waiters: nat, run: seq<Event>)
    requires Legal(Start(workers, waiters), run) && forall i | 0 <= i < |run| :: !run[i].Wait?
    ensures Unasked(After(Start(workers, waiters), run))
    decreases |run|
  {
    hide Apply, Enabled;
    if run != [] {
      var before, e := run[..|run| - 1], run[|run| - 1];
      assert !e.Wait? && forall i | 0 <= i < |before| :: before[i] == run[i];
      NobodyWaits(workers, waiters, before);
      StepUnasked(After(Start(workers, waiters), before), e);
    }
  }

  predicate Unasked(s: State) {
    && !s.waiting
    && (forall i | 0 <= i < |s.workers| :: s.workers[i] !in {ReadRunning, ReadTasks, Notifying})
    && (forall j | 0 <= j < |s.waiters| :: s.waiters[j] == Outside)
  }

  lemma StepUnasked(s: State, e: Event)
    requires Unasked(s) && Enabled(s, e) && !e.Wait?
    ensures Unasked(Apply(s, e))
  {
  }

  /** The tasks a run submits, in order. */
  function Pushed(run: seq<Event>): seq<Task> {
    if run == [] then [] else
    Pushed(run[..|run| - 1]) + if run[|run| - 1].Push? then [run[|run| - 1].task] else []
  }

  /** Main result: in every run, what has been started and what is queued are together exactly
      the tasks submitted, in order; and the pool is closed if and only if it was shut down. */
  lemma {:induction false} TasksOfRun(workers: nat, waiters: nat, run: seq<Event>)
    requires Legal(Start(workers, waiters), run)
    ensures var s := After(Start(workers, waiters), run);
            s.started + s.tasks == Pushed(run) && (s.workersRunning <==> Shutdown !in run)
    decreases |run|
  {
    hide Invariant, Enabled, Apply;
    AlwaysInvariant(workers, waiters, run);
    assert Accounted(After(Start(workers, waiters), run)) by {
      InvariantAccounts(After(Start(workers, waiters), run));
    }
    SubmittedOfRun(workers, waiters, run);
  }

  lemma InvariantAccounts(s: State)
    requires Invariant(s)
    ensures Accounted(s)
  {
  }

  lemma {:induction false} SubmittedOfRun(workers: nat, waiters: nat, run: seq<Event>)
    requires Legal(Start(workers, waiters), run)
    ensures var s := After(Start(workers, waiters), run);
            s.submitted == Pushed(run) && (s.workersRunning <==> Shutdown !in run)
    decreases |run|
  {
    hide Apply, Enabled;
    if run != [] {
      var before, e := run[..|run| - 1], run[|run| - 1];
      SubmittedOfRun(workers, waiters, before);
      StepSubmits(After(Start(workers, waiters), before), e);
      assert run == before + [e];
    }
  }

  lemma StepSubmits(s: State, e: Event)
    requires Enabled(s, e)
    ensures Apply(s, e).submitted == s.submitted + if e.Push? then [e.task] else []
    ensures Apply(s, e).workersRunning <==> s.workersRunning && e != Shutdown
  {
  }

  // ---------------------------------------------------------------- more than one waiter

  /** An open pool with nothing left to do in which somebody still waits. */
  ghost predicate LostWakeup(s: State) {
    s.workersRunning && AtRest(s) && exists j :: 0 <= j < |s.waiters| && s.waiters[j] == Blocked
  }

  /** The first `k` workers have gone to sleep. */
  function Settled(workers: nat, waiters: nat, k: nat): State
    requires k <= workers
  {
    Start(workers, waiters).(tasksRunning := workers - k,
                             workers := seq(workers, i => if i < k then Asleep else Starting))
  }

  ghost predicate Reaches(s: State, t: State) {
    exists run :: Legal(s, run) && After(s, run) == t
  }

  lemma ReachesMore(s: State, t: State, e: Event)
    requires Reaches(s, t) && Enabled(t, e)
    ensures Reaches(s, Apply(t, e))
  {
    var run :| Legal(s, run) && After(s, run) == t;
    assert (run + [e])[..|run + [e]| - 1] == run;
    assert Legal(s, run + [e]) && After(s, run + [e]) == Apply(t, e);
  }

  lemma {:induction false} Settle(workers: nat, waiters: nat, k: nat)
    requires k <= workers
    ensures Reaches(Start(workers, waiters), Settled(workers, waiters, k))
  {
    var s := Start(workers, waiters);
    if k == 0 {
      assert Legal(s, []) && After(s, []) == s;
      assert Settled(workers, waiters, 0) == s;
    } else {
      Settle(workers, waiters, k - 1);
      var t := Settled(workers, waiters, k - 1);
      var t1 := Apply(t, Work(k - 1));
      var t2 := Apply(t1, Work(k - 1));
      var t3 := Apply(t2, Work(k - 1));
      ReachesMore(s, t, Work(k - 1));
      ReachesMore(s, t1, Work(k - 1));
      ReachesMore(s, t2, Work(k - 1));
      assert t3 == Settled(workers, waiters, k);
    }
  }

  /** The state of a settled pool with two waiters, given what the first worker and the two
      waiters are doing. */
  function WithTwoWaiters(base: State, tasks: seq<Task>, running: nat, waiting: bool, w: Worker, a: Waiter, b: Waiter,
               pending: nat, started: seq<Task>): State
    requires |base.workers| >= 1 && |base.waiters| >= 2
  {
    base.(tasks := tasks, tasksRunning := running, waiting := waiting, workers := base.workers[0 := w],
          waiters := base.waiters[0 := a][1 := b], pending := pending,
          submitted := started + tasks, started := started)
  }

  /** Two waiters: both are woken, the first returns and lowers the flag, a new task starts
      before the second looks, and the end of that task is not announced. */
  lemma TwoWaitersLose(workers: nat, waiters: nat) returns (s: State)
    requires workers >= 1 && waiters >= 2
    ensures Reaches(Start(workers, waiters), s) && LostWakeup(s)
  {
    var o := Start(workers, waiters);
    Settle(workers, waiters, workers);
    var base := Settled(workers, waiters, workers);
    var s0 := WithTwoWaiters(base, [], 0, false, Asleep, Outside, Outside, 0, []);
    assert s0 == base;
    var s1 := WithTwoWaiters(base, [7], 0, false, Asleep, Outside, Outside, 1, []);
    ReachNext(o, s0, Push(7), s1);
    var s2 := WithTwoWaiters(base, [7], 0, false, Checking, Outside, Outside, 0, []);
    ReachNext(o, s1, NotifyOne(0), s2);
    var s3 := WithTwoWaiters(base, [], 1, false, Running, Outside, Outside, 0, [7]);
    ReachNext(o, s2, Work(0), s3);
    var s4 := WithTwoWaiters(base, [], 1, true, Running, Blocked, Outside, 0, [7]);
    ReachNext(o, s3, Wait(0), s4);
    var s5 := WithTwoWaiters(base, [], 1, true, Running, Blocked, Blocked, 0, [7]);
    ReachNext(o, s4, Wait(1), s5);
    s := SecondHalf(o, base, s5);
  }

  lemma SecondHalf(o: State, base: State, s5: State) returns (s: State)
    requires |base.workers| >= 1 && |base.waiters| >= 2 && base.workersRunning && !base.closing
    requires forall i | 0 <= i < |base.workers| :: base.workers[i] == Asleep
    requires forall j | 0 <= j < |base.waiters| :: base.waiters[j] == Outside
    requires s5 == WithTwoWaiters(base, [], 1, true, Running, Blocked, Blocked, 0, [7])
    requires Reaches(o, s5)
    ensures Reaches(o, s) && LostWakeup(s)
  {
    var s6 := WithTwoWaiters(base, [], 0, true, ReadWaiting, Blocked, Blocked, 0, [7]);
    ReachNext(o, s5, Work(0), s6);
    var s7 := WithTwoWaiters(base, [], 0, true, ReadRunning, Blocked, Blocked, 0, [7]);
    ReachNext(o, s6, Work(0), s7);
    var s8 := WithTwoWaiters(base, [], 0, true, ReadTasks, Blocked, Blocked, 0, [7]);
    ReachNext(o, s7, Work(0), s8);
    var s9 := WithTwoWaiters(base, [], 0, true, Notifying, Blocked, Blocked, 0, [7]);
    ReachNext(o, s8, Work(0), s9);
    var t0 := WithTwoWaiters(base, [], 0, true, Checking, Woken, Woken, 0, [7]);
    ReachNext(o, s9, Work(0), t0);
    s := BothWoken(o, base, t0);
  }

  lemma BothWoken(o: State, base: State, t0: State) returns (s: State)
    requires |base.workers| >= 1 && |base.waiters| >= 2 && base.workersRunning && !base.closing
    requires forall i | 0 <= i < |base.workers| :: base.workers[i] == Asleep
    requires forall j | 0 <= j < |base.waiters| :: base.waiters[j] == Outside
    requires t0 == WithTwoWaiters(base, [], 0, true, Checking, Woken, Woken, 0, [7])
    requires Reaches(o, t0)
    ensures Reaches(o, s) && LostWakeup(s)
  {
    var t1 := WithTwoWaiters(base, [], 0, false, Checking, Outside, Woken, 0, [7]);
    ReachNext(o, t0, Recheck(0), t1);
    var t2 := WithTwoWaiters(base, [8], 0, false, Checking, Outside, Woken, 1, [7]);
    ReachNext(o, t1, Push(8), t2);
    var t3 := WithTwoWaiters(base, [], 1, false, Running, Outside, Woken, 1, [7, 8]);
    ReachNext(o, t2, Work(0), t3);
    var t4 := WithTwoWaiters(base, [], 1, false, Running, Outside, Blocked, 1, [7, 8]);
    ReachNext(o, t3, Recheck(1), t4);
    s := LastPart(o, base, t4);
  }

  lemma LastPart(o: State, base: State, t4: State) returns (s: State)
    requires |base.workers| >= 1 && |base.waiters| >= 2 && base.workersRunning && !base.closing
    requires forall i | 0 <= i < |base.workers| :: base.workers[i] == Asleep
    requires forall j | 0 <= j < |base.waiters| :: base.waiters[j] == Outside
    requires t4 == WithTwoWaiters(base, [], 1, false, Running, Outside, Blocked, 1, [7, 8])
    requires Reaches(o, t4)
    ensures Reaches(o, s) && LostWakeup(s)
  {
    var t5 := WithTwoWaiters(base, [], 0, false, ReadWaiting, Outside, Blocked, 1, [7, 8]);
    ReachNext(o, t4, Work(0), t5);
    var t6 := WithTwoWaiters(base, [], 0, false, Checking, Outside, Blocked, 1, [7, 8]);
    ReachNext(o, t5, Work(0), t6);
    var t7 := WithTwoWaiters(base, [], 0, false, Asleep, Outside, Blocked, 1, [7, 8]);
    ReachNext(o, t6, Work(0), t7);
    var t8 := WithTwoWaiters(base, [], 0, false, Checking, Outside, Blocked, 0, [7, 8]);
    ReachNext(o, t7, NotifyOne(0), t8);
    s := WithTwoWaiters(base, [], 0, false, Asleep, Outside, Blocked, 0, [7, 8]);
    ReachNext(o, t8, Work(0), s);
    forall e | Internal(e)
      ensures !Enabled(s, e)
    {
      if e.NotifyNobody? {
        assert s.workers[0] == Asleep;
      }
    }
    assert s.waiters[1] == Blocked;
  }

  lemma ReachNext(o: State, s: State, e: Event, t: State)
    requires Reaches(o, s) && Enabled(s, e) && SameState(Apply(s, e), t)
    ensures Reaches(o, t)
  {
    ReachesMore(o, s, e);
  }

  predicate SameState(s: State, t: State) {
    && s.tasks == t.tasks && s.tasksRunning == t.tasksRunning && s.waiting == t.waiting
    && s.workersRunning == t.workersRunning && s.workers == t.workers && s.waiters == t.waiters
    && s.pending == t.pending && s.closing == t.closing && s.submitted == t.submitted && s.started == t.started
  }

  /** Main result: no run of the pool loses a wakeup exactly when it has at most one waiter. */
  lemma NoLostWakeupIff(workers: nat, waiters: nat)
    requires workers >= 1
    ensures (forall s | Reaches(Start(workers, waiters), s) :: !LostWakeup(s)) <==> waiters <= 1
  {
    var o := Start(workers, waiters);
    if waiters <= 1 {
      forall s | Reaches(o, s)
        ensures !LostWakeup(s)
      {
        var run :| Legal(o, run) && After(o, run) == s;
        AlwaysInvariant(workers, waiters, run);
        if s.workersRunning && AtRest(s) {
          RestIsDone(s);
        }
      }
    } else {
      var s := TwoWaitersLose(workers, waiters);
    }
  }

  // ---------------------------------------------------------------- the pool itself

  /** The pool, and where its threads are. Each method is one step of one thread. */
  class ThreadPool {
    var tasks: seq<Task>
    var tasksRunning: int
    var waiting: bool
    var workersRunning: bool
    var workers: seq<Worker>
    var waiters: seq<Waiter>
    var pending: nat
    var closing: bool
    var submitted: seq<Task>
    var started: seq<Task>

    function View(): State
      reads this
    {
      State(tasks, tasksRunning, waiting, workersRunning, workers, waiters, pending, closing, submitted, started)
    }

    constructor (threads: nat, callers: nat)
      ensures View() == Start(threads, callers) && Invariant(View())
    {
      tasks, submitted, started := [], [], [];
      tasksRunning := threads;
      waiting, workersRunning := false, true;
      workers := seq(threads, _ => Starting);
      waiters := seq(callers, _ => Outside);
      pending, closing := 0, false;
      new;
      StartInvariant(threads, callers);
    }

    /** The locked half of `detach_task`. */
    method PushTask(task: Task)
      requires Invariant(View())
      modifies this
      ensures View() == Apply(old(View()), Push(task)) && Invariant(View())
    {
      ghost var before := View();
      tasks := tasks + [task];
      submitted := submitted + [task];
      pending := pending + 1;
      Keeps(before, Push(task));
    }

    /** Its other half; which sleeper wakes is not the pool's choice. */
    method NotifyOneWorker(sleeper: nat)
      requires Invariant(View()) && pending > 0
      requires Asleep in workers ==> sleeper < |workers| && workers[sleeper] == Asleep
      modifies this
      ensures View() == Apply(old(View()), if Asleep in old(workers) then NotifyOne(sleeper) else NotifyNobody)
      ensures Invariant(View())
    {
      ghost var before := View();
      hide Invariant;
      ghost var e := if Asleep in workers then NotifyOne(sleeper) else NotifyNobody;
      pending := pending - 1;
      if Asleep in workers {
        workers := workers[sleeper := Checking];
      }
      Keeps(before, e);
    }

    /** One step of `worker` on thread `i`. */
    method WorkerStep(i: nat)
      requires Invariant(View()) && Enabled(View(), Work(i))
      modifies this
      ensures View() == Apply(old(View()), Work(i)) && Invariant(View())
    {
      ghost var before := View();
      hide Invariant;
      var next := Checking;
      match workers[i] {
        case Starting | Running =>
          tasksRunning := tasksRunning - 1;
          next := ReadWaiting;
        case ReadWaiting =>
          if waiting { next := ReadRunning; }
        case ReadRunning =>
          if tasksRunning == 0 { next := ReadTasks; }
        case ReadTasks =>
          if tasks == [] { next := Notifying; }
        case Notifying =>
          waiters := WakeWaiters(waiters);
        case Checking =>
          if tasks == [] && workersRunning {
            next := Asleep;
          } else if !workersRunning {
            next := Exited;
          } else {
            started := started + [tasks[0]];
            tasks := tasks[1..];
            tasksRunning := tasksRunning + 1;
            next := Running;
          }
      }
      workers := workers[i := next];
      Keeps(before, Work(i));
    }

    /** `wait` up to where the caller blocks or returns. */
    method EnterWait(j: nat)
      requires Invariant(View()) && Enabled(View(), Wait(j))
      modifies this
      ensures View() == Apply(old(View()), Wait(j)) && Invariant(View())
    {
      ghost var before := View();
      waiting := true;
      Look(j);
      Keeps(before, Wait(j));
    }

    /** The caller has the lock again. */
    method ResumeWait(j: nat)
      requires Invariant(View()) && Enabled(View(), Recheck(j))
      modifies this
      ensures View() == Apply(old(View()), Recheck(j)) && Invariant(View())
    {
      ghost var before := View();
      Look(j);
      Keeps(before, Recheck(j));
    }

    method Look(j: nat)
      requires j < |waiters|
      modifies this`waiting, this`waiters
      ensures View() == Looked(old(View()), j)
    {
      if tasksRunning == 0 && tasks == [] {
        waiting := false;
        waiters := waiters[j := Outside];
      } else {
        waiters := waiters[j := Blocked];
      }
    }

    /** The two halves of `destroy_threads`. */
    method CloseWorkers()
      requires Invariant(View()) && workersRunning
      modifies this
      ensures View() == Apply(old(View()), Shutdown) && Invariant(View())
    {
      ghost var before := View();
      workersRunning := false;
      closing := true;
      Keeps(before, Shutdown);
    }

    method NotifyAllWorkers()
      requires Invariant(View()) && closing
      modifies this
      ensures View() == Apply(old(View()), NotifyAll) && Invariant(View())
    {
      ghost var before := View();
      workers := WakeWorkers(workers);
      closing := false;
      Keeps(before, NotifyAll);
    }
  }
}
