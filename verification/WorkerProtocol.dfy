/**
  The worker thread, the event loop that feeds and stops it, and the mutex
  between them, as a transition system.

  Timer, SIGINT, STOP message and worker-done signal are all handled by the one
  event-loop thread, so there are two threads. One action is one atomic step of
  one of them; any interleaving is possible. The condition variable may wake the
  worker spuriously, and a plugin may throw, which ends the worker.
*/
module WorkerProtocol {
  import opened Wrappers

  /** Where the worker is inside `loop` and `wait_next_tick`. */
  datatype WorkerPc =
    | LoopTest                    // while(continue_running())
    | LockMutex                   // guard lock(f_mutex)
    | WaitTest                    // while(continue_running()), mutex held
    | TickTest                    // if(f_ticks != 0), mutex held
    | Sleep                       // f_mutex.wait() called, mutex still held
    | Waiting(signalled: bool)    // in the wait set
    | Relock                      // woken, needs the mutex back
    | Unlock(handed: bool)        // leaving wait_next_tick, mutex held
    | SecondTest(handed: bool)    // if(!continue_running()) return
    | AboutToRun                  // past the second test
    | Running                     // inside run_plugins()
    | Leaving                     // leave(): tell the event loop
    | Exiting
    | Ended                       // the thread no longer runs

  /** Where the event loop is: dispatching, in `tick`, or in `stop`. */
  datatype MainPc =
    | Dispatch
    | TickLock | TickAdd | TickSignal | TickUnlock
    | StopTest                                        // f_worker != nullptr && is_running()
    | StopFlag                                        // thread->stop(): continue_running() is now false
    | WakeLock | WakeSet | WakeSignal | WakeUnlock    // f_worker->wakeup()
    | Join                                            // wait for the thread, then reset both pointers
    | Detach                                          // remove the connections

  datatype Owner = Free | ByMain | ByWorker

  /** What happened so far, oldest first. */
  datatype Event =
    | Posted            // tick() counted one
    | Woken             // wakeup() forced the counter to 1
    | Handed(n: nat)    // set_ticks(n), counter back to 0
    | RunStarted
    | RunEnded

  datatype State = State(
    worker: WorkerPc,
    main: MainPc,
    owner: Owner,
    ticks: nat,
    stopping: bool,         // continue_running() answers !stopping
    workerPresent: bool,    // f_worker and f_worker_thread are set
    timerAttached: bool,
    joins: nat,
    history: seq<Event>)

  const INITIAL := State(LoopTest, Dispatch, Free, 0, false, true, true, 0, [])

  datatype Action =
    | TimerFires      // tick_timer::process_timeout
    | StopCalled      // SIGINT, STOP or worker done
    | MainStep
    | WorkerStep
    | SpuriousWake
    | PluginThrows

  function Signalled(worker: WorkerPc): WorkerPc {
    if worker.Waiting? then Waiting(true) else worker
  }

  function MainNext(s: State): Option<State> {
    match s.main
    case Dispatch => None
    case TickLock => if s.owner == Free then Some(s.(main := TickAdd, owner := ByMain)) else None
    case TickAdd => Some(s.(main := TickSignal, ticks := s.ticks + 1, history := s.history + [Posted]))
    case TickSignal => Some(s.(main := TickUnlock, worker := Signalled(s.worker)))
    case TickUnlock => Some(s.(main := Dispatch, owner := Free))
    case StopTest => Some(s.(main := if s.workerPresent && s.worker != Ended then StopFlag else Detach))
    case StopFlag => Some(s.(main := WakeLock, stopping := true))
    case WakeLock => if s.owner == Free then Some(s.(main := WakeSet, owner := ByMain)) else None
    case WakeSet => Some(s.(main := WakeSignal, ticks := 1, history := s.history + [Woken]))
    case WakeSignal => Some(s.(main := WakeUnlock, worker := Signalled(s.worker)))
    case WakeUnlock => Some(s.(main := Join, owner := Free))
    case Join => if s.worker == Ended then
                   Some(s.(main := Detach, workerPresent := false, joins := s.joins + 1))
                 else None
    case Detach => Some(s.(main := Dispatch, timerAttached := false))
  }

  function WorkerNext(s: State): Option<State> {
    match s.worker
    case LoopTest => Some(s.(worker := if s.stopping then Leaving else LockMutex))
    case LockMutex => if s.owner == Free then Some(s.(worker := WaitTest, owner := ByWorker)) else None
    case WaitTest => Some(s.(worker := if s.stopping then Unlock(false) else TickTest))
    case TickTest =>
      if s.ticks != 0 then
        Some(s.(worker := Unlock(true), ticks := 0, history := s.history + [Handed(s.ticks)]))
      else Some(s.(worker := Sleep))
    case Sleep => Some(s.(worker := Waiting(false), owner := Free))
    case Waiting(signalled) => if signalled then Some(s.(worker := Relock)) else None
    case Relock => if s.owner == Free then Some(s.(worker := WaitTest, owner := ByWorker)) else None
    case Unlock(handed) => Some(s.(worker := SecondTest(handed), owner := Free))
    case SecondTest(_) => Some(s.(worker := if s.stopping then Leaving else AboutToRun))
    case AboutToRun => Some(s.(worker := Running, history := s.history + [RunStarted]))
    case Running => Some(s.(worker := LoopTest, history := s.history + [RunEnded]))
    case Leaving => Some(s.(worker := Exiting))
    case Exiting => Some(s.(worker := Ended))
    case Ended => None
  }

  /** The state after an action; `None` when the action cannot happen now. */
  function Next(s: State, a: Action): Option<State> {
    match a
    case TimerFires =>
      if s.main == Dispatch && s.timerAttached then Some(s.(main := TickLock)) else None
    case StopCalled => if s.main == Dispatch then Some(s.(main := StopTest)) else None
    case MainStep => MainNext(s)
    case WorkerStep => WorkerNext(s)
    case SpuriousWake => if s.worker.Waiting? then Some(s.(worker := Relock)) else None
    case PluginThrows =>
      if s.worker == Running then Some(s.(worker := Leaving, history := s.history + [RunEnded])) else None
  }

  function Execute(s: State, schedule: seq<Action>): Option<State>
    decreases |schedule|
  {
    if schedule == [] then Some(s)
    else
      match Next(s, schedule[0])
      case None => None
      case Some(t) => Execute(t, schedule[1..])
  }

  /** The state some schedule leads to. */
  ghost predicate Reachable(s: State) {
    exists schedule :: Execute(INITIAL, schedule) == Some(s)
  }

  // ----- The inductive invariant -----

  predicate HeldByMain(main: MainPc) {
    main in {TickAdd, TickSignal, TickUnlock, WakeSet, WakeSignal, WakeUnlock}
  }

  predicate HeldByWorker(worker: WorkerPc) {
    worker.WaitTest? || worker.TickTest? || worker.Sleep? || worker.Unlock?
  }

  predicate InTick(main: MainPc) {
    main in {TickLock, TickAdd, TickSignal, TickUnlock}
  }

  /** Inside `stop`, after the flag is set and before the thread is joined. */
  predicate Stopping(main: MainPc) {
    main in {WakeLock, WakeSet, WakeSignal, WakeUnlock, Join}
  }

  /** The mutex belongs to whoever the program counters say, and to nobody else. */
  predicate MutexInv(s: State) {
    && (s.owner == ByMain <==> HeldByMain(s.main))
    && (s.owner == ByWorker <==> HeldByWorker(s.worker))
  }

  /** No lost wake-up. */
  predicate WaitInv(s: State) {
    && (s.worker == Sleep ==> s.ticks == 0)
    && (s.worker == Waiting(false) ==> s.ticks == 0 || s.main == TickSignal || s.main == WakeSignal)
    && (s.stopping && (s.worker == TickTest || s.worker == Sleep) ==> s.main == WakeLock)
    && (s.stopping && s.worker == Waiting(false) ==> s.main in {WakeLock, WakeSet, WakeSignal})
  }

  /** The stop request, the pointers to the worker, and the timer connection. */
  predicate StopInv(s: State) {
    && (s.stopping <==> Stopping(s.main) || s.joins == 1)
    && (s.workerPresent <==> s.joins == 0) && s.joins <= 1
    && (s.joins == 1 ==> s.worker == Ended)
    && (Stopping(s.main) || s.main == StopFlag || InTick(s.main) ==> s.workerPresent)
    && (s.joins == 1 && s.main != Detach ==> !s.timerAttached)
    && (InTick(s.main) ==> s.timerAttached)
  }

  predicate Inv(s: State) {
    MutexInv(s) && WaitInv(s) && StopInv(s)
  }

  lemma InvMain(s: State)
    requires Inv(s) && MainNext(s).Some?
    ensures Inv(MainNext(s).value)
  {
  }

  lemma InvWorker(s: State)
    requires Inv(s) && WorkerNext(s).Some?
    ensures Inv(WorkerNext(s).value)
  {
    var t := WorkerNext(s).value;
    assert MutexInv(t);
    assert StopInv(t);
    assert WaitInv(t);
  }

  lemma InvStep(s: State, a: Action)
    requires Inv(s) && Next(s, a).Some?
    ensures Inv(Next(s, a).value)
  {
    match a
    case MainStep => InvMain(s);
    case WorkerStep => InvWorker(s);
    case _ =>
  }

  lemma {:induction false} InvExecute(s: State, schedule: seq<Action>)
    requires Inv(s) && Execute(s, schedule).Some?
    ensures Inv(Execute(s, schedule).value)
    decreases |schedule|
  {
    if schedule != [] {
      InvStep(s, schedule[0]);
      InvExecute(Next(s, schedule[0]).value, schedule[1..]);
    }
  }

  lemma ReachableInv(s: State)
    requires Reachable(s)
    ensures Inv(s)
  {
    var schedule :| Execute(INITIAL, schedule) == Some(s);
    InvExecute(INITIAL, schedule);
  }

  // ----- What the invariant gives -----

  /**
    A worker asleep without a signal has nothing to do: no tick is pending, unless
    the thread that posted it still holds the mutex and is about to signal; and no
    completed wakeup follows a stop request.
  */
  lemma NoLostWakeup(s: State)
    requires Reachable(s) && s.worker == Waiting(false)
    ensures s.ticks == 0 || (s.owner == ByMain && MainNext(s).Some? && MainNext(s).value.worker == Waiting(true))
    ensures s.stopping ==> s.main in {WakeLock, WakeSet, WakeSignal}
  {
    ReachableInv(s);
  }

  /** No tick and no wake-up reaches a reset `f_worker`; the thread is joined at most once. */
  lemma WorkerPointerIsValid(s: State)
    requires Reachable(s)
    ensures InTick(s.main) || Stopping(s.main) ==> s.workerPresent
    ensures s.joins <= 1 && (s.joins == 1 ==> s.worker == Ended)
    ensures s.joins == 1 && s.main == Dispatch ==> Next(s, TimerFires) == None
  {
    ReachableInv(s);
  }

  /** How many steps the holder of the mutex is away from releasing it. */
  function HoldRank(s: State): nat {
    match s.owner
    case Free => 0
    case ByMain =>
      if s.main.TickAdd? || s.main.WakeSet? then 3 else if s.main.TickSignal? || s.main.WakeSignal? then 2 else 1
    case ByWorker => if s.worker.WaitTest? then 3 else if s.worker.TickTest? then 2 else 1
  }

  /** A held mutex is never stuck: its holder can step, and each step brings the release closer. */
  lemma MutexIsReleased(s: State)
    requires Reachable(s) && s.owner != Free
    ensures var next := Next(s, if s.owner == ByMain then MainStep else WorkerStep);
            next.Some? && HoldRank(next.value) < HoldRank(s)
  {
    ReachableInv(s);
  }

  /**
    The two threads never block each other: unless the event loop dispatches and
    the worker sleeps or has ended, one of them can step.
  */
  lemma NoDeadlock(s: State)
    requires Reachable(s)
    ensures Next(s, MainStep).Some? || Next(s, WorkerStep).Some?
            || (s.main == Dispatch
                && (s.worker == Ended || (s.worker == Waiting(false) && s.ticks == 0 && !s.stopping)))
  {
    ReachableInv(s);
  }
}
