/** What a stop request guarantees: a bounded end, and at most one more run. */
module WorkerStop {
  import opened Wrappers
  import opened WorkerProtocol
  import opened WorkerTicks

  /** Steps the worker may still take once `continue_running` answers false. */
  function WorkerRank(worker: WorkerPc): nat {
    match worker
    case Ended => 0
    case Exiting => 1
    case Leaving => 2
    case LoopTest => 3
    case SecondTest(_) => 3
    case Running => 4
    case Unlock(_) => 4
    case AboutToRun => 5
    case WaitTest => 5
    case LockMutex => 6
    case Relock => 6
    case Waiting(_) => 7
    case Sleep => 8
    case TickTest => 9
  }

  /** Steps left before `stop` returns. */
  function MainRank(main: MainPc): nat {
    match main
    case WakeLock => 6
    case WakeSet => 5
    case WakeSignal => 4
    case WakeUnlock => 3
    case Join => 2
    case Detach => 1
    case _ => 0
  }

  const STOP_BOUND: nat := 15

  function Remaining(s: State): nat {
    WorkerRank(s.worker) + MainRank(s.main)
  }

  /** A stop request was made and `stop` has not returned yet. */
  predicate InStop(s: State) {
    s.stopping && (Stopping(s.main) || (s.main == Detach && s.joins == 1))
  }

  /** The worker is gone, joined, and nothing can reach it any more. */
  predicate Stopped(s: State) {
    s.main == Dispatch && s.worker == Ended && !s.workerPresent && s.joins == 1 && !s.timerAttached
  }

  /** Every action, of whichever thread, brings the end closer. */
  lemma StopProgress(s: State, a: Action)
    requires Inv(s) && InStop(s) && Next(s, a).Some?
    ensures Remaining(Next(s, a).value) < Remaining(s)
    ensures InStop(Next(s, a).value) || Stopped(Next(s, a).value)
  {
    match a
    case WorkerStep => assert WorkerRank(WorkerNext(s).value.worker) < WorkerRank(s.worker);
    case MainStep => assert MainRank(MainNext(s).value.main) < MainRank(s.main);
    case _ =>
  }

  /** Some action is always possible until then, so no schedule gets stuck. */
  lemma StopNeverStuck(s: State)
    requires Reachable(s) && InStop(s)
    ensures Next(s, MainStep).Some? || Next(s, WorkerStep).Some?
  {
    ReachableInv(s);
  }

  /**
    From the stop request on, whatever the scheduling, `stop` returns within
    fifteen steps of the two threads, with the worker ended and joined once.
  */
  lemma {:induction false} StopReturns(s: State, schedule: seq<Action>) returns (k: nat)
    requires Inv(s) && InStop(s)
    requires Execute(s, schedule).Some? && |schedule| >= Remaining(s)
    ensures 0 < k <= Remaining(s) <= STOP_BOUND
    ensures Execute(s, schedule[..k]).Some? && Stopped(Execute(s, schedule[..k]).value)
    decreases |schedule|
  {
    var t := Next(s, schedule[0]).value;
    StopProgress(s, schedule[0]);
    InvStep(s, schedule[0]);
    if Stopped(t) {
      k := 1;
      assert schedule[..1] == [schedule[0]];
      assert Execute(t, schedule[..1][1..]) == Some(t);
    } else {
      var rest := StopReturns(t, schedule[1..]);
      k := rest + 1;
      assert schedule[..k][1..] == schedule[1..][..rest];
    }
  }

  // ----- From the request itself -----

  /** Inside a call of `stop`. */
  predicate InCall(main: MainPc) {
    main == StopTest || main == StopFlag || Stopping(main) || main == Detach
  }

  /** A call of `stop` does not go on to the connections over a worker that still runs. */
  predicate EndInv(s: State) {
    s.main == Detach ==> s.worker == Ended
  }

  lemma EndStep(s: State, a: Action)
    requires Inv(s) && EndInv(s) && Next(s, a).Some?
    ensures EndInv(Next(s, a).value)
  {
  }

  lemma {:induction false} EndExecute(s: State, schedule: seq<Action>)
    requires Inv(s) && EndInv(s) && Execute(s, schedule).Some?
    ensures EndInv(Execute(s, schedule).value)
    decreases |schedule|
  {
    if schedule != [] {
      InvStep(s, schedule[0]);
      EndStep(s, schedule[0]);
      EndExecute(Next(s, schedule[0]).value, schedule[1..]);
    }
  }

  lemma ReachableEnd(s: State)
    requires Reachable(s)
    ensures EndInv(s)
  {
    var schedule :| Execute(INITIAL, schedule) == Some(s);
    EndExecute(INITIAL, schedule);
  }

  /** Whenever `stop` returns, the worker has ended and no timer can fire any more. */
  lemma StopNeverLeavesAWorker(s: State)
    requires Reachable(s) && s.main == Detach
    ensures s.worker == Ended
    ensures Next(s, MainStep).Some? && !Next(s, MainStep).value.timerAttached
  {
    ReachableEnd(s);
  }

  /** Steps the worker may take before the flag is set, given what the event loop no longer adds to. */
  function FreeRank(worker: WorkerPc, pending: bool): nat {
    match worker
    case Ended => 0
    case Exiting => 1
    case Leaving => 2
    case Waiting(signalled) => if !signalled then 0 else if pending then 13 else 5
    case Sleep => 1
    case TickTest => if pending then 10 else 2
    case WaitTest => if pending then 11 else 3
    case LockMutex => if pending then 12 else 4
    case Relock => if pending then 12 else 4
    case LoopTest => if pending then 13 else 5
    case Running => if pending then 14 else 6
    case AboutToRun => if pending then 15 else 7
    case SecondTest(_) => if pending then 16 else 8
    case Unlock(_) => if pending then 17 else 9
  }

  /** What is left of a call of `stop`, in steps of either thread. */
  function CallRank(s: State): nat {
    if s.main == StopTest then 17 + FreeRank(s.worker, s.ticks > 0)
    else if s.main == StopFlag then 16 + FreeRank(s.worker, s.ticks > 0)
    else Remaining(s)
  }

  const CALL_BOUND: nat := 34

  lemma FreeStep(s: State, a: Action)
    requires Inv(s) && (s.main == StopTest || s.main == StopFlag) && a != MainStep && Next(s, a).Some?
    requires !InStop(s)
    ensures var t := Next(s, a).value;
            && t.main == s.main
            && FreeRank(t.worker, t.ticks > 0)
             < FreeRank(s.worker, s.ticks > 0) + (if a == SpuriousWake then 5 else 0)
  {
    if a == WorkerStep {
      assert !s.stopping || s.worker == Ended;
    }
  }

  /** A spurious wake-up of a sleeping worker costs a few steps; anything else brings the return closer. */
  lemma CallProgress(s: State, a: Action)
    requires Inv(s) && EndInv(s) && InCall(s.main) && Next(s, a).Some?
    ensures var t := Next(s, a).value;
            && CallRank(t) < CallRank(s) + (if a == SpuriousWake then 5 else 0)
            && (InCall(t.main) || (t.main == Dispatch && t.worker == Ended && !t.timerAttached))
  {
    if InStop(s) {
      StopProgress(s, a);
    } else if a == MainStep {
      assert WorkerRank(s.worker) <= 9;
    } else if s.main != Detach {
      FreeStep(s, a);
    }
  }

  function SpuriousWakes(schedule: seq<Action>): nat {
    if schedule == [] then 0 else (if schedule[0] == SpuriousWake then 1 else 0) + SpuriousWakes(schedule[1..])
  }

  /** How often the thread will have been joined when the call returns, once it looked at the worker. */
  function JoinsInTheEnd(s: State): nat {
    if s.main == StopFlag || Stopping(s.main) then s.joins + 1 else s.joins
  }

  lemma JoinsStep(s: State, a: Action)
    requires Inv(s) && InCall(s.main) && s.main != StopTest && Next(s, a).Some?
    ensures Next(s, a).value.main != StopTest
    ensures JoinsInTheEnd(Next(s, a).value) == JoinsInTheEnd(s)
  {
  }

  /** `stop` has returned. */
  predicate Returned(s: State, joins: nat) {
    s.main == Dispatch && s.worker == Ended && !s.timerAttached && s.joins == joins
  }

  lemma {:induction false} CallReturns(s: State, schedule: seq<Action>) returns (k: nat)
    requires Inv(s) && EndInv(s) && InCall(s.main) && s.main != StopTest
    requires Execute(s, schedule).Some? && |schedule| >= CallRank(s) + 5 * SpuriousWakes(schedule)
    ensures 0 < k <= CallRank(s) + 5 * SpuriousWakes(schedule)
    ensures Execute(s, schedule[..k]).Some? && Returned(Execute(s, schedule[..k]).value, JoinsInTheEnd(s))
    decreases |schedule|
  {
    var t := Next(s, schedule[0]).value;
    CallProgress(s, schedule[0]);
    JoinsStep(s, schedule[0]);
    InvStep(s, schedule[0]);
    EndStep(s, schedule[0]);
    if InCall(t.main) {
      var rest := CallReturns(t, schedule[1..]);
      k := rest + 1;
      assert schedule[..k][1..] == schedule[1..][..rest];
    } else {
      k := 1;
      assert schedule[..1][1..] == [];
    }
  }

  /** Up to the step in which the call looks at the worker, nothing else of it happens. */
  lemma TestStep(s: State, a: Action)
    requires Inv(s) && s.main == StopTest && Next(s, a).Some?
    ensures if a == MainStep then
              var t := Next(s, a).value;
              t.main != StopTest && JoinsInTheEnd(t) == s.joins + if s.worker == Ended then 0 else 1
            else Next(s, a).value.main == StopTest && Next(s, a).value.joins == s.joins
  {
  }

  lemma {:induction false} TestedCallReturns(s: State, schedule: seq<Action>) returns (test: nat, k: nat)
    requires Inv(s) && EndInv(s) && s.main == StopTest
    requires Execute(s, schedule).Some? && |schedule| >= CallRank(s) + 5 * SpuriousWakes(schedule)
    ensures test < k <= CallRank(s) + 5 * SpuriousWakes(schedule) && schedule[test] == MainStep
    ensures Execute(s, schedule[..test]).Some? && Execute(s, schedule[..test]).value.main == StopTest
    ensures Execute(s, schedule[..k]).Some?
    ensures Returned(Execute(s, schedule[..k]).value,
              s.joins + if Execute(s, schedule[..test]).value.worker == Ended then 0 else 1)
    decreases |schedule|
  {
    var t := Next(s, schedule[0]).value;
    CallProgress(s, schedule[0]);
    TestStep(s, schedule[0]);
    InvStep(s, schedule[0]);
    EndStep(s, schedule[0]);
    if schedule[0] == MainStep {
      var rest := CallReturns(t, schedule[1..]);
      test, k := 0, rest + 1;
      assert schedule[..k][1..] == schedule[1..][..rest];
    } else {
      var test', k' := TestedCallReturns(t, schedule[1..]);
      test, k := test' + 1, k' + 1;
      assert schedule[..k][1..] == schedule[1..][..k'];
      assert schedule[..test][1..] == schedule[1..][..test'];
    }
  }

  /**
    Whatever the scheduling after a call of `stop`, and however often it was
    called before: it returns within thirty-five steps of the two threads, and five
    more for each spurious wake-up. The worker has then ended, the timer is
    detached, and the thread was joined unless it had ended when it was looked at.
  */
  lemma StopRequestReturns(s: State, schedule: seq<Action>) returns (test: nat, k: nat)
    requires Reachable(s) && s.main == Dispatch && |schedule| > 0 && schedule[0] == StopCalled
    requires Execute(s, schedule).Some? && |schedule| > CALL_BOUND + 5 * SpuriousWakes(schedule)
    ensures 0 < test < k <= 1 + CALL_BOUND + 5 * SpuriousWakes(schedule) && schedule[test] == MainStep
    ensures Execute(s, schedule[..test]).Some? && Execute(s, schedule[..k]).Some?
    ensures var tested, returned := Execute(s, schedule[..test]).value, Execute(s, schedule[..k]).value;
            && returned.main == Dispatch && returned.worker == Ended && !returned.timerAttached
            && returned.joins == s.joins + if tested.worker == Ended then 0 else 1
  {
    ReachableInv(s);
    ReachableEnd(s);
    InvStep(s, StopCalled);
    var t := Next(s, StopCalled).value;
    var test', k' := TestedCallReturns(t, schedule[1..]);
    test, k := test' + 1, k' + 1;
    assert schedule[..k][1..] == schedule[1..][..k'];
    assert schedule[..test][1..] == schedule[1..][..test'];
  }

  /** And some thread can always step until then. */
  lemma CallNeverStuck(s: State)
    requires Reachable(s) && InCall(s.main)
    ensures Next(s, MainStep).Some? || Next(s, WorkerStep).Some?
  {
    ReachableInv(s);
  }

  // ----- Runs started after the request -----

  /** One more run can start only if the worker is already past its second test. */
  function RunsToCome(s: State): nat {
    if s.worker == AboutToRun then 1 else 0
  }

  lemma RunsToComeStep(s: State, a: Action)
    requires s.stopping && Next(s, a).Some?
    ensures Next(s, a).value.stopping
    ensures RunsToCome(Next(s, a).value) + (if Adds(s, a) == Some(RunStarted) then 1 else 0) <= RunsToCome(s)
  {
  }

  lemma RunsStep(s: State, a: Action)
    requires s.stopping && Next(s, a).Some?
    ensures Next(s, a).value.stopping
    ensures Runs(Next(s, a).value.history) + RunsToCome(Next(s, a).value)
         <= Runs(s.history) + RunsToCome(s)
  {
    RunsToComeStep(s, a);
    HistoryGrows(s, a);
    assert Runs(Next(s, a).value.history) == Read(Next(s, a).value.history).runs;
  }

  /** After a stop request at most one run starts, and none unless the worker was about to. */
  lemma {:induction false} AtMostOneMoreRun(s: State, schedule: seq<Action>)
    requires s.stopping && Execute(s, schedule).Some?
    ensures Runs(Execute(s, schedule).value.history) <= Runs(s.history) + RunsToCome(s)
    decreases |schedule|
  {
    if schedule != [] {
      RunsStep(s, schedule[0]);
      AtMostOneMoreRun(Next(s, schedule[0]).value, schedule[1..]);
    }
  }

  // ----- A plugin that throws -----

  lemma GoneStep(s: State, a: Action)
    requires Gone(s.worker) && Next(s, a).Some?
    ensures Gone(Next(s, a).value.worker)
    ensures Adds(s, a) == None || Adds(s, a) == Some(Posted) || Adds(s, a) == Some(Woken)
  {
  }

  /** A worker that left does nothing any more, whatever is posted. */
  lemma {:induction false} GoneForGood(s: State, schedule: seq<Action>)
    requires Gone(s.worker) && Execute(s, schedule).Some?
    ensures var t := Execute(s, schedule).value;
            Gone(t.worker) && Runs(t.history) == Runs(s.history) && Handouts(t.history) == Handouts(s.history)
    decreases |schedule|
  {
    if schedule != [] {
      var t := Next(s, schedule[0]).value;
      GoneStep(s, schedule[0]);
      HandoutStep(s, schedule[0]);
      RunStep(s, schedule[0]);
      GoneForGood(t, schedule[1..]);
    }
  }

  lemma ThrowStep(s: State)
    requires Next(s, PluginThrows).Some?
    ensures var t := Next(s, PluginThrows).value;
            Gone(t.worker) && Runs(t.history) == Runs(s.history) && Handouts(t.history) == Handouts(s.history)
  {
    HandoutStep(s, PluginThrows);
    RunStep(s, PluginThrows);
  }

  /** So the run in which a plugin throws is the last one. */
  lemma ThrowEndsTheWorker(s: State, schedule: seq<Action>)
    requires schedule != [] && schedule[0] == PluginThrows && Execute(s, schedule).Some?
    ensures var t := Execute(s, schedule).value;
            Gone(t.worker) && Runs(t.history) == Runs(s.history) && Handouts(t.history) == Handouts(s.history)
  {
    ThrowStep(s);
    GoneForGood(Next(s, PluginThrows).value, schedule[1..]);
  }
}
