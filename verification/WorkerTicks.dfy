/** Tick accounting: what the worker is handed, and how runs relate to it. */
module WorkerTicks {
  import opened Wrappers
  import opened WorkerProtocol

  function Last(h: seq<Event>): Event
    requires h != []
  {
    h[|h| - 1]
  }

  function Before(h: seq<Event>): seq<Event>
    requires h != []
  {
    h[..|h| - 1]
  }

  // ----- Reading a history -----

  function Posts(h: seq<Event>): nat {
    if h == [] then 0 else Posts(Before(h)) + if Last(h) == Posted then 1 else 0
  }

  function Runs(h: seq<Event>): nat {
    if h == [] then 0 else Runs(Before(h)) + if Last(h) == RunStarted then 1 else 0
  }

  function Handouts(h: seq<Event>): nat {
    if h == [] then 0 else Handouts(Before(h)) + if Last(h).Handed? then 1 else 0
  }

  function HandedSum(h: seq<Event>): nat {
    if h == [] then 0 else HandedSum(Before(h)) + if Last(h).Handed? then Last(h).n else 0
  }

  /** Ticks counted and not handed over yet. */
  function Pending(h: seq<Event>): nat {
    if h == [] then 0
    else
      match Last(h)
      case Posted => Pending(Before(h)) + 1
      case Woken => 1
      case Handed(_) => 0
      case _ => Pending(Before(h))
  }

  predicate InRun(h: seq<Event>) {
    if h == [] then false
    else if Last(h) == RunStarted then true
    else if Last(h) == RunEnded then false
    else InRun(Before(h))
  }

  /**
    Every hand-over passes on exactly what is pending, never zero, never inside a
    run, never after the final wake-up, and never twice without a run; every run
    is paid for by a hand-over of its own.
  */
  predicate Faithful(h: seq<Event>) {
    if h == [] then true
    else
      var before := Before(h);
      && Faithful(before)
      && match Last(h)
         case Handed(n) =>
           n > 0 && n == Pending(before) && !InRun(before) && Woken !in before && Handouts(before) == Runs(before)
         case RunStarted => !InRun(before) && Handouts(before) == Runs(before) + 1
         case RunEnded => InRun(before)
         case _ => true
  }

  // ----- Every reachable history is faithful -----

  /** The worker holds a hand-over that no run was started for. */
  predicate HasTicket(worker: WorkerPc) {
    (worker.Unlock? && worker.handed) || (worker.SecondTest? && worker.handed) || worker == AboutToRun
  }

  predicate Gone(worker: WorkerPc) {
    worker.Leaving? || worker.Exiting? || worker.Ended?
  }

  /** The readings of a history that the step proof needs. */
  datatype Reading = Reading(runs: nat, handouts: nat, pending: nat, inRun: bool, woken: bool)

  function Read(h: seq<Event>): Reading {
    Reading(Runs(h), Handouts(h), Pending(h), InRun(h), Woken in h)
  }

  predicate Agrees(s: State, r: Reading) {
    && r.pending == s.ticks
    && (r.inRun <==> s.worker == Running)
    && r.runs <= r.handouts <= r.runs + 1
    && (!Gone(s.worker) ==> r.handouts == r.runs + if HasTicket(s.worker) then 1 else 0)
    && (r.woken ==> s.joins == 1 || s.main in {WakeSignal, WakeUnlock, Join})
    && (s.worker == Unlock(false) || s.worker == SecondTest(false) ==> s.stopping)
  }

  predicate TicksInv(s: State) {
    Faithful(s.history) && Agrees(s, Read(s.history))
  }

  /** The event an action adds to the history, if any. */
  function Adds(s: State, a: Action): Option<Event> {
    match a
    case MainStep =>
      if s.main == TickAdd then Some(Posted) else if s.main == WakeSet then Some(Woken) else None
    case WorkerStep =>
      if s.worker == TickTest && s.ticks != 0 then Some(Handed(s.ticks))
      else if s.worker == AboutToRun then Some(RunStarted)
      else if s.worker == Running then Some(RunEnded)
      else None
    case PluginThrows => if s.worker == Running then Some(RunEnded) else None
    case _ => None
  }

  lemma HistoryIs(s: State, a: Action)
    requires Next(s, a).Some?
    ensures Next(s, a).value.history == if Adds(s, a).Some? then s.history + [Adds(s, a).value] else s.history
  {
  }

  lemma Appended(h: seq<Event>, e: Event)
    ensures Before(h + [e]) == h && Last(h + [e]) == e
  {
  }

  function AfterEvent(r: Reading, added: Option<Event>): Reading {
    match added
    case None => r
    case Some(Posted) => r.(pending := r.pending + 1)
    case Some(Woken) => r.(pending := 1, woken := true)
    case Some(Handed(_)) => r.(pending := 0, handouts := r.handouts + 1)
    case Some(RunStarted) => r.(runs := r.runs + 1, inRun := true)
    case Some(RunEnded) => r.(inRun := false)
  }

  /** What one action does to the readings of the history. */
  lemma HistoryGrows(s: State, a: Action)
    requires Next(s, a).Some?
    ensures Read(Next(s, a).value.history) == AfterEvent(Read(s.history), Adds(s, a))
  {
    HistoryIs(s, a);
    if Adds(s, a).Some? {
      Appended(s.history, Adds(s, a).value);
    }
  }

  lemma AgreesMain(s: State, r: Reading)
    requires Inv(s) && Agrees(s, r) && MainNext(s).Some?
    ensures Agrees(MainNext(s).value, AfterEvent(r, Adds(s, MainStep)))
  {
  }

  lemma AgreesWorker(s: State, r: Reading)
    requires Inv(s) && Agrees(s, r) && WorkerNext(s).Some?
    ensures Agrees(WorkerNext(s).value, AfterEvent(r, Adds(s, WorkerStep)))
  {
  }

  lemma AgreesStep(s: State, a: Action, r: Reading)
    requires Inv(s) && Agrees(s, r) && Next(s, a).Some?
    ensures Agrees(Next(s, a).value, AfterEvent(r, Adds(s, a)))
  {
    match a
    case MainStep => AgreesMain(s, r);
    case WorkerStep => AgreesWorker(s, r);
    case _ =>
  }

  lemma StaysFaithful(s: State, a: Action)
    requires Inv(s) && TicksInv(s) && Next(s, a).Some?
    ensures Faithful(Next(s, a).value.history)
  {
    HistoryIs(s, a);
    if Adds(s, a).Some? {
      Appended(s.history, Adds(s, a).value);
    }
  }

  lemma TicksStep(s: State, a: Action)
    requires Inv(s) && TicksInv(s) && Next(s, a).Some?
    ensures TicksInv(Next(s, a).value)
  {
    StaysFaithful(s, a);
    AgreesStep(s, a, Read(s.history));
    HistoryGrows(s, a);
  }

  lemma {:induction false} TicksExecute(s: State, schedule: seq<Action>)
    requires Inv(s) && TicksInv(s) && Execute(s, schedule).Some?
    ensures TicksInv(Execute(s, schedule).value)
    decreases |schedule|
  {
    if schedule != [] {
      InvStep(s, schedule[0]);
      TicksStep(s, schedule[0]);
      TicksExecute(Next(s, schedule[0]).value, schedule[1..]);
    }
  }

  lemma ReachableTicks(s: State)
    requires Reachable(s)
    ensures TicksInv(s)
  {
    var schedule :| Execute(INITIAL, schedule) == Some(s);
    TicksExecute(INITIAL, schedule);
  }

  // ----- Every timer callback counts one tick -----

  function Firings(schedule: seq<Action>): nat {
    if schedule == [] then 0 else (if schedule[0] == TimerFires then 1 else 0) + Firings(schedule[1..])
  }

  /** A callback that has not counted its tick yet. */
  function Uncounted(main: MainPc): nat {
    if main == TickLock || main == TickAdd then 1 else 0
  }

  lemma UncountedStep(s: State, a: Action)
    requires Next(s, a).Some?
    ensures Uncounted(Next(s, a).value.main) + (if Adds(s, a) == Some(Posted) then 1 else 0)
         == Uncounted(s.main) + if a == TimerFires then 1 else 0
  {
  }

  lemma PostsStep(s: State, a: Action)
    requires Next(s, a).Some?
    ensures Posts(Next(s, a).value.history) == Posts(s.history) + if Adds(s, a) == Some(Posted) then 1 else 0
  {
    HistoryIs(s, a);
    if Adds(s, a).Some? {
      Appended(s.history, Adds(s, a).value);
    }
  }

  /** Ticks counted are the firings of the timer, but for one the event loop is still at. */
  lemma {:induction false} EveryFiringCounts(s: State, schedule: seq<Action>)
    requires Execute(s, schedule).Some?
    ensures var t := Execute(s, schedule).value;
            Posts(t.history) + Uncounted(t.main) == Posts(s.history) + Uncounted(s.main) + Firings(schedule)
    decreases |schedule|
  {
    if schedule != [] {
      UncountedStep(s, schedule[0]);
      PostsStep(s, schedule[0]);
      EveryFiringCounts(Next(s, schedule[0]).value, schedule[1..]);
    }
  }

  // ----- What follows for every reachable state -----

  lemma {:induction false} PostsAreHandedOrPending(h: seq<Event>)
    requires Faithful(h) && Woken !in h
    ensures Posts(h) == HandedSum(h) + Pending(h)
  {
    if h != [] {
      PostsAreHandedOrPending(Before(h));
    }
  }

  /** Before a stop wakes the worker, no tick is lost and none is counted twice. */
  lemma TickConservation(s: State)
    requires Reachable(s) && Woken !in s.history
    ensures Posts(s.history) == HandedSum(s.history) + s.ticks
  {
    ReachableTicks(s);
    PostsAreHandedOrPending(s.history);
  }

  lemma {:induction false} HandoutsArePosts(h: seq<Event>)
    requires Faithful(h)
    ensures Handouts(h) + (if Woken !in h && Pending(h) > 0 then 1 else 0) <= Posts(h)
  {
    if h != [] {
      HandoutsArePosts(Before(h));
    }
  }

  /** Runs never outnumber ticks. */
  lemma RunsNeverOutnumberTicks(s: State)
    requires Reachable(s)
    ensures Runs(s.history) <= Handouts(s.history) <= Posts(s.history)
  {
    ReachableTicks(s);
    HandoutsArePosts(s.history);
  }

  lemma {:induction false} FaithfulPrefix(h: seq<Event>, k: nat)
    requires Faithful(h) && k <= |h|
    ensures Faithful(h[..k])
    decreases |h|
  {
    if k == |h| {
      assert h[..k] == h;
    } else {
      assert h[..k] == Before(h)[..k];
      FaithfulPrefix(Before(h), k);
    }
  }

  lemma {:induction false} SinceHandoutPrefix(h: seq<Event>, i: nat)
    requires Faithful(h) && i < |h| && h[i].Handed?
    requires forall j :: i < j < |h| ==> !h[j].Handed?
    requires Woken !in h
    ensures Pending(h) == Posts(h[i + 1..])
    ensures Handouts(h) - Runs(h) == 1 - Runs(h[i + 1..])
    decreases |h|
  {
    if i + 1 == |h| {
      assert h[i + 1..] == [];
    } else {
      SinceHandoutPrefix(Before(h), i);
      assert Before(h[i + 1..]) == Before(h)[i + 1..];
    }
  }

  /** What the part after a hand-over holds, when no other hand-over follows. */
  lemma SinceHandout(h: seq<Event>, i: nat, k: nat)
    requires Faithful(h) && i < k <= |h| && h[i].Handed?
    requires forall j :: i < j < k ==> !h[j].Handed?
    requires Woken !in h[..k]
    ensures Faithful(h[..k])
    ensures Pending(h[..k]) == Posts(h[i + 1..k])
    ensures Handouts(h[..k]) - Runs(h[..k]) == 1 - Runs(h[i + 1..k])
  {
    if k < |h| {
      assert h[..k] == Before(h)[..k];
      FaithfulPrefix(h, k);
    } else {
      assert h[..k] == h;
    }
    SinceHandoutPrefix(h[..k], i);
    assert h[..k][i + 1..] == h[i + 1..k];
  }

  /**
    Between two consecutive hand-overs exactly one run starts, and the second
    passes on exactly the ticks posted in between: those that arrived during the
    run and those that arrived while the worker slept.
  */
  lemma OneRunPerHandout(s: State, i: nat, k: nat)
    requires Reachable(s) && i < k < |s.history|
    requires s.history[i].Handed? && s.history[k].Handed?
    requires forall j :: i < j < k ==> !s.history[j].Handed?
    ensures Runs(s.history[i + 1..k]) == 1
    ensures s.history[k].n == Posts(s.history[i + 1..k]) > 0
  {
    var h := s.history;
    ReachableTicks(s);
    FaithfulPrefix(h, k + 1);
    assert Before(h[..k + 1]) == h[..k] && Last(h[..k + 1]) == h[k];
    SinceHandout(h, i, k);
  }

  /** No hand-over happens inside a run, so its ticks all go to the same later run. */
  lemma NoHandoutInsideRun(s: State, i: nat, k: nat)
    requires Reachable(s) && i < k < |s.history| && s.history[i] == RunStarted
    requires forall j :: i < j < k ==> s.history[j] != RunEnded
    ensures s.history[k] in {Posted, Woken, RunEnded}
  {
    var h := s.history;
    ReachableTicks(s);
    FaithfulPrefix(h, k + 1);
    assert Before(h[..k + 1]) == h[..k] && Last(h[..k + 1]) == h[k];
    InRunUntilEnd(h, i, k);
  }

  lemma {:induction false} InRunUntilEnd(h: seq<Event>, i: nat, k: nat)
    requires i < k <= |h| && h[i] == RunStarted
    requires forall j :: i < j < k ==> h[j] != RunEnded
    ensures InRun(h[..k])
    decreases k
  {
    assert Before(h[..k]) == h[..k - 1] && Last(h[..k]) == h[k - 1];
    if i + 1 < k {
      InRunUntilEnd(h, i, k - 1);
    }
  }

  // ----- A pending tick is served -----

  /** Steps the worker is away from handing over a pending tick. */
  function ServeRank(worker: WorkerPc): nat {
    match worker
    case TickTest => 1
    case WaitTest => 2
    case LockMutex => 3
    case Relock => 3
    case LoopTest => 4
    case Waiting(signalled) => if signalled then 4 else 5
    case Running => 5
    case AboutToRun => 6
    case SecondTest(_) => 7
    case Unlock(_) => 8
    case _ => 0
  }

  const SERVE_BOUND: nat := 8

  predicate ByTheWorker(a: Action) {
    a == WorkerStep || a == SpuriousWake
  }

  /** A tick waits for a worker that still runs. */
  predicate TickWaits(s: State) {
    s.ticks > 0 && !s.stopping && !Gone(s.worker)
  }

  /** Unless the tick is handed over, it keeps waiting and the worker comes closer. */
  lemma ServeProgress(s: State, a: Action)
    requires Inv(s) && TicksInv(s) && TickWaits(s)
    requires Next(s, a).Some? && !Next(s, a).value.stopping && a != PluginThrows
    ensures var t, added := Next(s, a).value, Adds(s, a);
            || (added.Some? && added.value.Handed?)
            || (TickWaits(t) && ServeRank(t.worker) + (if ByTheWorker(a) then 1 else 0) <= ServeRank(s.worker))
  {
  }

  function WorkerActions(schedule: seq<Action>): nat {
    if schedule == [] then 0
    else (if ByTheWorker(schedule[0]) then 1 else 0) + WorkerActions(schedule[1..])
  }

  lemma StoppingStays(s: State, a: Action)
    requires Next(s, a).Some? && s.stopping
    ensures Next(s, a).value.stopping
  {
  }

  lemma {:induction false} StillRunning(s: State, schedule: seq<Action>)
    requires Execute(s, schedule).Some? && !Execute(s, schedule).value.stopping
    ensures !s.stopping
    decreases |schedule|
  {
    if schedule != [] {
      StillRunning(Next(s, schedule[0]).value, schedule[1..]);
      if s.stopping { StoppingStays(s, schedule[0]); }
    }
  }

  lemma {:induction false} HandoutsGrow(s: State, schedule: seq<Action>)
    requires Execute(s, schedule).Some?
    ensures Handouts(Execute(s, schedule).value.history) >= Handouts(s.history)
    decreases |schedule|
  {
    if schedule != [] {
      HandoutStep(s, schedule[0]);
      HandoutsGrow(Next(s, schedule[0]).value, schedule[1..]);
    }
  }

  lemma HandoutStep(s: State, a: Action)
    requires Next(s, a).Some?
    ensures Handouts(Next(s, a).value.history)
         == Handouts(s.history) + if Adds(s, a).Some? && Adds(s, a).value.Handed? then 1 else 0
  {
    HistoryIs(s, a);
    if Adds(s, a).Some? {
      Appended(s.history, Adds(s, a).value);
    }
  }

  lemma RunStep(s: State, a: Action)
    requires Next(s, a).Some?
    ensures Runs(Next(s, a).value.history) == Runs(s.history) + if Adds(s, a) == Some(RunStarted) then 1 else 0
  {
    HistoryIs(s, a);
    if Adds(s, a).Some? {
      Appended(s.history, Adds(s, a).value);
    }
  }

  lemma {:induction false} ServedInTime(s: State, schedule: seq<Action>)
    requires Inv(s) && TicksInv(s) && TickWaits(s)
    requires Execute(s, schedule).Some? && !Execute(s, schedule).value.stopping && PluginThrows !in schedule
    requires WorkerActions(schedule) >= ServeRank(s.worker)
    ensures Handouts(Execute(s, schedule).value.history) > Handouts(s.history)
    decreases |schedule|
  {
    if schedule != [] {
      var t := Next(s, schedule[0]).value;
      StillRunning(t, schedule[1..]);
      ServeProgress(s, schedule[0]);
      HandoutStep(s, schedule[0]);
      HandoutsGrow(t, schedule[1..]);
      InvStep(s, schedule[0]);
      TicksStep(s, schedule[0]);
      if TickWaits(t) && !(Adds(s, schedule[0]).Some? && Adds(s, schedule[0]).value.Handed?) {
        ServedInTime(t, schedule[1..]);
      }
    }
  }

  /**
    A pending tick is handed over within eight steps of the worker, whatever the
    event loop does in between short of a stop, as long as no plugin throws.
  */
  lemma PendingTickIsServed(s: State, schedule: seq<Action>)
    requires Reachable(s) && TickWaits(s)
    requires Execute(s, schedule).Some? && !Execute(s, schedule).value.stopping && PluginThrows !in schedule
    requires WorkerActions(schedule) >= SERVE_BOUND
    ensures Handouts(Execute(s, schedule).value.history) > Handouts(s.history)
  {
    ReachableInv(s);
    ReachableTicks(s);
    ServedInTime(s, schedule);
  }
}
