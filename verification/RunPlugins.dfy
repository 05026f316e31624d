/**
  One run of the plugins after the other: errors are counted, the statistics go
  to the ring, and a report may be mailed. In between options change, getters are
  called and the service restarts; the directory and the last-email file are tied
  to the whole history.
*/
module RunPlugins {
  import opened Settings
  import opened ErrorReport
  import opened Wrappers
  import Statistics

  /** One run as the worker meets it. */
  datatype Watch = Watch(
    start: nat,
    end: nat,
    errors: seq<int>,         // priorities appended by the plugins, in order
    producedData: bool,       // some plugin added to the result
    dataPath: bool,           // a data path is configured
    text: Option<string>,     // what the file of its slot holds after the write, None when left alone
    now: int,                 // the clock when the report is considered
    stampWritten: bool,
    addresses: bool)          // both email addresses are configured

  datatype Outcome =
    | Threw                   // a plugin appended a priority outside 0..100
    | Empty                   // nothing to save
    | Quiet                   // no error, or the settle time gate is closed
    | Judged(verdict: Verdict, sent: bool)

  // ----- What a run does, given the settings of its moment -----

  /** The thresholds the getters answer at a moment. */
  function ReadThresholds(c: Converters, m: Moment): Thresholds {
    Thresholds(
      Answer(c, m, Get(GetLowPriority)), Answer(c, m, Get(GetMediumPriority)), Answer(c, m, Get(GetCriticalPriority)),
      Answer(c, m, Get(GetLowSpan)), Answer(c, m, Get(GetMediumSpan)), Answer(c, m, Get(GetCriticalSpan)))
  }

  /** Whatever the options, the limiter works with clamped spans. */
  lemma ThresholdsAreClamped(c: Converters, m: Moment)
    ensures Clamped(ReadThresholds(c, m))
    ensures 1 <= ReadThresholds(c, m).low && ReadThresholds(c, m).critical <= 100
  {
    ReportsAreClamped(c, m.options);
  }

  /** Exactly which options keep a worse error from being held back where a milder one is mailed. */
  lemma OptionsAreMonotoneExactly(c: Converters, m: Moment)
    ensures Monotone(ReadThresholds(c, m)) <==> SpansOrdered(ReadThresholds(c, m))
  {
    ThresholdsAreClamped(c, m);
    MonotoneExactly(ReadThresholds(c, m));
  }

  /**
    The getters clamp each value on its own, which does not order them: here are
    options with a medium span of one hour beside a critical span of one day.
  */
  lemma ClampedIsNotEnough(o: Options, known: bool)
    requires o.low == "10,1w" && o.medium == "50,1h" && o.critical == "90,1d"
    ensures ReadThresholds(Samples(), Moment(o, known)) == Thresholds(10, 50, 90, 604800, 3600, 86400)
    ensures !Monotone(ReadThresholds(Samples(), Moment(o, known)))
  {
    SamplesAreRead();
    OptionsAreMonotoneExactly(Samples(), Moment(o, known));
  }

  /**
    Without options the table of the documentation holds: from 10 once a week, from
    50 every three days, from 90 once a day.
  */
  lemma DefaultsAreDocumented(c: Converters, o: Options, known: bool, priority: int)
    requires o.low == "" && o.medium == "" && o.critical == ""
    ensures var t := ReadThresholds(c, Moment(o, known));
            && t == Thresholds(10, 50, 90, 604800, 259200, 86400)
            && Span(t, priority) == (if priority >= 90 then 86400 else if priority >= 50 then 259200 else 604800)
  {
  }

  predicate AllValid(priorities: seq<int>) {
    forall i :: 0 <= i < |priorities| ==> ValidPriority(priorities[i])
  }

  predicate Saves(w: Watch) {
    AllValid(w.errors) && w.producedData && w.dataPath && w.text.Some?
  }

  function RingPeriod(c: Converters, o: Options): Statistics.Period {
    SettingsAreBounded(c, o);
    PeriodOf(c, o)
  }

  function RunOf(c: Converters, o: Options, w: Watch): Statistics.Run
    requires Saves(w)
  {
    Statistics.Run(w.start, RingPeriod(c, o), w.text.value)
  }

  predicate IsJudged(c: Converters, o: Options, w: Watch) {
    AllValid(w.errors) && w.producedData && |w.errors| > 0 && w.end - w.start >= SettleTimeOf(c, o)
  }

  function AttemptOf(c: Converters, m: Moment, w: Watch): Attempt {
    Attempt(w.now, Worst(w.errors), ReadThresholds(c, m), w.stampWritten)
  }

  // ----- What a whole life does -----

  datatype Step =
    | Watching(watch: Watch)
    | Requested(request: Request)    // an option changes, or a getter is called
    | Restarted(options: Options)    // the service ends and starts again

  /** A run that looks at the priorities past the low one remembers the critical class. */
  function MomentNext(c: Converters, m: Moment, step: Step): Moment {
    match step
    case Watching(w) =>
      m.(known := m.known || (IsJudged(c, m.options, w) && Worst(w.errors) >= ReadThresholds(c, m).low))
    case Requested(request) => After(m, request)
    case Restarted(options) => Moment(options, false)
  }

  function MomentAfter(c: Converters, m: Moment, steps: seq<Step>): Moment {
    if steps == [] then m
    else MomentNext(c, MomentAfter(c, m, steps[..|steps| - 1]), steps[|steps| - 1])
  }

  function AttemptIn(c: Converters, m: Moment, step: Step): seq<Attempt> {
    if step.Watching? && IsJudged(c, m.options, step.watch) then [AttemptOf(c, m, step.watch)] else []
  }

  function RunIn(c: Converters, m: Moment, step: Step): seq<Statistics.Run> {
    if step.Watching? && Saves(step.watch) then [RunOf(c, m.options, step.watch)] else []
  }

  /** Every decision of the limiter, in order. */
  function Attempts(c: Converters, m: Moment, steps: seq<Step>): seq<Attempt> {
    if steps == [] then []
    else
      var before := steps[..|steps| - 1];
      Attempts(c, m, before) + AttemptIn(c, MomentAfter(c, m, before), steps[|steps| - 1])
  }

  /** Every run saved, in order. */
  function Runs(c: Converters, m: Moment, steps: seq<Step>): seq<Statistics.Run> {
    if steps == [] then []
    else
      var before := steps[..|steps| - 1];
      Runs(c, m, before) + RunIn(c, MomentAfter(c, m, before), steps[|steps| - 1])
  }

  /** The clock does not go back. */
  ghost predicate ClockRises(steps: seq<Step>) {
    forall i, j :: 0 <= i <= j < |steps| && steps[i].Watching? && steps[j].Watching? ==>
      steps[i].watch.now <= steps[j].watch.now
  }

  lemma {:induction false} AttemptsByThen(c: Converters, m: Moment, steps: seq<Step>, time: int)
    requires forall i :: 0 <= i < |steps| && steps[i].Watching? ==> steps[i].watch.now <= time
    ensures forall i :: 0 <= i < |Attempts(c, m, steps)| ==> Attempts(c, m, steps)[i].now <= time
  {
    if steps != [] {
      AttemptsByThen(c, m, steps[..|steps| - 1], time);
    }
  }

  lemma {:induction false} AttemptsAreRegular(c: Converters, m: Moment, steps: seq<Step>)
    requires ClockRises(steps)
    ensures Regular(Attempts(c, m, steps))
  {
    if steps != [] {
      var before, last := steps[..|steps| - 1], steps[|steps| - 1];
      AttemptsAreRegular(c, m, before);
      if last.Watching? {
        AttemptsByThen(c, m, before, last.watch.now);
        ThresholdsAreClamped(c, MomentAfter(c, m, before));
      }
    }
  }

  /**
    Whatever the options, however they change, and across restarts: two reports
    are at least the span of the later one apart, and so five minutes, if the
    stamp of the earlier one was written.
  */
  lemma MailsAreSpaced(c: Converters, m: Moment, steps: seq<Step>, stamp: Stamp, i: nat, j: nat)
    requires ClockRises(steps) && i < j < |Attempts(c, m, steps)|
    requires IsDue(stamp, Attempts(c, m, steps), i) && IsDue(stamp, Attempts(c, m, steps), j)
    requires Attempts(c, m, steps)[i].written
    ensures var a, b := Attempts(c, m, steps)[i], Attempts(c, m, steps)[j];
            b.now - a.now >= Span(b.thresholds, b.priority) >= 300
  {
    AttemptsAreRegular(c, m, steps);
    ReportsAreSpaced(stamp, Attempts(c, m, steps), i, j);
  }

  /**
    And exactly these are made: a report is due whenever its priority is worth one
    and its span has passed since the stamp found at the start and since every
    earlier report of which the stamp was written.
  */
  lemma MailsAreDueExactly(c: Converters, m: Moment, steps: seq<Step>, stamp: Stamp, j: nat)
    requires ClockRises(steps) && j < |Attempts(c, m, steps)|
    ensures var attempts := Attempts(c, m, steps);
            (IsDue(stamp, attempts, j)
             <==> && attempts[j].priority >= attempts[j].thresholds.low
                  && (stamp.At? ==> Waited(attempts, j, stamp.time))
                  && forall i :: 0 <= i < j && IsDue(stamp, attempts, i) && attempts[i].written ==>
                       Waited(attempts, j, attempts[i].now))
  {
    AttemptsAreRegular(c, m, steps);
    DueExactly(stamp, Attempts(c, m, steps), j);
  }

  /** A window of time holds at most one report per five minutes, and one more. */
  lemma MailsAreFew(c: Converters, m: Moment, steps: seq<Step>, stamp: Stamp, from: int, to: int)
    requires ClockRises(steps) && AllWritten(Attempts(c, m, steps)) && from <= to
    ensures var attempts := Attempts(c, m, steps);
            DueWithin(stamp, attempts, |attempts|, from, to) <= (to - from) / 300 + 1
  {
    AttemptsAreRegular(c, m, steps);
    WindowIsBounded(stamp, Attempts(c, m, steps), from, to);
  }

  lemma {:induction false} RunsAreWhole(c: Converters, m: Moment, steps: seq<Step>)
    ensures forall i :: 0 <= i < |Runs(c, m, steps)| ==> Runs(c, m, steps)[i].period % 60 == 0
  {
    if steps != [] {
      RunsAreWhole(c, m, steps[..|steps| - 1]);
      PeriodIsLeastCoveringHours(c, MomentAfter(c, m, steps[..|steps| - 1]).options);
    }
  }

  /** The disk never holds more files than the longest period in use has minutes. */
  lemma DiskIsBounded(
    c: Converters, m: Moment, steps: seq<Step>, files: map<nat, Statistics.Run>, longest: Statistics.Period)
    requires longest % 60 == 0 && Statistics.WholeMinutes(files, longest)
    requires forall i :: 0 <= i < |Runs(c, m, steps)| ==> Runs(c, m, steps)[i].period <= longest
    ensures |Statistics.Directory(files, Runs(c, m, steps))| <= longest / 60
  {
    RunsAreWhole(c, m, steps);
    Statistics.DirectoryIsBounded(files, Runs(c, m, steps), longest);
  }

  // ----- Which runs are on disk -----

  lemma AllValidExactly(errors: seq<int>)
    ensures AllValid(errors) <==> forall e :: e in errors ==> 0 <= e <= 100
  {
    if AllValid(errors) {
      forall e | e in errors
        ensures 0 <= e <= 100
      {
        var k :| 0 <= k < |errors| && errors[k] == e;
      }
    } else {
      var k :| 0 <= k < |errors| && !ValidPriority(errors[k]);
      assert errors[k] in errors;
    }
  }

  /** A run whose file could be written: no error out of range, and something to save. */
  predicate IsSaved(step: Step) {
    step.Watching? && Saves(step.watch)
  }

  lemma SavedExactly(step: Step)
    ensures IsSaved(step)
       <==> && step.Watching? && (forall e :: e in step.watch.errors ==> 0 <= e <= 100)
            && step.watch.producedData && step.watch.dataPath && step.watch.text.Some?
  {
    if step.Watching? {
      AllValidExactly(step.watch.errors);
    }
  }

  /** The file of a saved run: its text under its start, with the period of its moment. */
  function FileOf(c: Converters, m: Moment, step: Step): Statistics.Run
    requires IsSaved(step)
  {
    RunOf(c, m.options, step.watch)
  }

  lemma FileExactly(c: Converters, m: Moment, step: Step)
    requires IsSaved(step)
    ensures FileOf(c, m, step)
         == Statistics.Run(step.watch.start, Answer(c, m, Get(GetPeriod)), step.watch.text.value)
  {
  }

  /** One more step changes the slot of its file, if it is a run that is saved, and nothing else. */
  lemma DirectoryStep(c: Converters, m: Moment, steps: seq<Step>, files: map<nat, Statistics.Run>, n: nat)
    requires n < |steps|
    ensures var before := Statistics.Directory(files, Runs(c, m, steps[..n]));
            var after := Statistics.Directory(files, Runs(c, m, steps[..n + 1]));
            if IsSaved(steps[n]) then
              var run := FileOf(c, MomentAfter(c, m, steps[..n]), steps[n]);
              after == before[Statistics.Slot(run) := run]
            else after == before
  {
    assert steps[..n + 1][..n] == steps[..n];
    if IsSaved(steps[n]) {
      Statistics.DirectoryGrows(files, Runs(c, m, steps[..n]), FileOf(c, MomentAfter(c, m, steps[..n]), steps[n]));
    } else {
      assert Runs(c, m, steps[..n]) + [] == Runs(c, m, steps[..n]);
    }
  }

  /** The slot a step writes to, if it is a run that is saved. */
  predicate WritesTo(c: Converters, m: Moment, step: Step, slot: nat) {
    IsSaved(step) && Statistics.Slot(FileOf(c, m, step)) == slot
  }

  /** The disk after the first steps. */
  function DiskAfter(
    c: Converters, m: Moment, steps: seq<Step>, files: map<nat, Statistics.Run>, n: nat): map<nat, Statistics.Run>
    requires n <= |steps|
  {
    Statistics.Directory(files, Runs(c, m, steps[..n]))
  }

  predicate SameAt(a: map<nat, Statistics.Run>, b: map<nat, Statistics.Run>, slot: nat) {
    (slot in a <==> slot in b) && (slot in a ==> a[slot] == b[slot])
  }

  lemma StepLeavesFile(
    c: Converters, m: Moment, steps: seq<Step>, files: map<nat, Statistics.Run>, n: nat, slot: nat)
    requires n < |steps| && !WritesTo(c, MomentAfter(c, m, steps[..n]), steps[n], slot)
    ensures SameAt(DiskAfter(c, m, steps, files, n), DiskAfter(c, m, steps, files, n + 1), slot)
  {
    DirectoryStep(c, m, steps, files, n);
  }

  lemma {:induction false} SameThroughout(disks: seq<map<nat, Statistics.Run>>, slot: nat)
    requires disks != [] && forall j :: 0 <= j < |disks| - 1 ==> SameAt(disks[j], disks[j + 1], slot)
    ensures SameAt(disks[0], disks[|disks| - 1], slot)
    decreases |disks|
  {
    if |disks| > 1 {
      SameThroughout(disks[1..], slot);
    }
  }

  lemma FileStays(
    c: Converters, m: Moment, steps: seq<Step>, files: map<nat, Statistics.Run>, i: nat, slot: nat)
    requires i <= |steps|
    requires forall j :: i <= j < |steps| ==>
               SameAt(DiskAfter(c, m, steps, files, j), DiskAfter(c, m, steps, files, j + 1), slot)
    ensures SameAt(DiskAfter(c, m, steps, files, i), DiskAfter(c, m, steps, files, |steps|), slot)
  {
    var disks := seq(|steps| - i + 1, k requires 0 <= k <= |steps| - i => DiskAfter(c, m, steps, files, i + k));
    SameThroughout(disks, slot);
  }

  /**
    Over any life: a run with priorities all within 0 and 100, with data, a data
    path and a file that could be written is on disk, with its text, under its start
    and the period of its moment, as long as no later such run has its slot.
  */
  lemma RunIsOnDisk(c: Converters, m: Moment, steps: seq<Step>, files: map<nat, Statistics.Run>, i: nat)
    requires i < |steps| && steps[i].Watching? && (forall e :: e in steps[i].watch.errors ==> 0 <= e <= 100)
    requires steps[i].watch.producedData && steps[i].watch.dataPath && steps[i].watch.text.Some?
    ensures var period := Answer(c, MomentAfter(c, m, steps[..i]), Get(GetPeriod));
            var disk := Statistics.Directory(files, Runs(c, m, steps));
            && period > 0
            && var run := Statistics.Run(steps[i].watch.start, period, steps[i].watch.text.value);
               (forall j :: i < j < |steps| ==>
                  !WritesTo(c, MomentAfter(c, m, steps[..j]), steps[j], Statistics.Slot(run))) ==>
                 Statistics.Slot(run) in disk && disk[Statistics.Slot(run)] == run
  {
    SavedExactly(steps[i]);
    var moment := MomentAfter(c, m, steps[..i]);
    FileExactly(c, moment, steps[i]);
    var slot := Statistics.Slot(FileOf(c, moment, steps[i]));
    if forall j :: i < j < |steps| ==> !WritesTo(c, MomentAfter(c, m, steps[..j]), steps[j], slot) {
      DirectoryStep(c, m, steps, files, i);
      forall j | i < j < |steps|
        ensures SameAt(DiskAfter(c, m, steps, files, j), DiskAfter(c, m, steps, files, j + 1), slot)
      {
        StepLeavesFile(c, m, steps, files, j, slot);
      }
      FileStays(c, m, steps, files, i + 1, slot);
      assert steps[..|steps|] == steps;
    }
  }

  /** And every file that was not there at the start is the one of such a run. */
  lemma FileIsOfRun(c: Converters, m: Moment, steps: seq<Step>, files: map<nat, Statistics.Run>, slot: nat)
    returns (i: nat)
    requires var disk := Statistics.Directory(files, Runs(c, m, steps));
             slot in disk && (slot in files ==> disk[slot] != files[slot])
    ensures i < |steps| && steps[i].Watching? && (forall e :: e in steps[i].watch.errors ==> 0 <= e <= 100)
    ensures steps[i].watch.producedData && steps[i].watch.dataPath && steps[i].watch.text.Some?
    ensures var period := Answer(c, MomentAfter(c, m, steps[..i]), Get(GetPeriod));
            && period > 0
            && var run := Statistics.Run(steps[i].watch.start, period, steps[i].watch.text.value);
               Statistics.Slot(run) == slot && Statistics.Directory(files, Runs(c, m, steps))[slot] == run
  {
    assert steps[..|steps|] == steps;
    i := LastWriter(c, m, steps, files, |steps|, slot);
    SavedExactly(steps[i]);
    FileExactly(c, MomentAfter(c, m, steps[..i]), steps[i]);
  }

  lemma {:induction false} LastWriter(
    c: Converters, m: Moment, steps: seq<Step>, files: map<nat, Statistics.Run>, n: nat, slot: nat) returns (i: nat)
    requires n <= |steps|
    requires var disk := Statistics.Directory(files, Runs(c, m, steps[..n]));
             slot in disk && (slot in files ==> disk[slot] != files[slot])
    ensures i < n && WritesTo(c, MomentAfter(c, m, steps[..i]), steps[i], slot)
    ensures Statistics.Directory(files, Runs(c, m, steps[..n]))[slot]
         == FileOf(c, MomentAfter(c, m, steps[..i]), steps[i])
    decreases n
  {
    assert steps[..0] == [];
    DirectoryStep(c, m, steps, files, n - 1);
    if WritesTo(c, MomentAfter(c, m, steps[..n - 1]), steps[n - 1], slot) {
      i := n - 1;
    } else {
      i := LastWriter(c, m, steps, files, n - 1, slot);
    }
  }

  // ----- Which runs are judged -----

  /**
    One more step asks the limiter exactly when it is a run with priorities all
    within 0 and 100, with data and some error, that took at least the settle time;
    it asks with the highest of them, and the thresholds of its moment.
  */
  lemma AttemptsStep(c: Converters, m: Moment, steps: seq<Step>, n: nat)
    requires n < |steps|
    ensures var before, after := Attempts(c, m, steps[..n]), Attempts(c, m, steps[..n + 1]);
            var moment := MomentAfter(c, m, steps[..n]);
            if steps[n].Watching? && (forall e :: e in steps[n].watch.errors ==> 0 <= e <= 100)
               && steps[n].watch.producedData && steps[n].watch.errors != []
               && steps[n].watch.end - steps[n].watch.start >= Answer(c, moment, Get(GetSettleTime)) then
              && |after| == |before| + 1 && after[..|before|] == before
              && after[|before|].now == steps[n].watch.now && after[|before|].written == steps[n].watch.stampWritten
              && after[|before|].thresholds == ReadThresholds(c, moment)
              && (forall e :: e in steps[n].watch.errors ==> e <= after[|before|].priority)
              && after[|before|].priority in steps[n].watch.errors
            else after == before
  {
    assert steps[..n + 1][..n] == steps[..n];
    if steps[n].Watching? {
      var w := steps[n].watch;
      AllValidExactly(w.errors);
      WorstIsMaximum(w.errors);
      if w.errors != [] && AllValid(w.errors) {
        assert w.errors[0] in w.errors;
      }
    }
  }

  /** What these steps add to the runs saved and the decisions made, and the moment they lead to. */
  ghost predicate Lived(
    c: Converters, m: Moment, steps: seq<Step>, now: Moment,
    saved: seq<Statistics.Run>, saved': seq<Statistics.Run>, attempts: seq<Attempt>, attempts': seq<Attempt>)
  {
    && now == MomentAfter(c, m, steps)
    && saved' == saved + Runs(c, m, steps)
    && attempts' == attempts + Attempts(c, m, steps)
  }

  lemma LivedOn(
    c: Converters, m: Moment, steps: seq<Step>, i: nat, now: Moment,
    saved: seq<Statistics.Run>, saved': seq<Statistics.Run>, attempts: seq<Attempt>, attempts': seq<Attempt>)
    requires i < |steps| && Lived(c, m, steps[..i], now, saved, saved', attempts, attempts')
    ensures Lived(c, m, steps[..i + 1], MomentNext(c, now, steps[i]),
              saved, saved' + RunIn(c, now, steps[i]), attempts, attempts' + AttemptIn(c, now, steps[i]))
  {
    assert steps[..i + 1][..i] == steps[..i];
  }

  // ----- The worker -----

  class Worker {
    const firstFiles: map<nat, Statistics.Run>
    const firstStamp: Stamp
    var server: Server
    var files: map<nat, Statistics.Run>
    var stamp: Stamp
    var errorCount: nat
    var maxErrorPriority: int
    ghost var saved: seq<Statistics.Run>
    ghost var attempts: seq<Attempt>

    /** The directory is the ring view of every run saved, the file that of every attempt. */
    ghost predicate Valid()
      reads this, server
    {
      && server.Coherent()
      && files == Statistics.Directory(firstFiles, saved)
      && stamp == StampAfter(firstStamp, attempts)
    }

    /** Starts on the files an earlier process left. */
    constructor (c: Converters, options: Options, files: map<nat, Statistics.Run>, stamp: Stamp)
      ensures Valid() && fresh(server) && server.c == c && server.Now() == Moment(options, false)
      ensures firstFiles == files && firstStamp == stamp && saved == [] && attempts == []
    {
      firstFiles, firstStamp, this.files, this.stamp := files, stamp, files, stamp;
      errorCount, maxErrorPriority := 0, 0;
      saved, attempts := [], [];
      server := new Server(c, options);
    }

    method ClearErrors()
      modifies this`errorCount, this`maxErrorPriority
      ensures errorCount == 0 && maxErrorPriority == 0
    {
      errorCount, maxErrorPriority := 0, 0;
    }

    /** Counts first, and throws on a bad priority afterwards. */
    method AppendError(priority: int) returns (ok: bool)
      modifies this`errorCount, this`maxErrorPriority
      ensures ok <==> ValidPriority(priority)
      ensures errorCount == old(errorCount) + 1
      ensures maxErrorPriority == Max(old(maxErrorPriority), priority)
    {
      if priority > maxErrorPriority {
        maxErrorPriority := priority;
      }
      errorCount := errorCount + 1;
      return 0 <= priority <= 100;
    }

    /** The plugins run after `clear_errors`; the first bad priority ends the run. */
    method ProcessWatch(errors: seq<int>) returns (ok: bool)
      requires errorCount == 0 && maxErrorPriority == 0
      modifies this`errorCount, this`maxErrorPriority
      ensures ok <==> AllValid(errors)
      ensures ok ==> errorCount == |errors| && maxErrorPriority == Worst(errors)
    {
      for i := 0 to |errors|
        invariant AllValid(errors[..i])
        invariant errorCount == i && maxErrorPriority == Worst(errors[..i])
      {
        assert errors[..i + 1][..i] == errors[..i];
        ok := AppendError(errors[i]);
        if !ok { return; }
      }
      assert errors[..|errors|] == errors;
      ok := true;
    }

    method GetPeriod() returns (period: Statistics.Period)
      requires server.Coherent()
      modifies server
      ensures server.Coherent() && server.Now() == old(server.Now())
      ensures period == RingPeriod(server.c, server.options)
    {
      SettingsAreBounded(server.c, server.options);
      period := server.Call(Getter.GetPeriod);
    }

    /** Saves one run under its slot, when the file can be written. */
    method Save(w: Watch)
      requires Valid() && AllValid(w.errors) && w.producedData && w.dataPath
      modifies this`files, this`saved, server
      ensures Valid() && server.Now() == old(server.Now())
      ensures saved == old(saved) + if Saves(w) then [RunOf(server.c, server.options, w)] else []
    {
      var period := GetPeriod();
      var date := Statistics.Date(w.start, period);
      if w.text.Some? {
        var run := Statistics.Run(w.start, period, w.text.value);
        Statistics.DirectoryGrows(firstFiles, saved, run);
        files := files[date := run];
        saved := saved + [run];
      }
    }

    /** Asks the server for the span of a priority; `worth` when it is not too low for a report. */
    method SpanFor(priority: int) returns (worth: bool, span: int)
      requires server.Coherent()
      modifies server
      ensures server.Coherent() && server.options == old(server.options)
      ensures worth <==> priority >= ReadThresholds(server.c, old(server.Now())).low
      ensures worth ==> span == Span(ReadThresholds(server.c, old(server.Now())), priority)
      ensures server.Now().known <==> old(server.Now()).known || worth
    {
      var low := server.Call(GetLowPriority);
      if priority < low { return false, 0; }
      span := server.Call(GetLowSpan);
      var critical := server.Call(GetCriticalPriority);
      if priority >= critical {
        span := server.Call(GetCriticalSpan);
      } else {
        var medium := server.Call(GetMediumPriority);
        if priority >= medium {
          span := server.Call(GetMediumSpan);
        }
      }
      worth := true;
    }

    /** The limiter: decides, then stamps the file before anything is sent. */
    method ReportError(w: Watch) returns (verdict: Verdict, sent: bool)
      requires Valid() && maxErrorPriority == Worst(w.errors)
      modifies this`stamp, this`attempts, server
      ensures Valid() && attempts == old(attempts) + [AttemptOf(server.c, old(server.Now()), w)]
      ensures server.options == old(server.options)
      ensures server.Now().known
         <==> old(server.Now()).known || Worst(w.errors) >= ReadThresholds(server.c, old(server.Now())).low
      ensures verdict == Judge(old(stamp), AttemptOf(server.c, old(server.Now()), w))
      ensures sent <==> verdict == Due && w.addresses
    {
      attempts := attempts + [AttemptOf(server.c, server.Now(), w)];
      assert attempts[..|attempts| - 1] == old(attempts);
      var worth, span := SpanFor(maxErrorPriority);
      if !worth { return TooLow, false; }
      if stamp.At? && w.now - stamp.time < span { return TooSoon, false; }
      if w.stampWritten { stamp := At(w.now); }
      return Due, w.addresses;
    }

    method GetSettleTime() returns (settleTime: int)
      requires server.Coherent()
      modifies server
      ensures server.Coherent() && server.Now() == old(server.Now())
      ensures settleTime == SettleTimeOf(server.c, server.options)
    {
      settleTime := server.Call(Getter.GetSettleTime);
    }

    /** Looks at the settle time, then leaves it to the limiter. */
    method ConsiderReport(w: Watch) returns (outcome: Outcome)
      requires Valid() && AllValid(w.errors) && w.producedData && |w.errors| > 0 && maxErrorPriority == Worst(w.errors)
      modifies this`stamp, this`attempts, server
      ensures Valid() && server.Now() == MomentNext(server.c, old(server.Now()), Watching(w))
      ensures attempts == old(attempts) + AttemptIn(server.c, old(server.Now()), Watching(w))
      ensures if IsJudged(server.c, old(server.options), w) then
                && outcome.Judged? && outcome.verdict == Judge(old(stamp), AttemptOf(server.c, old(server.Now()), w))
                && (outcome.sent <==> outcome.verdict == Due && w.addresses)
              else
                outcome == Quiet
    {
      var settleTime := GetSettleTime();
      if w.end - w.start < settleTime { return Quiet; }
      var verdict, sent := ReportError(w);
      outcome := Judged(verdict, sent);
    }

    method Run(w: Watch) returns (outcome: Outcome)
      requires Valid()
      modifies this, server
      ensures Valid() && server == old(server)
      ensures server.Now() == MomentNext(server.c, old(server.Now()), Watching(w))
      ensures saved == old(saved) + RunIn(server.c, old(server.Now()), Watching(w))
      ensures attempts == old(attempts) + AttemptIn(server.c, old(server.Now()), Watching(w))
      ensures outcome == Threw <==> !AllValid(w.errors)
      ensures outcome == Empty <==> AllValid(w.errors) && !w.producedData
      ensures outcome.Judged? <==> IsJudged(server.c, old(server.options), w)
      ensures outcome.Judged? ==>
                && outcome.verdict == Judge(old(stamp), AttemptOf(server.c, old(server.Now()), w))
                && (outcome.sent <==> outcome.verdict == Due && w.addresses)
    {
      ClearErrors();
      var ok := ProcessWatch(w.errors);
      if !ok { return Threw; }
      if !w.producedData { return Empty; }
      if w.dataPath { Save(w); }
      outcome := Quiet;
      if errorCount > 0 { outcome := ConsiderReport(w); }
    }

    /** A new process: the memory of the server is lost, the files stay. */
    method Restart(options: Options)
      requires Valid()
      modifies this`server, this`errorCount, this`maxErrorPriority
      ensures Valid() && fresh(server) && server.c == old(server.c)
      ensures server.Now() == Moment(options, false)
    {
      errorCount, maxErrorPriority := 0, 0;
      server := new Server(server.c, options);
    }

    /** One step of the service. */
    method Take(step: Step)
      requires Valid()
      modifies this, server
      ensures Valid() && (server == old(server) || fresh(server)) && server.c == old(server.c)
      ensures server.Now() == MomentNext(server.c, old(server.Now()), step)
      ensures saved == old(saved) + RunIn(server.c, old(server.Now()), step)
      ensures attempts == old(attempts) + AttemptIn(server.c, old(server.Now()), step)
    {
      match step
      case Watching(w) => var _ := Run(w);
      case Requested(request) => var _ := server.Handle(request);
      case Restarted(options) => Restart(options);
    }

    /** Any sequence of runs, requests and restarts. */
    method Live(steps: seq<Step>)
      requires Valid()
      modifies this, server
      ensures Valid() && (server == old(server) || fresh(server)) && server.c == old(server.c)
      ensures server.Now() == MomentAfter(server.c, old(server.Now()), steps)
      ensures saved == old(saved) + Runs(server.c, old(server.Now()), steps)
      ensures attempts == old(attempts) + Attempts(server.c, old(server.Now()), steps)
    {
      ghost var c, m := server.c, server.Now();
      for i := 0 to |steps|
        invariant Valid() && (server == old(server) || fresh(server)) && server.c == c
        invariant Lived(c, m, steps[..i], server.Now(), old(saved), saved, old(attempts), attempts)
      {
        LivedOn(c, m, steps, i, server.Now(), old(saved), saved, old(attempts), attempts);
        Take(steps[i]);
      }
      assert steps[..|steps|] == steps;
    }
  }
}
