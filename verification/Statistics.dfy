/**
  The ring of statistics files. A run is saved under its start minute modulo the
  period, so the directory is a fixed-size view of an unbounded log of runs.
*/
module Statistics {

  /** A period of the ring, in seconds. */
  type Period = p: int | p > 0 witness 3600

  /** A saved run, and the period in force when it was saved. */
  datatype Run = Run(start: nat, period: Period, content: string)

  /** The start of a run, rounded down to the minute. */
  function Minute(start: nat): nat {
    start / 60 * 60
  }

  /** The number in the name of the file a run is saved to. */
  function Slot(run: Run): (slot: nat)
    ensures slot < run.period
  {
    Minute(run.start) % run.period
  }

  /** The same, as it is computed before there is anything to save. */
  method Date(start: nat, period: Period) returns (date: nat)
    ensures forall content :: date == Slot(Run(start, period, content))
  {
    date := start / 60 * 60 % period;
  }

  /** The directory after the runs of a log were saved one after the other, on top of older files. */
  function Directory(files: map<nat, Run>, log: seq<Run>): map<nat, Run> {
    if log == [] then files
    else
      var last := log[|log| - 1];
      Directory(files, log[..|log| - 1])[Slot(last) := last]
  }

  lemma DirectoryGrows(files: map<nat, Run>, log: seq<Run>, run: Run)
    ensures Directory(files, log + [run]) == Directory(files, log)[Slot(run) := run]
  {
    assert (log + [run])[..|log|] == log;
  }

  /** No later run was saved over run `i`. */
  ghost predicate Kept(log: seq<Run>, i: nat)
    requires i < |log|
  {
    forall j :: i < j < |log| ==> Slot(log[j]) != Slot(log[i])
  }

  lemma KeptBefore(log: seq<Run>, i: nat)
    requires i < |log| - 1
    ensures Kept(log, i) <==> Kept(log[..|log| - 1], i) && Slot(log[|log| - 1]) != Slot(log[i])
  {
    var before := log[..|log| - 1];
    if Kept(before, i) && Slot(log[|log| - 1]) != Slot(log[i]) {
      forall j | i < j < |log|
        ensures Slot(log[j]) != Slot(log[i])
      {
        assert j < |before| ==> before[j] == log[j];
      }
    }
    if Kept(log, i) {
      assert forall j :: i < j < |before| ==> before[j] == log[j];
    }
  }

  /** A run that was not saved over is on disk. */
  lemma {:induction false} KeptIsOnDisk(files: map<nat, Run>, log: seq<Run>, i: nat)
    requires i < |log| && Kept(log, i)
    ensures Slot(log[i]) in Directory(files, log) && Directory(files, log)[Slot(log[i])] == log[i]
    decreases |log|
  {
    if i < |log| - 1 {
      KeptBefore(log, i);
      KeptIsOnDisk(files, log[..|log| - 1], i);
    }
  }

  /** Every file on disk is a run that was not saved over, or an older file no run was saved over. */
  lemma {:induction false} OnDiskIsKept(files: map<nat, Run>, log: seq<Run>, slot: nat) returns (i: nat)
    requires slot in Directory(files, log)
    ensures i <= |log|
    ensures i < |log| ==> Kept(log, i) && Slot(log[i]) == slot && Directory(files, log)[slot] == log[i]
    ensures i == |log| ==> slot in files && Directory(files, log)[slot] == files[slot]
    ensures i == |log| ==> forall j :: 0 <= j < |log| ==> Slot(log[j]) != slot
    decreases |log|
  {
    if log == [] {
      i := 0;
    } else {
      var last := |log| - 1;
      if Slot(log[last]) == slot {
        i := last;
      } else {
        i := OnDiskIsKept(files, log[..last], slot);
        if i < last {
          KeptBefore(log, i);
        } else {
          i := |log|;
          assert forall j :: 0 <= j < last ==> log[..last][j] == log[j];
        }
      }
    }
  }

  // ----- Which runs share a file -----

  lemma SameRemainder(a: int, b: int, m: int)
    requires m > 0
    ensures a % m == b % m <==> (b - a) % m == 0
  {
    var qa, qb := a / m, b / m;
    assert a == m * qa + a % m && b == m * qb + b % m;
    var d := b % m - a % m;
    assert b - a == m * (qb - qa) + d;
    if d == 0 {
      MultipleHasNoRemainder(qb - qa, m);
    }
    if (b - a) % m == 0 {
      var q := (b - a) / m;
      assert d == m * (q - (qb - qa));
      OnlyMultipleBelow(q - (qb - qa), m, d);
    }
  }

  lemma MultipleHasNoRemainder(q: int, m: int)
    requires m > 0
    ensures (m * q) % m == 0
  {
    var r := (m * q) % m;
    assert m * q == m * ((m * q) / m) + r;
    OnlyMultipleBelow(q - (m * q) / m, m, r);
  }

  lemma OnlyMultipleBelow(q: int, m: int, d: int)
    requires m > 0 && d == m * q && -m < d < m
    ensures d == 0
  {
    assert q >= 1 ==> m * q >= m;
    assert q <= -1 ==> m * q <= -m;
  }

  lemma LessThanPeriod(d: int, period: int)
    requires 0 < d < period
    ensures d % period == d
  {
  }

  /** The minute of a start is the last whole one before it. */
  lemma MinuteIsAMinute(start: nat)
    ensures Minute(start) % 60 == 0 && Minute(start) <= start < Minute(start) + 60
    ensures Minute(start) == 60 * (start / 60)
  {
  }

  lemma RemainderExactly(a: int, x: int, m: int)
    requires m > 0
    ensures x == a % m <==> 0 <= x < m && (a - x) % m == 0
  {
    SameRemainder(x, a, m);
    if 0 < x < m {
      LessThanPeriod(x, m);
    }
  }

  /** The slot is the one number below the period that differs from the minute by whole periods. */
  lemma SlotExactly(run: Run, x: nat)
    ensures x == Slot(run) <==> x < run.period && (run.start - run.start % 60 - x) % run.period == 0
  {
    var minute := Minute(run.start);
    assert minute == run.start - run.start % 60;
    RemainderExactly(minute, x, run.period);
  }

  /** Minutes that differ by `d` differ by whole periods when `d` is whole periods of minutes. */
  lemma MinutesInPeriods(d: int, minutes: int)
    requires minutes > 0
    ensures (60 * d) % (60 * minutes) == 0 <==> d % minutes == 0
  {
    if d % minutes == 0 {
      var q := d / minutes;
      assert 60 * d == 60 * minutes * q;
      MultipleHasNoRemainder(q, 60 * minutes);
    }
    if (60 * d) % (60 * minutes) == 0 {
      var q := 60 * d / (60 * minutes);
      assert 60 * d == 60 * minutes * q;
      assert d == minutes * q;
      MultipleHasNoRemainder(q, minutes);
    }
  }

  /** Two runs share a file exactly when the minutes they start in are whole periods apart. */
  lemma SharedFileExactly(a: Run, b: Run)
    requires a.period == b.period && a.period % 60 == 0
    ensures Slot(a) == Slot(b) <==> (b.start / 60 - a.start / 60) % (a.period / 60) == 0
  {
    MinuteIsAMinute(a.start);
    MinuteIsAMinute(b.start);
    SameRemainder(Minute(a.start), Minute(b.start), a.period);
    MinutesInPeriods(b.start / 60 - a.start / 60, a.period / 60);
    assert a.period == 60 * (a.period / 60);
    assert Minute(b.start) - Minute(a.start) == 60 * (b.start / 60 - a.start / 60);
  }

  /**
    Exactly when a run survives, while the period stays as it is: no later run
    starts in its minute, or a whole number of periods of minutes before or after it.
  */
  lemma RetentionExactly(log: seq<Run>, i: nat)
    requires i < |log| && log[i].period % 60 == 0
    requires forall j :: i < j < |log| ==> log[j].period == log[i].period
    ensures Kept(log, i)
       <==> forall j :: i < j < |log| ==> (log[j].start / 60 - log[i].start / 60) % (log[i].period / 60) != 0
  {
    forall j | i < j < |log|
      ensures Slot(log[j]) == Slot(log[i]) <==> (log[j].start / 60 - log[i].start / 60) % (log[i].period / 60) == 0
    {
      SharedFileExactly(log[i], log[j]);
    }
  }

  /**
    A run stays on disk until a later one starts in the same minute of the clock,
    or no earlier than a period less 59 seconds after it.
  */
  lemma RetainedForAPeriod(files: map<nat, Run>, log: seq<Run>, i: nat)
    requires i < |log| && log[i].period % 60 == 0
    requires forall j :: i < j < |log| ==>
               && log[j].period == log[i].period
               && log[i].start <= log[j].start < log[i].start + log[i].period - 59
               && log[j].start / 60 != log[i].start / 60
    ensures Slot(log[i]) in Directory(files, log) && Directory(files, log)[Slot(log[i])] == log[i]
  {
    forall j | i < j < |log|
      ensures (log[j].start / 60 - log[i].start / 60) % (log[i].period / 60) != 0
    {
      MinutesApart(log[i].start, log[j].start, log[i].period);
      LessThanPeriod(log[j].start / 60 - log[i].start / 60, log[i].period / 60);
    }
    RetentionExactly(log, i);
    KeptIsOnDisk(files, log, i);
  }

  lemma MinutesApart(a: nat, b: nat, period: Period)
    requires period % 60 == 0 && a <= b < a + period - 59 && b / 60 != a / 60
    ensures 0 < b / 60 - a / 60 < period / 60
  {
  }

  /** With a period of whole minutes, every slot is a whole minute. */
  lemma SlotIsAMinute(run: Run)
    requires run.period % 60 == 0
    ensures Slot(run) % 60 == 0
  {
    var a := Minute(run.start);
    var q := a / run.period;
    assert Slot(run) == a - run.period * q;
    assert run.period == 60 * (run.period / 60);
    assert a == 60 * (run.start / 60);
    assert Slot(run) == 60 * (run.start / 60 - run.period / 60 * q);
    MultipleHasNoRemainder(run.start / 60 - run.period / 60 * q, 60);
  }

  // ----- The size of the directory -----

  lemma {:induction false} MultiplesBelow(slots: set<nat>, n: nat)
    requires forall s :: s in slots ==> s % 60 == 0 && s < 60 * n
    ensures |slots| <= n
    decreases n
  {
    if n == 0 {
      assert slots == {};
    } else {
      var top := 60 * (n - 1);
      MultiplesBelow(slots - {top}, n - 1);
      assert slots <= (slots - {top}) + {top};
      if top in slots {
        assert slots == (slots - {top}) + {top};
      } else {
        assert slots == slots - {top};
      }
    }
  }

  /** Files named after whole minutes below `longest`. */
  predicate WholeMinutes(files: map<nat, Run>, longest: Period) {
    forall slot :: slot in files ==> slot % 60 == 0 && slot < longest
  }

  /** However the period changes, there are never more files than minutes in the longest one. */
  lemma DirectoryIsBounded(files: map<nat, Run>, log: seq<Run>, longest: Period)
    requires longest % 60 == 0 && WholeMinutes(files, longest)
    requires forall i :: 0 <= i < |log| ==> log[i].period % 60 == 0 && log[i].period <= longest
    ensures |Directory(files, log)| <= longest / 60
  {
    forall slot | slot in Directory(files, log)
      ensures slot % 60 == 0 && slot < longest
    {
      var i := OnDiskIsKept(files, log, slot);
      if i < |log| {
        SlotIsAMinute(log[i]);
      }
    }
    MultiplesBelow(Directory(files, log).Keys, longest / 60);
  }
}
