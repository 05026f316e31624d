/**
  Error counting and the email limiter: which runs are worth a report, and how
  far apart reports are over the whole life of the service, restarts included.
*/
module ErrorReport {

  // ----- Counting the errors of one run -----

  /** Every other priority makes `append_error` throw. */
  predicate ValidPriority(priority: int) {
    0 <= priority <= 100
  }

  /** The highest priority appended; zero when there is none above zero. */
  function Worst(priorities: seq<int>): (worst: int) {
    if priorities == [] then 0
    else
      var last, rest := priorities[|priorities| - 1], Worst(priorities[..|priorities| - 1]);
      if last > rest then last else rest
  }

  lemma {:induction false} WorstIsMaximum(priorities: seq<int>)
    ensures Worst(priorities) >= 0
    ensures forall p :: p in priorities ==> p <= Worst(priorities)
    ensures Worst(priorities) == 0 || Worst(priorities) in priorities
  {
    if priorities != [] {
      var last := |priorities| - 1;
      WorstIsMaximum(priorities[..last]);
      assert priorities == priorities[..last] + [priorities[last]];
    }
  }

  /** The order in which plugins report does not matter. */
  lemma WorstIgnoresOrder(one: seq<int>, two: seq<int>)
    requires multiset(one) == multiset(two)
    ensures Worst(one) == Worst(two) && |one| == |two|
  {
    WorstIsMaximum(one);
    WorstIsMaximum(two);
    assert forall p :: p in one <==> p in multiset(one);
    assert forall p :: p in two <==> p in multiset(two);
    assert |one| == |multiset(one)|;
  }

  // ----- One decision -----

  datatype Thresholds = Thresholds(
    low: int, medium: int, critical: int,
    lowSpan: int, mediumSpan: int, criticalSpan: int)

  /** What the last-email file holds. */
  datatype Stamp = NoFile | NotANumber | At(time: int)

  datatype Verdict = TooLow | TooSoon | Due

  function Span(t: Thresholds, priority: int): int {
    if priority >= t.critical then t.criticalSpan
    else if priority >= t.medium then t.mediumSpan
    else t.lowSpan
  }

  function Decide(t: Thresholds, stamp: Stamp, now: int, priority: int): Verdict {
    if priority < t.low then TooLow
    else if stamp.At? && now - stamp.time < Span(t, priority) then TooSoon
    else Due
  }

  // ----- Raising the priority of an error -----

  /** A worse error is never held back where a milder one is reported. */
  ghost predicate Monotone(t: Thresholds) {
    forall stamp, now, p, q ::
      0 <= p <= q <= 100 && Decide(t, stamp, now, p) == Due ==> Decide(t, stamp, now, q) == Due
  }

  /** Spans do not grow from one class to the next, among the classes a priority can fall in. */
  predicate SpansOrdered(t: Thresholds) {
    t.critical > t.low ==>
      && (t.low < t.medium < t.critical ==> t.lowSpan >= t.mediumSpan)
      && (t.medium < t.critical ==> t.mediumSpan >= t.criticalSpan)
      && (t.medium >= t.critical ==> t.lowSpan >= t.criticalSpan)
  }

  lemma SpanFalls(t: Thresholds, p: int, q: int)
    requires SpansOrdered(t) && t.low <= p <= q
    ensures Span(t, q) <= Span(t, p)
  {
  }

  /** With a stamp one second short of the longer span, a longer span for a worse error shows. */
  lemma LongerSpanShows(t: Thresholds, p: int, q: int)
    requires t.low <= p <= q <= 100 && 0 <= p && Span(t, p) < Span(t, q)
    ensures !Monotone(t)
  {
    assert Decide(t, At(0), Span(t, p), p) == Due;
    assert Decide(t, At(0), Span(t, p), q) == TooSoon;
  }

  /** Exactly which settings make the limiter monotone. */
  lemma MonotoneExactly(t: Thresholds)
    requires 0 <= t.low && t.critical <= 100
    ensures Monotone(t) <==> SpansOrdered(t)
  {
    if SpansOrdered(t) {
      forall stamp, now, p, q | 0 <= p <= q <= 100 && Decide(t, stamp, now, p) == Due
        ensures Decide(t, stamp, now, q) == Due
      {
        SpanFalls(t, p, q);
      }
    } else {
      if t.low < t.medium < t.critical && t.lowSpan < t.mediumSpan {
        LongerSpanShows(t, t.low, t.medium);
      } else if t.medium < t.critical && t.mediumSpan < t.criticalSpan {
        LongerSpanShows(t, t.critical - 1, t.critical);
      } else {
        LongerSpanShows(t, t.low, t.critical);
      }
    }
  }

  /** The ordering `init_parameters` used to insist on is enough. */
  predicate Ordered(t: Thresholds) {
    && t.low <= t.medium <= t.critical
    && t.lowSpan >= t.mediumSpan >= t.criticalSpan
  }

  lemma OrderedIsEnough(t: Thresholds)
    requires Ordered(t) && 0 <= t.low && t.critical <= 100
    ensures Monotone(t)
  {
    MonotoneExactly(t);
  }

  // ----- A whole life of decisions -----

  predicate Clamped(t: Thresholds) {
    t.lowSpan >= 86400 && t.mediumSpan >= 3600 && t.criticalSpan >= 300
  }

  /** One run with errors, under the settings of that moment. */
  datatype Attempt = Attempt(now: int, priority: int, thresholds: Thresholds, written: bool)

  function Judge(stamp: Stamp, a: Attempt): Verdict {
    Decide(a.thresholds, stamp, a.now, a.priority)
  }

  /** The file after one attempt; `written` says whether the new stamp reached the disk. */
  function Next(stamp: Stamp, a: Attempt): Stamp {
    if Judge(stamp, a) == Due && a.written then At(a.now) else stamp
  }

  function StampAfter(stamp: Stamp, attempts: seq<Attempt>): Stamp {
    if attempts == [] then stamp
    else Next(StampAfter(stamp, attempts[..|attempts| - 1]), attempts[|attempts| - 1])
  }

  predicate IsDue(stamp: Stamp, attempts: seq<Attempt>, i: nat)
    requires i < |attempts|
  {
    Judge(StampAfter(stamp, attempts[..i]), attempts[i]) == Due
  }

  /** The clock does not go back, and the getters clamped the spans. */
  ghost predicate Regular(attempts: seq<Attempt>) {
    && (forall i, j :: 0 <= i <= j < |attempts| ==> attempts[i].now <= attempts[j].now)
    && (forall i :: 0 <= i < |attempts| ==> Clamped(attempts[i].thresholds))
  }

  ghost predicate AllWritten(attempts: seq<Attempt>) {
    forall i :: 0 <= i < |attempts| ==> attempts[i].written
  }

  lemma StampStep(stamp: Stamp, attempts: seq<Attempt>, i: nat)
    requires i < |attempts|
    ensures StampAfter(stamp, attempts[..i + 1]) == Next(StampAfter(stamp, attempts[..i]), attempts[i])
  {
    assert attempts[..i + 1][..i] == attempts[..i];
  }

  /** Once a report was due and stamped, the file holds the time of one no older. */
  lemma {:induction false} StampIsRecent(stamp: Stamp, attempts: seq<Attempt>, i: nat, j: nat)
    requires Regular(attempts) && i < j <= |attempts| && IsDue(stamp, attempts, i) && attempts[i].written
    ensures var s := StampAfter(stamp, attempts[..j]);
            s.At? && attempts[i].now <= s.time <= attempts[j - 1].now
    decreases j
  {
    StampStep(stamp, attempts, j - 1);
    if i + 1 < j {
      StampIsRecent(stamp, attempts, i, j - 1);
    }
  }

  /**
    Two reports are at least the span of the later one apart, and so at least five
    minutes, as long as the stamp of the earlier one was written.
  */
  lemma ReportsAreSpaced(stamp: Stamp, attempts: seq<Attempt>, i: nat, j: nat)
    requires Regular(attempts) && i < j < |attempts|
    requires IsDue(stamp, attempts, i) && IsDue(stamp, attempts, j) && attempts[i].written
    ensures attempts[j].now - attempts[i].now >= Span(attempts[j].thresholds, attempts[j].priority) >= 300
  {
    StampIsRecent(stamp, attempts, i, j);
  }

  /** Where the stamp comes from: the last report due that was written, or the start. */
  lemma {:induction false} StampOrigin(stamp: Stamp, attempts: seq<Attempt>, j: nat) returns (i: int)
    requires j <= |attempts|
    ensures -1 <= i < j
    ensures if i == -1 then StampAfter(stamp, attempts[..j]) == stamp
            else IsDue(stamp, attempts, i) && attempts[i].written
                 && StampAfter(stamp, attempts[..j]) == At(attempts[i].now)
    ensures forall k :: i < k < j ==> !(IsDue(stamp, attempts, k) && attempts[k].written)
  {
    if j == 0 {
      i := -1;
    } else {
      StampStep(stamp, attempts, j - 1);
      if IsDue(stamp, attempts, j - 1) && attempts[j - 1].written {
        i := j - 1;
      } else {
        i := StampOrigin(stamp, attempts, j - 1);
      }
    }
  }

  /** The span of attempt `j` has passed since a moment. */
  predicate Waited(attempts: seq<Attempt>, j: nat, since: int)
    requires j < |attempts|
  {
    attempts[j].now - since >= Span(attempts[j].thresholds, attempts[j].priority)
  }

  /**
    Exactly which attempts are due: those of a priority worth a report whose span
    has passed since the stamp left by an earlier process, and since every earlier
    report of which the stamp was written.
  */
  lemma {:induction false} DueExactly(stamp: Stamp, attempts: seq<Attempt>, j: nat)
    requires Regular(attempts) && j < |attempts|
    ensures IsDue(stamp, attempts, j)
       <==> && attempts[j].priority >= attempts[j].thresholds.low
            && (stamp.At? ==> Waited(attempts, j, stamp.time))
            && forall i :: 0 <= i < j && IsDue(stamp, attempts, i) && attempts[i].written ==>
                 Waited(attempts, j, attempts[i].now)
  {
    var i := StampOrigin(stamp, attempts, j);
    if i >= 0 {
      DueExactly(stamp, attempts, i);
      assert attempts[i].now <= attempts[j].now;
    }
  }

  /** A stamp left by an earlier process delays the first report as well. */
  lemma OldStampDelays(stamp: Stamp, attempts: seq<Attempt>, j: nat)
    requires Regular(attempts) && j < |attempts| && IsDue(stamp, attempts, j)
    requires stamp.At? && stamp.time <= attempts[0].now
    ensures attempts[j].now - stamp.time >= Span(attempts[j].thresholds, attempts[j].priority)
  {
    OldStampStays(stamp, attempts, j);
  }

  lemma {:induction false} OldStampStays(stamp: Stamp, attempts: seq<Attempt>, j: nat)
    requires Regular(attempts) && j < |attempts| && stamp.At? && stamp.time <= attempts[0].now
    ensures StampAfter(stamp, attempts[..j]).At?
    ensures stamp.time <= StampAfter(stamp, attempts[..j]).time
  {
    if j > 0 {
      OldStampStays(stamp, attempts, j - 1);
      StampStep(stamp, attempts, j - 1);
    }
  }

  /** The reports due among the first attempts, in a window of time. */
  function DueWithin(stamp: Stamp, attempts: seq<Attempt>, n: nat, from: int, to: int): nat
    requires n <= |attempts|
  {
    if n == 0 then 0
    else
      DueWithin(stamp, attempts, n - 1, from, to)
      + if IsDue(stamp, attempts, n - 1) && from <= attempts[n - 1].now <= to then 1 else 0
  }

  /** The last of `count` reports in a window is at least `300 * (count - 1)` seconds into it. */
  lemma {:induction false} LastIsLate(stamp: Stamp, attempts: seq<Attempt>, n: nat, from: int, to: int)
    returns (last: nat)
    requires Regular(attempts) && AllWritten(attempts) && n <= |attempts| && DueWithin(stamp, attempts, n, from, to) > 0
    ensures last < n && IsDue(stamp, attempts, last) && from <= attempts[last].now <= to
    ensures attempts[last].now - from >= 300 * (DueWithin(stamp, attempts, n, from, to) - 1)
  {
    if IsDue(stamp, attempts, n - 1) && from <= attempts[n - 1].now <= to {
      last := n - 1;
      if DueWithin(stamp, attempts, n - 1, from, to) > 0 {
        var previous := LastIsLate(stamp, attempts, n - 1, from, to);
        ReportsAreSpaced(stamp, attempts, previous, last);
      }
    } else {
      last := LastIsLate(stamp, attempts, n - 1, from, to);
    }
  }

  /** A window of time holds at most one report per five minutes, and one more. */
  lemma WindowIsBounded(stamp: Stamp, attempts: seq<Attempt>, from: int, to: int)
    requires Regular(attempts) && AllWritten(attempts) && from <= to
    ensures DueWithin(stamp, attempts, |attempts|, from, to) <= (to - from) / 300 + 1
  {
    if DueWithin(stamp, attempts, |attempts|, from, to) > 0 {
      var last := LastIsLate(stamp, attempts, |attempts|, from, to);
    }
  }

  /** It is the written stamp alone that holds the same report back at once, */
  lemma StampIsWhatDelays(stamp: Stamp, a: Attempt)
    requires Judge(stamp, a) == Due && Clamped(a.thresholds)
    ensures IsDue(stamp, [a, a], 0) && (IsDue(stamp, [a, a], 1) <==> !a.written)
  {
    assert [a, a][..1] == [a] && [a][..0] == [] && [a, a][..0] == [];
  }

  /** as here, where two reports follow each other in the same second. */
  lemma UnwrittenStampDoesNotDelay()
    ensures var a := Attempt(1000, 95, Thresholds(10, 50, 90, 604800, 259200, 86400), false);
            IsDue(NoFile, [a, a], 0) && IsDue(NoFile, [a, a], 1)
  {
    StampIsWhatDelays(NoFile, Attempt(1000, 95, Thresholds(10, 50, 90, 604800, 259200, 86400), false));
  }
}
