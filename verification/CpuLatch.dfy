/**
  The high CPU alarm: a file remembers since when the load is high, and a load
  that stays high for more than 15 minutes turns the warning into an error.
*/
module CpuLatch {

  /** The file `high_cpu_usage.txt`. */
  datatype Latch = NoFile | NotANumber | Since(time: int)

  /** One sample, and whether creating or removing the file would succeed then. */
  datatype Sample = Sample(time: int, load: real, created: bool, removed: bool)

  datatype Verdict = Calm | Warning | Error    // an error has priority 100

  const LIMIT := 15 * 60

  /** The one-minute load from which the machine counts as overloaded. */
  function Threshold(cpus: nat): real
    requires cpus > 0
  {
    if cpus == 1 then 1.0 else if cpus == 2 then 2.0 * 0.95 else cpus as real * 0.8
  }

  predicate High(cpus: nat, s: Sample)
    requires cpus > 0
  {
    s.load >= Threshold(cpus)
  }

  /** The limit is 1.0 for one processor, 1.9 for two, and 0.8 each for more. */
  lemma HighExactly(cpus: nat, s: Sample)
    requires cpus > 0
    ensures High(cpus, s)
       <==> if cpus == 1 then s.load >= 1.0
            else if cpus == 2 then 10.0 * s.load >= 19.0
            else 5.0 * s.load >= 4.0 * cpus as real
  {
  }

  // ----- One sample -----

  function Next(cpus: nat, latch: Latch, s: Sample): Latch
    requires cpus > 0
  {
    if !High(cpus, s) then
      if s.removed then NoFile else latch
    else if latch == NoFile && s.created then Since(s.time)
    else latch
  }

  function Judge(cpus: nat, latch: Latch, s: Sample): Verdict
    requires cpus > 0
  {
    if !High(cpus, s) then Calm
    else if latch.Since? && s.time - latch.time > LIMIT then Error
    else Warning
  }

  function LatchAfter(cpus: nat, first: Latch, samples: seq<Sample>): Latch
    requires cpus > 0
  {
    if samples == [] then first
    else Next(cpus, LatchAfter(cpus, first, samples[..|samples| - 1]), samples[|samples| - 1])
  }

  // ----- Any number of samples -----

  predicate Removes(cpus: nat, s: Sample)
    requires cpus > 0
  {
    !High(cpus, s) && s.removed
  }

  predicate Creates(cpus: nat, s: Sample)
    requires cpus > 0
  {
    High(cpus, s) && s.created
  }

  /** Where the samples after the last removal of the file before `k` begin. */
  function EpochStart(cpus: nat, samples: seq<Sample>, k: nat): (start: nat)
    requires cpus > 0 && k <= |samples|
    ensures start <= k
    ensures forall i :: start <= i < k ==> !Removes(cpus, samples[i])
    ensures start > 0 ==> Removes(cpus, samples[start - 1])
  {
    if k == 0 || Removes(cpus, samples[k - 1]) then k else EpochStart(cpus, samples, k - 1)
  }

  /** The first sample from `start` on, before `k`, that can create the file; `k` when none can. */
  function Creator(cpus: nat, samples: seq<Sample>, start: nat, k: nat): (i: nat)
    requires cpus > 0 && start <= k <= |samples|
    ensures start <= i <= k
    ensures i < k ==> Creates(cpus, samples[i])
    ensures forall j :: start <= j < i ==> !Creates(cpus, samples[j])
    decreases k - start
  {
    if start == k || Creates(cpus, samples[start]) then start else Creator(cpus, samples, start + 1, k)
  }

  /**
    What the file says before sample `k`, read off the samples: the time of the
    first one that could create it since it was last removed, unless it was there
    from the beginning.
  */
  function Origin(cpus: nat, first: Latch, samples: seq<Sample>, k: nat): Latch
    requires cpus > 0 && k <= |samples|
  {
    var start := EpochStart(cpus, samples, k);
    var i := Creator(cpus, samples, start, k);
    if start == 0 && first != NoFile then first
    else if i < k then Since(samples[i].time)
    else NoFile
  }

  lemma CreatorLater(cpus: nat, samples: seq<Sample>, start: nat, k: nat)
    requires cpus > 0 && start <= k < |samples|
    ensures Creator(cpus, samples, start, k) < k ==>
              Creator(cpus, samples, start, k + 1) == Creator(cpus, samples, start, k)
    ensures Creator(cpus, samples, start, k) == k ==>
              Creator(cpus, samples, start, k + 1) == if Creates(cpus, samples[k]) then k else k + 1
  {
  }

  lemma {:induction false} LatchHoldsOrigin(cpus: nat, first: Latch, samples: seq<Sample>, k: nat)
    requires cpus > 0 && k <= |samples|
    ensures LatchAfter(cpus, first, samples[..k]) == Origin(cpus, first, samples, k)
  {
    if k > 0 {
      assert samples[..k][..k - 1] == samples[..k - 1];
      LatchHoldsOrigin(cpus, first, samples, k - 1);
      CreatorLater(cpus, samples, EpochStart(cpus, samples, k - 1), k - 1);
    }
  }

  /**
    Exactly when the error is raised, for every sequence of samples, every file
    left behind and every failure to create or remove it: at a high sample more
    than 15 minutes after the origin.
  */
  lemma ErrorExactly(cpus: nat, first: Latch, samples: seq<Sample>, k: nat)
    requires cpus > 0 && k < |samples|
    ensures var verdict, origin :=
              Judge(cpus, LatchAfter(cpus, first, samples[..k]), samples[k]), Origin(cpus, first, samples, k);
            && (verdict == Calm <==> !High(cpus, samples[k]))
            && (verdict == Error <==>
                  High(cpus, samples[k]) && origin.Since? && samples[k].time - origin.time > LIMIT)
  {
    LatchHoldsOrigin(cpus, first, samples, k);
  }

  /** Where the unbroken run of high samples that ends at `k` began. */
  function RunStart(cpus: nat, samples: seq<Sample>, k: nat): (start: nat)
    requires cpus > 0 && k < |samples| && High(cpus, samples[k])
    ensures start <= k
    ensures forall i :: start <= i <= k ==> High(cpus, samples[i])
    ensures start > 0 ==> !High(cpus, samples[start - 1])
  {
    if k == 0 || !High(cpus, samples[k - 1]) then k else RunStart(cpus, samples, k - 1)
  }

  /** Without a file at the start, and with no failure, only the age of the unbroken run matters. */
  lemma ErrorWithoutFile(cpus: nat, samples: seq<Sample>, k: nat)
    requires cpus > 0 && k < |samples| && High(cpus, samples[k])
    requires forall i :: 0 <= i < k ==> samples[i].created && samples[i].removed
    ensures Judge(cpus, LatchAfter(cpus, NoFile, samples[..k]), samples[k]) == Error
       <==> samples[k].time - samples[RunStart(cpus, samples, k)].time > 900
  {
    ErrorExactly(cpus, NoFile, samples, k);
    var start := RunStart(cpus, samples, k);
    assert start < k ==> Creates(cpus, samples[start]);
    assert start > 0 ==> Removes(cpus, samples[start - 1]);
    assert EpochStart(cpus, samples, k) == start;
  }

  class Plugin {
    const cpus: nat
    const first: Latch
    var file: Latch
    ghost var samples: seq<Sample>

    ghost predicate Valid()
      reads this
    {
      cpus > 0 && file == LatchAfter(cpus, first, samples)
    }

    constructor (cpus: nat, file: Latch)
      requires cpus > 0
      ensures Valid() && this.cpus == cpus && first == file && samples == []
    {
      this.cpus, first, this.file, samples := cpus, file, file, [];
    }

    method OnProcessWatch(s: Sample) returns (verdict: Verdict)
      requires Valid()
      modifies this
      ensures Valid() && samples == old(samples) + [s]
      ensures verdict == Judge(cpus, old(file), s)
    {
      samples := samples + [s];
      assert samples[..|samples| - 1] == old(samples);
      var limit := cpus as real;
      if limit > 1.0 {
        if limit <= 2.0 { limit := limit * 0.95; } else { limit := limit * 0.8; }
      }
      if s.load >= limit {
        var addWarning := true;
        match file {
          case Since(start) =>
            if s.time - start > LIMIT { addWarning := false; }
          case NotANumber =>
          case NoFile =>
            if s.created { file := Since(s.time); }
        }
        return if addWarning then Warning else Error;
      }
      if s.removed { file := NoFile; }
      return Calm;
    }
  }
}
