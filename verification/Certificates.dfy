/**
  Certificate warnings: the table of delays read from the configuration, the
  priority it gives to a certificate, and the throttle on access failures.
*/
module Certificates {
  import opened Wrappers

  /** The library's splitter and number reader. */
  datatype Reader = Reader(split: (string, char) -> seq<string>, integer: string -> Option<int>)

  datatype Entry = Entry(days: int, priority: int)

  const MAXIMUM_DELAY := 366 * 10

  const DEFAULTS := [Entry(7, 100), Entry(14, 85), Entry(30, 45)]

  /** One `days/priority` warning, when it is valid. */
  function ReadWarning(r: Reader, warning: string): Option<Entry> {
    var parts := r.split(warning, '/');
    if |parts| != 2 then None
    else
      match (r.integer(parts[0]), r.integer(parts[1]))
      case (Some(days), Some(priority)) =>
        if 0 < days <= MAXIMUM_DELAY && 0 <= priority <= 100 then Some(Entry(days, priority)) else None
      case _ => None
  }

  /** The valid entries, as listed. */
  function ReadAll(r: Reader, warnings: seq<string>): seq<Entry> {
    if warnings == [] then []
    else
      var entry := ReadWarning(r, warnings[|warnings| - 1]);
      ReadAll(r, warnings[..|warnings| - 1]) + if entry.Some? then [entry.value] else []
  }

  /** The entries in force: the defaults when none configured is valid. */
  function Configured(r: Reader, warnings: seq<string>): (entries: seq<Entry>)
    ensures entries != []
  {
    if ReadAll(r, warnings) == [] then DEFAULTS else ReadAll(r, warnings)
  }

  /** A warning is two numbers: days from 1 to ten years of 366 days, then a priority from 0 to 100. */
  lemma WarningExactly(r: Reader, warning: string, days: int, priority: int)
    ensures ReadWarning(r, warning) == Some(Entry(days, priority))
       <==> && |r.split(warning, '/')| == 2
            && r.integer(r.split(warning, '/')[0]) == Some(days) && 1 <= days <= 3660
            && r.integer(r.split(warning, '/')[1]) == Some(priority) && 0 <= priority <= 100
  {
  }

  /** Exactly the valid entries are in force, in their order. */
  lemma {:induction false} ReadAllExactly(r: Reader, warnings: seq<string>, e: Entry)
    ensures e in ReadAll(r, warnings) <==> exists i :: 0 <= i < |warnings| && ReadWarning(r, warnings[i]) == Some(e)
  {
    if warnings != [] {
      var last := |warnings| - 1;
      var before := warnings[..last];
      ReadAllExactly(r, before, e);
      assert forall i :: 0 <= i < last ==> before[i] == warnings[i];
      if i :| 0 <= i < last && ReadWarning(r, before[i]) == Some(e) {
        assert ReadWarning(r, warnings[i]) == Some(e);
      }
    }
  }

  // ----- The table -----

  /** Days to priority: the last entry listed for a number of days stays. */
  type Table = map<int, int>

  function TableOf(entries: seq<Entry>): Table {
    if entries == [] then map[]
    else
      var last := entries[|entries| - 1];
      TableOf(entries[..|entries| - 1])[last.days := last.priority]
  }

  /** Entry `i` is the last one listed for its number of days. */
  ghost predicate IsLast(entries: seq<Entry>, i: nat)
    requires i < |entries|
  {
    forall j :: i < j < |entries| ==> entries[j].days != entries[i].days
  }

  /** Every entry has its days in the table. */
  lemma {:induction false} ListedIsInTable(entries: seq<Entry>, i: nat)
    requires i < |entries|
    ensures entries[i].days in TableOf(entries)
    decreases |entries|
  {
    if i < |entries| - 1 {
      ListedIsInTable(entries[..|entries| - 1], i);
    }
  }

  /** Every row of the table is the last entry listed for its days. */
  lemma {:induction false} TableIsListed(entries: seq<Entry>, days: int) returns (i: nat)
    requires days in TableOf(entries)
    ensures i < |entries| && entries[i] == Entry(days, TableOf(entries)[days]) && IsLast(entries, i)
    decreases |entries|
  {
    var last := |entries| - 1;
    if entries[last].days == days {
      i := last;
    } else {
      i := TableIsListed(entries[..last], days);
      assert forall j :: i < j < last ==> entries[..last][j] == entries[j];
    }
  }

  // ----- The priority of a certificate about to expire -----

  /**
    The answer read off the list itself: the entry with the fewest days among
    those that cover the remaining ones, the last listed on equal days.
  */
  ghost predicate Chosen(entries: seq<Entry>, remaining: int, priority: Option<int>) {
    match priority
    case None => forall i :: 0 <= i < |entries| ==> entries[i].days < remaining
    case Some(p) =>
      exists i: nat ::
        && i < |entries| && remaining <= entries[i].days && entries[i].priority == p
        && (forall j :: 0 <= j < |entries| && remaining <= entries[j].days ==> entries[i].days <= entries[j].days)
        && IsLast(entries, i)
  }

  lemma ChosenIsUnique(entries: seq<Entry>, remaining: int, one: Option<int>, two: Option<int>)
    requires Chosen(entries, remaining, one) && Chosen(entries, remaining, two)
    ensures one == two
  {
    if one.Some? && two.Some? {
      var i: nat :|
        i < |entries| && remaining <= entries[i].days && entries[i].priority == one.value
        && (forall j :: 0 <= j < |entries| && remaining <= entries[j].days ==> entries[i].days <= entries[j].days)
        && IsLast(entries, i);
      var k: nat :|
        k < |entries| && remaining <= entries[k].days && entries[k].priority == two.value
        && (forall j :: 0 <= j < |entries| && remaining <= entries[j].days ==> entries[k].days <= entries[j].days)
        && IsLast(entries, k);
      assert entries[i].days == entries[k].days;
      assert i == k;
    }
  }

  /** The least number of days in the table that covers the remaining ones is the one chosen. */
  lemma LeastCoveringIsChosen(entries: seq<Entry>, remaining: int, days: int)
    requires days in TableOf(entries) && remaining <= days
    requires forall d :: d in TableOf(entries) && remaining <= d ==> days <= d
    ensures Chosen(entries, remaining, Some(TableOf(entries)[days]))
  {
    var i := TableIsListed(entries, days);
    forall j: nat | j < |entries| && remaining <= entries[j].days
      ensures entries[i].days <= entries[j].days
    {
      ListedIsInTable(entries, j);
    }
  }

  lemma NoneCoveringIsChosen(entries: seq<Entry>, remaining: int)
    requires forall d :: d in TableOf(entries) ==> d < remaining
    ensures Chosen(entries, remaining, None)
  {
    forall j: nat | j < |entries|
      ensures entries[j].days < remaining
    {
      ListedIsInTable(entries, j);
    }
  }

  lemma LeastExists(keys: set<int>)
    ensures keys == {} || exists d :: d in keys && forall e :: e in keys ==> d <= e
  {
    if d: int :| d in keys {
      LeastFrom(keys, d);
    } else {
      assert forall d :: d !in keys;
    }
  }

  lemma {:induction false} LeastFrom(keys: set<int>, some: int)
    requires some in keys
    ensures exists d :: d in keys && forall e :: e in keys ==> d <= e
    decreases keys
  {
    if smaller: int :| smaller in keys && smaller < some {
      LeastFrom(keys - {some}, smaller);
      var least: int :| least in keys - {some} && forall e :: e in keys - {some} ==> least <= e;
      forall e | e in keys
        ensures least <= e
      {
        assert e == some || e in keys - {some};
      }
    }
  }

  /** With distinct days, the order in which the delays are listed does not matter. */
  lemma ChoiceIgnoresOrder(entries: seq<Entry>, other: seq<Entry>, remaining: int, priority: Option<int>)
    requires multiset(entries) == multiset(other)
    requires forall i, j :: 0 <= i < j < |other| ==> other[i].days != other[j].days
    requires Chosen(entries, remaining, priority)
    ensures Chosen(other, remaining, priority)
  {
    forall e
      ensures e in entries <==> e in other
    {
      assert e in entries <==> e in multiset(entries);
      assert e in other <==> e in multiset(other);
    }
    match priority
    case None =>
      forall i | 0 <= i < |other|
        ensures other[i].days < remaining
      {
        assert other[i] in entries;
      }
    case Some(p) =>
      var i: nat :|
        i < |entries| && remaining <= entries[i].days && entries[i].priority == p
        && (forall j :: 0 <= j < |entries| && remaining <= entries[j].days ==> entries[i].days <= entries[j].days)
        && IsLast(entries, i);
      assert entries[i] in other;
      var k: nat :| k < |other| && other[k] == entries[i];
      forall j | 0 <= j < |other| && remaining <= other[j].days
        ensures other[k].days <= other[j].days
      {
        assert other[j] in entries;
      }
      assert IsLast(other, k);
  }

  lemma ChosenAt(entries: seq<Entry>, remaining: int, i: nat)
    requires i < |entries| && remaining <= entries[i].days && IsLast(entries, i)
    requires forall j :: 0 <= j < |entries| && remaining <= entries[j].days ==> entries[i].days <= entries[j].days
    ensures Chosen(entries, remaining, Some(entries[i].priority))
  {
  }

  lemma NoneConfigured(r: Reader, warnings: seq<string>)
    requires forall i :: 0 <= i < |warnings| ==> ReadWarning(r, warnings[i]) == None
    ensures Configured(r, warnings) == [Entry(7, 100), Entry(14, 85), Entry(30, 45)]
  {
    if ReadAll(r, warnings) != [] {
      ReadAllExactly(r, warnings, ReadAll(r, warnings)[0]);
    }
  }

  /** Without a valid entry the choice is 100 within a week, 85 within two, 45 within thirty days. */
  lemma DefaultsAreChosen(r: Reader, warnings: seq<string>, remaining: int)
    requires forall i :: 0 <= i < |warnings| ==> ReadWarning(r, warnings[i]) == None
    ensures Chosen(Configured(r, warnings), remaining,
              if remaining <= 7 then Some(100) else if remaining <= 14 then Some(85)
              else if remaining <= 30 then Some(45) else None)
  {
    NoneConfigured(r, warnings);
    var entries := Configured(r, warnings);
    if remaining <= 30 {
      ChosenAt(entries, remaining, if remaining <= 7 then 0 else if remaining <= 14 then 1 else 2);
    }
  }

  // ----- The throttle on access failures -----

  const REPEAT := 3600 * 5

  /** One failed access. */
  datatype Access = Access(now: int, domain: string)

  /** The report on a failure, given when its domain was last reported. */
  function Throttled(last: Option<int>, now: int): Option<int> {
    match last
    case None => Some(75)
    case Some(time) => if now - time > REPEAT then Some(100) else None
  }

  /** When a domain was last reported, looking at its own failures only. */
  function LastReport(failures: seq<Access>, domain: string): Option<int> {
    if failures == [] then None
    else
      var f, before := failures[|failures| - 1], LastReport(failures[..|failures| - 1], domain);
      if f.domain == domain && Throttled(before, f.now).Some? then Some(f.now) else before
  }

  function ReportAt(failures: seq<Access>, i: nat): Option<int>
    requires i < |failures|
  {
    Throttled(LastReport(failures[..i], failures[i].domain), failures[i].now)
  }

  ghost predicate ClockRises(failures: seq<Access>) {
    forall i, j :: 0 <= i <= j < |failures| ==> failures[i].now <= failures[j].now
  }

  lemma {:induction false} LastReportIsRecent(failures: seq<Access>, i: nat, j: nat)
    requires ClockRises(failures) && i < j <= |failures| && ReportAt(failures, i).Some?
    ensures var last := LastReport(failures[..j], failures[i].domain);
            last.Some? && last.value >= failures[i].now
    decreases j
  {
    assert failures[..j][..j - 1] == failures[..j - 1];
    if i + 1 < j {
      LastReportIsRecent(failures, i, j - 1);
    }
  }

  /** Two reports on a domain are more than five hours apart, and the later has priority 100. */
  lemma ReportsAreRare(failures: seq<Access>, i: nat, j: nat)
    requires ClockRises(failures) && i < j < |failures| && failures[i].domain == failures[j].domain
    requires ReportAt(failures, i).Some? && ReportAt(failures, j).Some?
    ensures failures[j].now - failures[i].now > 18000
    ensures ReportAt(failures, j) == Some(100)
  {
    LastReportIsRecent(failures, i, j);
  }

  lemma {:induction false} NoFailureNoReport(failures: seq<Access>, domain: string)
    requires forall i :: 0 <= i < |failures| ==> failures[i].domain != domain
    ensures LastReport(failures, domain) == None
  {
    if failures != [] {
      NoFailureNoReport(failures[..|failures| - 1], domain);
    }
  }

  /** The first failure of a domain is reported at once, with priority 75. */
  lemma FirstFailureIsReported(failures: seq<Access>, i: nat)
    requires i < |failures|
    requires forall k :: 0 <= k < i ==> failures[k].domain != failures[i].domain
    ensures ReportAt(failures, i) == Some(75)
  {
    NoFailureNoReport(failures[..i], failures[i].domain);
  }

  /** A failure stays silent only within five hours of a report on the same domain. */
  lemma SilenceHasAReason(failures: seq<Access>, j: nat) returns (i: nat)
    requires j < |failures| && ReportAt(failures, j) == None
    ensures i < j && failures[i].domain == failures[j].domain
    ensures ReportAt(failures, i).Some? && failures[j].now - failures[i].now <= 18000
  {
    i := ReporterOf(failures, j, failures[j].domain);
  }

  lemma {:induction false} ReporterOf(failures: seq<Access>, j: nat, domain: string) returns (i: nat)
    requires j <= |failures| && LastReport(failures[..j], domain).Some?
    ensures i < j && failures[i].domain == domain && ReportAt(failures, i).Some?
    ensures LastReport(failures[..j], domain) == Some(failures[i].now)
    decreases j
  {
    assert failures[..j][..j - 1] == failures[..j - 1];
    var f := failures[j - 1];
    if f.domain == domain && Throttled(LastReport(failures[..j - 1], domain), f.now).Some? {
      i := j - 1;
    } else {
      i := ReporterOf(failures, j - 1, domain);
    }
  }

  /** The failures of one domain alone. */
  function Only(failures: seq<Access>, domain: string): seq<Access> {
    if failures == [] then []
    else
      var f := failures[|failures| - 1];
      Only(failures[..|failures| - 1], domain) + if f.domain == domain then [f] else []
  }

  /** Domains do not affect each other. */
  lemma {:induction false} DomainsAreIndependent(failures: seq<Access>, domain: string)
    ensures LastReport(Only(failures, domain), domain) == LastReport(failures, domain)
  {
    if failures != [] {
      var before, f := failures[..|failures| - 1], failures[|failures| - 1];
      DomainsAreIndependent(before, domain);
      if f.domain == domain {
        assert Only(failures, domain)[..|Only(before, domain)|] == Only(before, domain);
      } else {
        assert Only(failures, domain) == Only(before, domain);
      }
    }
  }

  lemma ReadAllGrows(r: Reader, warnings: seq<string>, i: nat)
    requires i < |warnings|
    ensures ReadAll(r, warnings[..i + 1])
         == match ReadWarning(r, warnings[i])
            case Some(e) => ReadAll(r, warnings[..i]) + [e]
            case None => ReadAll(r, warnings[..i])
    ensures TableOf(ReadAll(r, warnings[..i + 1]))
         == match ReadWarning(r, warnings[i])
            case Some(e) => TableOf(ReadAll(r, warnings[..i]))[e.days := e.priority]
            case None => TableOf(ReadAll(r, warnings[..i]))
  {
    assert warnings[..i + 1][..i] == warnings[..i];
    var before := ReadAll(r, warnings[..i]);
    match ReadWarning(r, warnings[i])
    case Some(e) => assert (before + [e])[..|before|] == before;
    case None => assert before + [] == before;
  }

  lemma DefaultTable()
    ensures TableOf(DEFAULTS) == map[7 := 100, 14 := 85, 30 := 45]
  {
    assert DEFAULTS[..2] == [Entry(7, 100), Entry(14, 85)];
    assert [Entry(7, 100), Entry(14, 85)][..1] == [Entry(7, 100)];
    assert [Entry(7, 100)][..0] == [];
    assert TableOf([Entry(7, 100)]) == map[7 := 100];
    assert TableOf([Entry(7, 100), Entry(14, 85)]) == map[7 := 100, 14 := 85];
  }

  // ----- The plugin -----

  /** What loading the certificate of a domain gave. */
  datatype Probe = Unreachable | NoExpiry | ExpiresOn(day: int)

  class Plugin {
    var delays: Table
    var accessError: map<string, int>
    ghost var failures: seq<Access>

    /** `accessError` remembers, for every domain, its last report. */
    ghost predicate Valid()
      reads this
    {
      forall d: string ::
        if d in accessError then LastReport(failures, d) == Some(accessError[d]) else LastReport(failures, d) == None
    }

    constructor ()
      ensures Valid() && failures == [] && delays == map[]
    {
      delays, accessError, failures := map[], map[], [];
    }

    /** Adds one warning to the table, when it is valid. */
    method AddWarning(r: Reader, warning: string) returns (valid: bool)
      modifies this`delays
      ensures valid <==> ReadWarning(r, warning).Some?
      ensures delays == match ReadWarning(r, warning)
                        case Some(e) => old(delays)[e.days := e.priority]
                        case None => old(delays)
    {
      var parts := r.split(warning, '/');
      if |parts| != 2 { return false; }
      var days := r.integer(parts[0]);
      if days == None || days.value <= 0 || days.value > MAXIMUM_DELAY { return false; }
      var priority := r.integer(parts[1]);
      if priority == None || priority.value < 0 || priority.value > 100 { return false; }
      delays := delays[days.value := priority.value];
      valid := true;
    }

    /** Reads the configured delays; the defaults stand in when none is valid. */
    method ParseDelays(r: Reader, warnings: seq<string>) returns (invalid: seq<string>)
      modifies this`delays
      ensures delays == TableOf(Configured(r, warnings)) && |delays| > 0
      ensures |invalid| + |ReadAll(r, warnings)| == |warnings|
    {
      delays, invalid := map[], [];
      for i := 0 to |warnings|
        invariant delays == TableOf(ReadAll(r, warnings[..i]))
        invariant |invalid| + |ReadAll(r, warnings[..i])| == i
      {
        ReadAllGrows(r, warnings, i);
        var valid := AddWarning(r, warnings[i]);
        if !valid { invalid := invalid + [warnings[i]]; }
      }
      assert warnings[..|warnings|] == warnings;
      if ReadAll(r, warnings) != [] {
        ListedIsInTable(ReadAll(r, warnings), 0);
      }
      if delays == map[] {
        delays := map[7 := 100, 14 := 85, 30 := 45];
        assert 7 in delays;
        DefaultTable();
      }
    }

    /** Visits the delays from the fewest days up, to the first that covers the remaining ones. */
    method ChoosePriority(remaining: int, ghost entries: seq<Entry>) returns (priority: Option<int>)
      requires delays == TableOf(entries)
      ensures Chosen(entries, remaining, priority)
    {
      var left := delays.Keys;
      while left != {}
        invariant left <= delays.Keys
        invariant forall d :: d in delays && d !in left ==> d < remaining
      {
        LeastExists(left);
        var d: int :| d in left && forall e :: e in left ==> d <= e;
        if remaining <= d {
          LeastCoveringIsChosen(entries, remaining, d);
          return Some(delays[d]);
        }
        left := left - {d};
      }
      NoneCoveringIsChosen(entries, remaining);
      priority := None;
    }

    /** Reports a failed access, unless its domain was reported within five hours. */
    method ReportFailure(now: int, domain: string) returns (priority: Option<int>)
      requires Valid()
      modifies this`accessError, this`failures
      ensures Valid() && failures == old(failures) + [Access(now, domain)]
      ensures priority == ReportAt(failures, |old(failures)|)
    {
      failures := failures + [Access(now, domain)];
      assert failures[..|failures| - 1] == old(failures);
      priority := Some(75);
      if domain in accessError {
        priority := if now - accessError[domain] > 3600 * 5 then Some(100) else None;
      }
      if priority.Some? {
        accessError := accessError[domain := now];
      }
    }

    /** The check of one domain: the priority of the error it raises, if any. */
    method CheckDomain(now: nat, domain: string, probe: Probe, ghost entries: seq<Entry>)
      returns (priority: Option<int>)
      requires Valid() && delays == TableOf(entries)
      modifies this`accessError, this`failures
      ensures Valid()
      ensures failures == old(failures) + if probe == Unreachable then [Access(now, domain)] else []
      ensures match probe
              case Unreachable => priority == ReportAt(failures, |old(failures)|)
              case NoExpiry => priority == Some(90)
              case ExpiresOn(day) =>
                if day <= now / 86400 then priority == Some(100)
                else Chosen(entries, day - now / 86400, priority)
    {
      match probe
      case Unreachable => priority := ReportFailure(now, domain);
      case NoExpiry => priority := Some(90);
      case ExpiresOn(day) =>
        var remaining := day - now / 86400;
        if remaining <= 0 {
          priority := Some(100);
        } else {
          priority := ChoosePriority(remaining, entries);
        }
    }
  }
}
