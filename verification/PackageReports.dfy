/**
  The report of the packages plugin as a function of one table of installed
  packages: what is reported, and where a report ends the watch.
*/
module PackageReports {
  import opened PackageText
  import ErrorReport

  datatype Kind = Optional | Required | Unwanted

  datatype Package = Package(name: string, kind: Kind, conflicts: set<string>, priority: int)

  datatype Report =
    | NotInstalled(name: string, priority: int)
    | Undesired(name: string, priority: int)
    | Conflict(name: string, others: set<string>, priority: int)

  /** `later` knows everything `earlier` does, and agrees with it. */
  ghost predicate Extends(earlier: Installed, later: Installed) {
    forall k :: k in earlier ==> k in later && later[k] == earlier[k]
  }

  // ----- The report as a function of one snapshot -----

  predicate Decides(installed: Installed, p: Package) {
    && p.name in installed
    && (installed[p.name] && p.kind != Unwanted ==> p.conflicts <= installed.Keys)
  }

  /** The declared conflicts that are installed. */
  function InConflict(installed: Installed, p: Package): set<string> {
    set u | u in p.conflicts && u in installed && installed[u]
  }

  function ReportOn(installed: Installed, p: Package): seq<Report>
    requires Decides(installed, p)
  {
    if !installed[p.name] then
      if p.kind == Required then [NotInstalled(p.name, p.priority)] else []
    else if p.kind == Unwanted then [Undesired(p.name, p.priority)]
    else if InConflict(installed, p) == {} then []
    else [Conflict(p.name, InConflict(installed, p), p.priority)]
  }

  predicate DecidesAll(installed: Installed, packages: seq<Package>) {
    forall i :: 0 <= i < |packages| ==> Decides(installed, packages[i])
  }

  function Reports(installed: Installed, packages: seq<Package>): seq<Report>
    requires DecidesAll(installed, packages)
  {
    if packages == [] then []
    else
      var last := |packages| - 1;
      Reports(installed, packages[..last]) + ReportOn(installed, packages[last])
  }

  /** What a report claims, read off the table and the definition alone. */
  predicate Deserved(installed: Installed, p: Package, r: Report)
    requires Decides(installed, p)
  {
    match r
    case NotInstalled(name, priority) =>
      name == p.name && priority == p.priority && p.kind == Required && !installed[p.name]
    case Undesired(name, priority) =>
      name == p.name && priority == p.priority && p.kind == Unwanted && installed[p.name]
    case Conflict(name, others, priority) =>
      && name == p.name && priority == p.priority && p.kind != Unwanted && installed[p.name]
      && others != {} && others <= p.conflicts
      && forall u :: u in p.conflicts ==> (u in others <==> installed[u])
  }

  lemma ReportOnExactly(installed: Installed, p: Package, r: Report)
    requires Decides(installed, p)
    ensures r in ReportOn(installed, p) <==> Deserved(installed, p, r)
  {
    if Deserved(installed, p, r) && r.Conflict? {
      assert r.others == InConflict(installed, p);
    }
  }

  /** Exactly the deserved reports are made, one package at a time. */
  lemma {:induction false} ReportsExactly(installed: Installed, packages: seq<Package>, r: Report)
    requires DecidesAll(installed, packages)
    ensures r in Reports(installed, packages)
       <==> exists i :: 0 <= i < |packages| && Deserved(installed, packages[i], r)
    decreases |packages|
  {
    if packages != [] {
      var last := |packages| - 1;
      var before := packages[..last];
      assert forall i :: 0 <= i < last ==> before[i] == packages[i];
      ReportsExactly(installed, before, r);
      ReportOnExactly(installed, packages[last], r);
      if i :| 0 <= i < last && Deserved(installed, before[i], r) {
        assert Deserved(installed, packages[i], r);
      }
      if i :| 0 <= i < last && Deserved(installed, packages[i], r) {
        assert Deserved(installed, before[i], r);
      }
    }
  }

  // ----- Priorities the server refuses -----

  /** The report on this package ends the watch. */
  predicate Throws(installed: Installed, p: Package) {
    Decides(installed, p) && ReportOn(installed, p) != [] && !ErrorReport.ValidPriority(p.priority)
  }

  /** How many packages are dealt with before a report throws: all of them when none does. */
  function Completed(installed: Installed, packages: seq<Package>): (n: nat)
    ensures n <= |packages|
    ensures n < |packages| ==> Throws(installed, packages[n])
    ensures forall i :: 0 <= i < n ==> !Throws(installed, packages[i])
  {
    if packages == [] || Throws(installed, packages[0]) then 0 else 1 + Completed(installed, packages[1..])
  }

  lemma ThrowsExactly(installed: Installed, p: Package)
    requires Decides(installed, p)
    ensures Throws(installed, p) <==> exists r :: Deserved(installed, p, r) && !ErrorReport.ValidPriority(r.priority)
  {
    if ReportOn(installed, p) != [] {
      ReportOnExactly(installed, p, ReportOn(installed, p)[0]);
    }
    if r :| Deserved(installed, p, r) && !ErrorReport.ValidPriority(r.priority) {
      ReportOnExactly(installed, p, r);
    }
  }

  /** A watch ends early exactly when some report that is deserved has a bad priority. */
  lemma WatchThrowsExactly(installed: Installed, packages: seq<Package>)
    ensures Completed(installed, packages) < |packages|
       <==> exists i, r :: 0 <= i < |packages| && Decides(installed, packages[i])
                        && Deserved(installed, packages[i], r) && !ErrorReport.ValidPriority(r.priority)
  {
    var n := Completed(installed, packages);
    if n < |packages| {
      ThrowsExactly(installed, packages[n]);
    }
    if i, r :| 0 <= i < |packages| && Decides(installed, packages[i])
               && Deserved(installed, packages[i], r) && !ErrorReport.ValidPriority(r.priority)
    {
      ThrowsExactly(installed, packages[i]);
    }
  }

  /** Whether anything can ever be reported about a package. */
  predicate Reportable(p: Package) {
    p.kind != Optional || p.conflicts != {}
  }

  lemma OnlyReportable(installed: Installed, p: Package)
    requires Decides(installed, p) && ReportOn(installed, p) != []
    ensures Reportable(p)
  {
    assert InConflict(installed, p) <= p.conflicts;
  }

  /** A table under which a report on `p` is deserved. */
  function Provoking(p: Package): Installed {
    map u | u in p.conflicts + {p.name} :: p.kind != Required
  }

  /** Which packages can be watched on any machine: those a report on which has a good priority. */
  lemma NeverThrowsExactly(packages: seq<Package>)
    ensures (forall installed :: Completed(installed, packages) == |packages|)
       <==> forall i :: 0 <= i < |packages| && Reportable(packages[i]) ==>
              ErrorReport.ValidPriority(packages[i].priority)
  {
    if i :| 0 <= i < |packages| && Reportable(packages[i]) && !ErrorReport.ValidPriority(packages[i].priority) {
      var p, installed := packages[i], Provoking(packages[i]);
      if p.kind == Optional {
        var u :| u in p.conflicts;
        assert u in InConflict(installed, p);
      }
      assert Throws(installed, p);
      assert Completed(installed, packages) <= i;
    } else {
      forall installed: Installed
        ensures Completed(installed, packages) == |packages|
      {
        forall i | 0 <= i < |packages|
          ensures !Throws(installed, packages[i])
        {
          if Throws(installed, packages[i]) { OnlyReportable(installed, packages[i]); }
        }
      }
    }
  }

  // ----- Tables that grow -----

  lemma ReportOnIsStable(earlier: Installed, later: Installed, p: Package)
    requires Extends(earlier, later) && Decides(earlier, p)
    ensures Decides(later, p) && ReportOn(later, p) == ReportOn(earlier, p)
    ensures Throws(later, p) <==> Throws(earlier, p)
  {
    if earlier[p.name] && p.kind != Unwanted {
      assert InConflict(later, p) == InConflict(earlier, p);
    }
  }

  lemma {:induction false} ReportsAgree(earlier: Installed, later: Installed, packages: seq<Package>)
    requires Extends(earlier, later) && DecidesAll(earlier, packages)
    ensures DecidesAll(later, packages) && Reports(later, packages) == Reports(earlier, packages)
    decreases |packages|
  {
    forall i | 0 <= i < |packages|
      ensures Decides(later, packages[i])
    {
      ReportOnIsStable(earlier, later, packages[i]);
    }
    if packages != [] {
      var last := |packages| - 1;
      ReportsAgree(earlier, later, packages[..last]);
      ReportOnIsStable(earlier, later, packages[last]);
    }
  }

  /** The packages a watch of `packages` under this table deals with, up to one that throws. */
  function Watched(installed: Installed, packages: seq<Package>): seq<Package> {
    packages[..Completed(installed, packages)]
  }

  /** What an earlier watch reported, and where it ended, is also what the later table says. */
  lemma ReportsAreStable(earlier: Installed, later: Installed, packages: seq<Package>)
    requires Extends(earlier, later) && DecidesAll(earlier, Watched(earlier, packages))
    ensures Watched(later, packages) == Watched(earlier, packages)
    ensures DecidesAll(later, Watched(later, packages))
    ensures Reports(later, Watched(later, packages)) == Reports(earlier, Watched(earlier, packages))
  {
    var n := Completed(earlier, packages);
    forall i | 0 <= i < n
      ensures !Throws(later, packages[i])
    {
      assert Decides(earlier, Watched(earlier, packages)[i]);
      ReportOnIsStable(earlier, later, packages[i]);
    }
    if n < |packages| {
      ReportOnIsStable(earlier, later, packages[n]);
    }
    ReportsAgree(earlier, later, packages[..n]);
  }

  // ----- One package after the other -----

  /** All of these packages are dealt with, and this is what was reported. */
  predicate Dealt(installed: Installed, packages: seq<Package>, reports: seq<Report>) {
    && DecidesAll(installed, packages) && Watched(installed, packages) == packages
    && reports == Reports(installed, packages)
  }

  lemma CompletedAt(installed: Installed, packages: seq<Package>, i: nat)
    requires i < |packages| && Watched(installed, packages[..i]) == packages[..i]
    ensures Throws(installed, packages[i]) ==> Completed(installed, packages) == i
    ensures !Throws(installed, packages[i]) ==> Watched(installed, packages[..i + 1]) == packages[..i + 1]
  {
    assert |Watched(installed, packages[..i])| == i;
    forall k | 0 <= k < i
      ensures !Throws(installed, packages[k])
    {
      assert packages[..i][k] == packages[k];
    }
    var n := Completed(installed, packages[..i + 1]);
    assert n < i + 1 ==> packages[..i + 1][n] == packages[n];
  }

  lemma ReportsGrow(installed: Installed, packages: seq<Package>, i: nat)
    requires i < |packages| && DecidesAll(installed, packages[..i]) && Decides(installed, packages[i])
    ensures DecidesAll(installed, packages[..i + 1])
    ensures Reports(installed, packages[..i + 1])
         == Reports(installed, packages[..i]) + ReportOn(installed, packages[i])
  {
    assert forall k :: 0 <= k < i ==> packages[..i + 1][k] == packages[..i][k];
    assert packages[..i + 1][..i] == packages[..i];
  }

  /** One more package is dealt with, or it ends the watch. */
  lemma DealtGrows(before: Installed, installed: Installed, packages: seq<Package>, i: nat, reports: seq<Report>)
    requires i < |packages| && Dealt(before, packages[..i], reports)
    requires Extends(before, installed) && Decides(installed, packages[i])
    ensures if Throws(installed, packages[i]) then
              Watched(installed, packages) == packages[..i] && Dealt(installed, packages[..i], reports)
            else
              Dealt(installed, packages[..i + 1], reports + ReportOn(installed, packages[i]))
  {
    ReportsAreStable(before, installed, packages[..i]);
    CompletedAt(installed, packages, i);
    ReportsGrow(installed, packages, i);
  }
}
