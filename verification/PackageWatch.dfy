/**
  The packages plugin: it asks through the memo table, reports what each package
  deserves, and saves the table.
*/
module PackageWatch {
  import opened Wrappers
  import opened PackageText
  import opened PackageReports
  import opened PackageMemory
  import ErrorReport

  /** All of `names` were asked for, and `others` are the installed ones. */
  ghost predicate Asked(installed: Installed, names: set<string>, others: set<string>) {
    && names <= installed.Keys && others <= names
    && forall u :: u in names ==> (u in others <==> installed[u])
  }

  lemma AskedGrows(earlier: Installed, later: Installed, names: set<string>, others: set<string>, u: string)
    requires Extends(earlier, later) && Asked(earlier, names, others) && u in later
    ensures Asked(later, names, others)
    ensures u !in names ==> Asked(later, names + {u}, others + if later[u] then {u} else {})
  {
  }

  /** The server's `append_error`: throws on a priority it refuses. */
  method AppendError(r: Report) returns (ok: bool, report: seq<Report>)
    ensures ok <==> ErrorReport.ValidPriority(r.priority)
    ensures report == if ok then [r] else []
  {
    if r.priority < 0 || r.priority > 100 { return false, []; }
    return true, [r];
  }

  // ----- The plugin -----

  class Plugin {
    var dpkg: (nat, string) -> bool
    var file: Option<string>
    var installed: Installed
    var cacheLoaded: bool
    var cacheModified: bool
    var queries: seq<string>
    ghost var found: Option<string>    // what the file held when it was read

    ghost function Now(): Memory
      reads this
    {
      Memory(file, Machine(found, dpkg), cacheLoaded, queries)
    }

    ghost predicate Valid()
      reads this
    {
      && Now().Sound() && installed == Now().Table()
      && (cacheModified <==> queries != [])
    }

    constructor (dpkg: (nat, string) -> bool, file: Option<string>)
      ensures Valid() && Now() == Memory(file, Machine(None, dpkg), false, [])
    {
      this.dpkg, this.file, found := dpkg, file, None;
      installed, cacheLoaded, cacheModified, queries := map[], false, false, [];
    }

    method LoadCache()
      requires Valid()
      modifies this`installed, this`cacheLoaded, this`found
      ensures Valid() && cacheLoaded && Continues(old(Now()), Now())
    {
      if !cacheLoaded {
        cacheLoaded, found := true, file;
        match file
        case Some(content) => installed := Load(content);
        case None =>
      }
    }

    /** Asks `dpkg-query` and remembers the answer. */
    method Query(name: string) returns (result: bool)
      requires Valid() && cacheLoaded && name !in installed
      modifies this`installed, this`cacheModified, this`queries
      ensures Valid() && queries == old(queries) + [name] && installed == old(installed)[name := result]
      ensures result == dpkg(|old(queries)|, name)
    {
      result := dpkg(|queries|, name);
      FrugalGrows(Machine(found, dpkg), queries, name);
      queries := queries + [name];
      installed := installed[name := result];
      cacheModified := true;
    }

    /** The answer of the table; a name it lacks is queried once and remembered. */
    method IsPackageInstalled(name: string) returns (result: bool)
      requires Valid()
      modifies this`installed, this`cacheLoaded, this`found, this`cacheModified, this`queries
      ensures Valid() && Continues(old(Now()), Now()) && Extends(old(installed), installed)
      ensures name in installed && result == installed[name]
      ensures old(cacheLoaded) && name in old(installed) ==> queries == old(queries)
    {
      LoadCache();
      if name in installed {
        result := installed[name];
      } else {
        result := Query(name);
      }
      TableGrows(old(Now()), Now());
    }

    /** The conflicts are asked for only when the package itself is installed. */
    method IsInConflict(p: Package) returns (result: bool, others: set<string>)
      requires Valid()
      modifies this`installed, this`cacheLoaded, this`found, this`cacheModified, this`queries
      ensures Valid() && Continues(old(Now()), Now()) && Extends(old(installed), installed)
      ensures p.name in installed && (installed[p.name] ==> p.conflicts <= installed.Keys)
      ensures others == (if installed[p.name] then InConflict(installed, p) else {})
      ensures result <==> others != {}
    {
      others := {};
      var present := IsPackageInstalled(p.name);
      if !present { return false, others; }
      var left := p.conflicts;
      while left != {}
        invariant Valid() && Continues(old(Now()), Now()) && Extends(old(installed), installed)
        invariant p.name in installed && installed[p.name]
        invariant left <= p.conflicts
        invariant Asked(installed, p.conflicts - left, others)
      {
        var u :| u in left;
        ghost var before := installed;
        var conflicting := IsPackageInstalled(u);
        AskedGrows(before, installed, p.conflicts - left, others, u);
        others := others + if conflicting then {u} else {};
        left := left - {u};
      }
      result := others != {};
    }

    /** What one package adds to the report; `false` stands for the exception that ends the watch. */
    method Check(p: Package) returns (ok: bool, report: seq<Report>)
      requires Valid()
      modifies this`installed, this`cacheLoaded, this`found, this`cacheModified, this`queries
      ensures Valid() && Continues(old(Now()), Now()) && Extends(old(installed), installed)
      ensures Decides(installed, p) && (ok <==> !Throws(installed, p))
      ensures report == if ok then ReportOn(installed, p) else []
    {
      ok, report := true, [];
      match p.kind {
        case Required =>
          var present := IsPackageInstalled(p.name);
          if !present {
            ok, report := AppendError(NotInstalled(p.name, p.priority));
            return;
          }
        case Unwanted =>
          var present := IsPackageInstalled(p.name);
          if present {
            ok, report := AppendError(Undesired(p.name, p.priority));
            return;
          }
        case Optional =>
      }
      var conflicting, others := IsInConflict(p);
      if conflicting {
        ok, report := AppendError(Conflict(p.name, others, p.priority));
      }
    }

    /**
      One watch. Although the machine may answer differently every time, all
      reports agree with one table, which only grew. A report with a bad priority
      ends the watch: later packages are not looked at and nothing is saved.
    */
    method OnProcessWatch(packages: seq<Package>) returns (ok: bool, reports: seq<Report>, saved: bool)
      requires Valid()
      modifies this
      ensures Valid() && Next(old(Now()), Watching(packages), saved, Now())
      ensures Extends(old(installed), installed)
      ensures ok <==> Watched(installed, packages) == packages
      ensures reports == Reports(installed, Watched(installed, packages))
    {
      ok, reports, saved := true, [], false;
      for i := 0 to |packages|
        invariant Valid() && Continues(old(Now()), Now()) && Extends(old(installed), installed) && file == old(file)
        invariant Dealt(installed, packages[..i], reports)
      {
        ghost var before := installed;
        var more;
        ok, more := Check(packages[i]);
        DealtGrows(before, installed, packages, i, reports);
        if !ok { return; }
        reports := reports + more;
      }
      assert packages[..|packages|] == packages;
      if cacheModified {
        var out, order := Save(installed);
        file, saved := Some(out), true;
      }
    }

    /** The daily job, which runs beside the service. */
    method RemoveFile()
      requires Valid()
      modifies this`file
      ensures Valid() && Next(old(Now()), Removed, false, Now())
    {
      file := None;
    }

    /** A new process, in which `dpkg-query` may answer anything. */
    method Restart(dpkg: (nat, string) -> bool)
      requires Valid()
      modifies this
      ensures Valid() && Next(old(Now()), Restarted(dpkg), false, Now())
    {
      this.dpkg, found := dpkg, None;
      installed, cacheLoaded, cacheModified, queries := map[], false, false, [];
    }

    method Take(step: Step) returns (saved: bool)
      requires Valid()
      modifies this
      ensures Valid() && Next(old(Now()), step, saved, Now())
    {
      saved := false;
      match step
      case Watching(packages) =>
        var _, _, wrote := OnProcessWatch(packages);
        saved := wrote;
      case Removed => RemoveFile();
      case Restarted(dpkg) => Restart(dpkg);
    }

    /** Any sequence of watches, removals and restarts. */
    method Live(steps: seq<Step>) returns (ghost states: seq<Memory>, saves: seq<bool>)
      requires Valid()
      modifies this
      ensures Valid() && IsRun(states, steps, saves)
      ensures states[0] == old(Now()) && states[|steps|] == Now()
    {
      states, saves := [Now()], [];
      for i := 0 to |steps|
        invariant Valid() && IsRun(states, steps[..i], saves)
        invariant states[0] == old(Now()) && states[i] == Now()
      {
        var saved := Take(steps[i]);
        states, saves := states + [Now()], saves + [saved];
      }
      assert steps[..|steps|] == steps;
    }
  }
}
