/**
  The memo table of the packages plugin, its cache file, and what becomes of both
  over any sequence of watches, removals of the file and restarts.
*/
module PackageMemory {
  import opened Wrappers
  import opened PackageText
  import opened PackageReports

  /**
    What a process sees of the machine: the cache file found at its first question,
    and what `dpkg-query` answers to its n-th query. The answers to one name may
    change over time.
  */
  datatype Machine = Machine(cacheFile: Option<string>, dpkg: (nat, string) -> bool)

  // ----- The table as a function of the queries made -----

  function Base(machine: Machine): Installed {
    if machine.cacheFile.Some? then Parsed(machine.cacheFile.value) else map[]
  }

  /** The cache file, overlaid with the answer to every query, in order. */
  function Known(machine: Machine, queries: seq<string>): Installed {
    if queries == [] then Base(machine)
    else
      var last := |queries| - 1;
      Known(machine, queries[..last])[queries[last] := machine.dpkg(last, queries[last])]
  }

  /** No query asks for a name the table already had. */
  predicate Frugal(machine: Machine, queries: seq<string>) {
    if queries == [] then true
    else
      var last := |queries| - 1;
      Frugal(machine, queries[..last]) && queries[last] !in Known(machine, queries[..last])
  }

  lemma {:induction false} KnownKeys(machine: Machine, queries: seq<string>)
    ensures forall k :: k in Known(machine, queries) <==> k in Base(machine) || k in queries
  {
    if queries != [] {
      var last := |queries| - 1;
      KnownKeys(machine, queries[..last]);
      assert queries == queries[..last] + [queries[last]];
    }
  }

  /** Each name is queried at most once, and never when the file had it. */
  lemma {:induction false} QueriedAtMostOnce(machine: Machine, queries: seq<string>, i: nat, j: nat)
    requires Frugal(machine, queries) && i < j < |queries|
    ensures queries[i] != queries[j] && queries[j] !in Base(machine)
    decreases |queries|
  {
    var last := |queries| - 1;
    if j < last {
      QueriedAtMostOnce(machine, queries[..last], i, j);
    } else {
      KnownKeys(machine, queries[..last]);
      assert queries[..last][i] == queries[i];
    }
  }

  /** The one answer given to a name is the one the table keeps. */
  lemma {:induction false} AnswerIsKept(machine: Machine, queries: seq<string>, i: nat)
    requires Frugal(machine, queries) && i < |queries|
    ensures queries[i] in Known(machine, queries)
    ensures Known(machine, queries)[queries[i]] == machine.dpkg(i, queries[i])
    decreases |queries|
  {
    var last := |queries| - 1;
    if i < last {
      AnswerIsKept(machine, queries[..last], i);
      QueriedAtMostOnce(machine, queries, i, last);
    }
  }

  lemma FrugalGrows(machine: Machine, queries: seq<string>, name: string)
    requires Frugal(machine, queries) && name !in Known(machine, queries)
    ensures Frugal(machine, queries + [name])
    ensures Known(machine, queries + [name]) == Known(machine, queries)[name := machine.dpkg(|queries|, name)]
  {
    assert (queries + [name])[..|queries|] == queries;
  }

  lemma {:induction false} KnownGrows(machine: Machine, queries: seq<string>, n: nat)
    requires Frugal(machine, queries) && n <= |queries|
    ensures Extends(Known(machine, queries[..n]), Known(machine, queries))
    decreases |queries|
  {
    if n == |queries| {
      assert queries[..n] == queries;
    } else {
      var last := |queries| - 1;
      assert queries[..last][..n] == queries[..n];
      KnownGrows(machine, queries[..last], n);
    }
  }

  // ----- What a process remembers, and what is on disk -----

  datatype Memory = Memory(file: Option<string>, machine: Machine, loaded: bool, queries: seq<string>)
  {
    /** The file is not read before the first question. */
    function Table(): Installed {
      if loaded then Known(machine, queries) else map[]
    }

    predicate Sound() {
      Frugal(machine, queries) && (!loaded ==> queries == [])
    }
  }

  datatype Step =
    | Watching(packages: seq<Package>)
    | Removed                             // the daily job deletes the file
    | Restarted(dpkg: (nat, string) -> bool)

  /** The same process, later: the file is read once, and no query is forgotten. */
  ghost predicate Continues(m: Memory, m': Memory) {
    && m'.Sound() && m'.machine.dpkg == m.machine.dpkg
    && (m.loaded ==> m'.loaded && m'.machine == m.machine)
    && (!m.loaded && m'.loaded ==> m'.machine.cacheFile == m.file)
    && m.queries <= m'.queries
  }

  ghost predicate Written(text: string, installed: Installed) {
    exists order :: Enumerates(order, installed.Keys) && text == Printed(order, installed)
  }

  /** A watch that ends like this saves: no report threw, and some query was made since the start. */
  predicate Saves(m': Memory, packages: seq<Package>) {
    m'.queries != [] && Completed(m'.Table(), packages) == |packages|
  }

  /** One step; `saved` says whether a watch wrote the file. */
  ghost predicate Next(m: Memory, step: Step, saved: bool, m': Memory) {
    match step
    case Watching(packages) =>
      && Continues(m, m')
      && DecidesAll(m'.Table(), Watched(m'.Table(), packages))
      && (saved <==> Saves(m', packages))
      && (if saved then m'.file.Some? && Written(m'.file.value, m'.Table()) else m'.file == m.file)
    case Removed => !saved && m' == m.(file := None)
    case Restarted(dpkg) => !saved && m' == Memory(m.file, Machine(None, dpkg), false, [])
  }

  /** The memory before and after every step, and which of the steps saved. */
  ghost predicate IsRun(states: seq<Memory>, steps: seq<Step>, saves: seq<bool>) {
    && |states| == |steps| + 1 && |saves| == |steps| && states[0].Sound()
    && forall i :: 0 <= i < |steps| ==> Next(states[i], steps[i], saves[i], states[i + 1])
  }

  ghost predicate NoRestart(steps: seq<Step>, i: nat, j: nat)
    requires j <= |steps|
  {
    forall k :: i <= k < j ==> !steps[k].Restarted?
  }

  ghost predicate NoRemoval(steps: seq<Step>, i: nat, j: nat)
    requires j <= |steps|
  {
    forall k :: i <= k < j ==> !steps[k].Removed?
  }

  // ----- Answers outlive the file -----

  lemma TableGrows(m: Memory, m': Memory)
    requires Continues(m, m')
    ensures Extends(m.Table(), m'.Table())
  {
    if m.loaded {
      assert m'.queries[..|m.queries|] == m.queries;
      KnownGrows(m'.machine, m'.queries, |m.queries|);
    }
  }

  lemma NextGrows(m: Memory, step: Step, saved: bool, m': Memory)
    requires Next(m, step, saved, m') && !step.Restarted?
    ensures Extends(m.Table(), m'.Table())
  {
    if step.Watching? {
      TableGrows(m, m');
    }
  }

  /** Until the service restarts its answers stay as they are, also when the file is removed. */
  lemma {:induction false} RemovalIsNotNoticed(
    states: seq<Memory>, steps: seq<Step>, saves: seq<bool>, i: nat, j: nat)
    requires IsRun(states, steps, saves) && i <= j <= |steps| && NoRestart(steps, i, j)
    ensures Extends(states[i].Table(), states[j].Table())
    decreases j
  {
    if i < j {
      RemovalIsNotNoticed(states, steps, saves, i, j - 1);
      NextGrows(states[j - 1], steps[j - 1], saves[j - 1], states[j]);
    }
  }

  lemma NextWrites(m: Memory, step: Step, m': Memory)
    requires Next(m, step, true, m') && forall name :: name in m'.Table() ==> Printable(name)
    ensures m'.file.Some? && Parsed(m'.file.value) == m'.Table()
  {
    var order :| Enumerates(order, m'.Table().Keys) && m'.file.value == Printed(order, m'.Table());
    RoundTripExactly(order, m'.Table());
  }

  /** So a watch that saves after the removal writes the old answers back. */
  lemma OldTableComesBack(states: seq<Memory>, steps: seq<Step>, saves: seq<bool>, i: nat, k: nat)
    requires IsRun(states, steps, saves) && i <= k < |steps| && NoRestart(steps, i, k) && saves[k]
    requires forall name :: name in states[k + 1].Table() ==> Printable(name)
    ensures states[k + 1].file.Some? && Extends(states[i].Table(), Parsed(states[k + 1].file.value))
  {
    assert Next(states[k], steps[k], saves[k], states[k + 1]);
    RemovalIsNotNoticed(states, steps, saves, i, k + 1);
    NextWrites(states[k], steps[k], states[k + 1]);
  }

  /** A process that made a query once does so at any watch, even one that asks nothing new. */
  lemma RemovalIsUndone(m: Memory, packages: seq<Package>, order: seq<string>)
    requires m.Sound() && m.queries != [] && Enumerates(order, m.Table().Keys)
    requires DecidesAll(m.Table(), packages) && Completed(m.Table(), packages) == |packages|
    ensures var removed := m.(file := None);
            && Next(m, Removed, false, removed)
            && Next(removed, Watching(packages), true, m.(file := Some(Printed(order, m.Table()))))
  {
    var table := m.Table();
    assert Watched(table, packages) == packages;
    assert Written(Printed(order, table), table);
  }

  // ----- When the daily reset takes effect -----

  /** What is on disk before and after every step. */
  function Files(states: seq<Memory>): (files: seq<Option<string>>)
    ensures |files| == |states| && forall k :: 0 <= k < |states| ==> files[k] == states[k].file
  {
    seq(|states|, k requires 0 <= k < |states| => states[k].file)
  }

  /** Only a save and a removal change the file. */
  ghost predicate IsTrail(files: seq<Option<string>>, steps: seq<Step>, saves: seq<bool>) {
    && |files| == |steps| + 1 && |saves| == |steps|
    && (forall k :: 0 <= k < |steps| && saves[k] ==> files[k + 1].Some?)
    && (forall k :: 0 <= k < |steps| && !saves[k] ==>
          files[k + 1] == if steps[k].Removed? then None else files[k])
  }

  lemma RunLeavesTrail(states: seq<Memory>, steps: seq<Step>, saves: seq<bool>)
    requires IsRun(states, steps, saves)
    ensures IsTrail(Files(states), steps, saves)
  {
    forall k | 0 <= k < |steps|
      ensures if saves[k] then states[k + 1].file.Some?
              else states[k + 1].file == if steps[k].Removed? then None else states[k].file
    {
      assert Next(states[k], steps[k], saves[k], states[k + 1]);
    }
  }

  /** After a removal the file is the one last saved, if any was. */
  lemma {:induction false} LastSave(files: seq<Option<string>>, steps: seq<Step>, saves: seq<bool>, i: nat, j: nat)
    returns (k: nat)
    requires IsTrail(files, steps, saves) && i < j <= |steps|
    requires steps[i].Removed? && !saves[i] && NoRemoval(steps, i + 1, j)
    ensures i <= k < j && files[j] == files[k + 1]
    ensures if i < k then saves[k] && files[j].Some? else files[j] == None
    ensures forall l :: k < l < j ==> !saves[l]
    decreases j
  {
    k := j - 1;
    if i < k && !saves[k] {
      k := LastSave(files, steps, saves, i, k);
    }
  }

  lemma NextReads(m: Memory, step: Step, saved: bool, m': Memory)
    requires m.Sound() && Next(m, step, saved, m') && step.Watching?
    ensures m'.Sound() && (m.loaded ==> m'.loaded && m'.machine == m.machine)
    ensures !m.loaded ==> if m'.loaded then m'.machine.cacheFile == m.file else m'.file == m.file
  {
  }

  /** While the file is left alone, a new process finds what it held at the restart. */
  lemma {:induction false} FileIsFound(states: seq<Memory>, steps: seq<Step>, saves: seq<bool>, j: nat, n: nat)
    requires IsRun(states, steps, saves) && j < n <= |steps| && steps[j].Restarted?
    requires NoRestart(steps, j + 1, n) && NoRemoval(steps, j + 1, n)
    ensures states[n].Sound()
    ensures if states[n].loaded then states[n].machine.cacheFile == states[j].file
            else states[n].file == states[j].file
    decreases n
  {
    if j + 1 < n {
      FileIsFound(states, steps, saves, j, n - 1);
      NextReads(states[n - 1], steps[n - 1], saves[n - 1], states[n]);
    } else {
      assert Next(states[j], steps[j], saves[j], states[n]);
    }
  }

  /** Step `i` removes the file, `j` is the only restart until `n`, and the new process has read the file. */
  ghost predicate IsReset(states: seq<Memory>, steps: seq<Step>, saves: seq<bool>, i: nat, j: nat, n: nat) {
    && IsRun(states, steps, saves) && i < j < n <= |steps|
    && steps[i].Removed? && steps[j].Restarted?
    && NoRestart(steps, i, j) && NoRestart(steps, j + 1, n) && NoRemoval(steps, i + 1, n)
    && states[n].loaded
  }

  /**
    Exactly when a daily removal of the file makes the service look at the packages
    afresh: when it restarts before any watch saves.
  */
  lemma ResetIsHonouredExactly(
    states: seq<Memory>, steps: seq<Step>, saves: seq<bool>, i: nat, j: nat, n: nat)
    requires IsReset(states, steps, saves, i, j, n)
    ensures states[n].machine.cacheFile == None <==> forall k :: i < k < j ==> !saves[k]
  {
    RunLeavesTrail(states, steps, saves);
    assert Next(states[i], steps[i], saves[i], states[i + 1]);
    var k := LastSave(Files(states), steps, saves, i, j);
    FileIsFound(states, steps, saves, j, n);
  }

  /** Otherwise every answer given before the removal is also the new process's answer. */
  lemma OldAnswersSurviveReset(
    states: seq<Memory>, steps: seq<Step>, saves: seq<bool>, i: nat, j: nat, n: nat)
    requires IsReset(states, steps, saves, i, j, n)
    requires exists k :: i < k < j && saves[k]
    requires forall k :: i < k <= j ==> forall name :: name in states[k].Table() ==> Printable(name)
    ensures Extends(states[i].Table(), states[n].Table())
  {
    FileIsFound(states, steps, saves, j, n);
    RunLeavesTrail(states, steps, saves);
    assert Next(states[i], steps[i], saves[i], states[i + 1]);
    var k := LastSave(Files(states), steps, saves, i, j);
    OldTableComesBack(states, steps, saves, i, k);
    KnownGrows(states[n].machine, states[n].queries, 0);
  }
}
