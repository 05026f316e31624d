/**
  The check of the processes plugin: definitions are loaded, crossed off one by
  one as the list of running processes is walked, and what is left is reported.
*/
module ProcessWatch {
  import opened Wrappers
  import opened Matching
  import opened ProcessLoading

  datatype Process = Process(path: string, args: seq<string>)

  /** What one check writes for the administrator, in order. */
  datatype Event =
    | Running(name: string, process: nat)
    | RunningWhenDisabled(name: string)
    | Missing(name: string, priority: int)
    | NotResident(name: string)

  // ----- Naming a running process -----

  /** Position of the last slash of a path, -1 when it has none. */
  function LastSlash(path: string): (k: int)
    ensures -1 <= k < |path|
    ensures k >= 0 ==> path[k] == '/'
    ensures forall i :: k < i < |path| ==> path[i] != '/'
  {
    if path == [] then -1
    else if path[|path| - 1] == '/' then |path| - 1
    else LastSlash(path[..|path| - 1])
  }

  function BaseName(path: string): string {
    path[LastSlash(path) + 1..]
  }

  /** The base name begins at the one place after which there is no slash, and before which there is one or nothing. */
  lemma BaseNameExactly(path: string, cut: nat)
    requires cut <= |path| && forall i :: cut <= i < |path| ==> path[i] != '/'
    requires cut > 0 ==> path[cut - 1] == '/'
    ensures BaseName(path) == path[cut..]
  {
    assert LastSlash(path) == cut - 1;
  }

  /** The path followed by the non-empty arguments, each after one space. */
  function CommandLine(path: string, args: seq<string>): string {
    if args == [] then path
    else
      var last := |args| - 1;
      CommandLine(path, args[..last]) + (if |args[last]| == 0 then [] else [' '] + args[last])
  }

  /** The arguments that are not empty. */
  function Words(args: seq<string>): seq<string> {
    if args == [] then [] else (if |args[0]| == 0 then [] else [args[0]]) + Words(args[1..])
  }

  /** Words after one another, with a space before each. */
  function Spaced(words: seq<string>): string {
    if words == [] then [] else [' '] + words[0] + Spaced(words[1..])
  }

  lemma {:induction false} WordsGrow(args: seq<string>, arg: string)
    ensures Words(args + [arg]) == Words(args) + if |arg| == 0 then [] else [arg]
  {
    if args == [] {
      assert [arg][1..] == [];
    } else {
      assert (args + [arg])[1..] == args[1..] + [arg];
      WordsGrow(args[1..], arg);
    }
  }

  lemma {:induction false} SpacedGrows(words: seq<string>, word: string)
    ensures Spaced(words + [word]) == Spaced(words) + [' '] + word
  {
    if words == [] {
      assert [word][1..] == [];
    } else {
      assert (words + [word])[1..] == words[1..] + [word];
      SpacedGrows(words[1..], word);
    }
  }

  /** The command line is the path and the words that follow it, one space before each. */
  lemma {:induction false} CommandLineIsSpaced(path: string, args: seq<string>)
    ensures CommandLine(path, args) == path + Spaced(Words(args))
  {
    if args != [] {
      var last := |args| - 1;
      CommandLineIsSpaced(path, args[..last]);
      assert args == args[..last] + [args[last]];
      WordsGrow(args[..last], args[last]);
      var words := Words(args[..last]);
      if |args[last]| > 0 {
        SpacedGrows(words, args[last]);
        assert path + Spaced(words) + ([' '] + args[last]) == path + (Spaced(words) + [' '] + args[last]);
      } else {
        assert words + [] == words;
      }
    }
  }

  predicate Serves(host: Host, d: Definition, process: Process) {
    d.Accepts(host, BaseName(process.path), CommandLine(process.path, process.args))
  }

  ghost function Suits(host: Host, table: seq<Definition>, list: seq<Process>): Acceptable {
    (p: nat, d: nat) => p < |list| && d < |table| && Serves(host, table[d], list[p])
  }

  // ----- The report as a function of the pairing -----

  function FoundEvents(host: Host, d: Definition, p: nat): seq<Event> {
    [Running(d.name, p)]
    + if d.backend && !d.ExpectedToRun(host) then [RunningWhenDisabled(d.name)] else []
  }

  function MissingEvent(host: Host, d: Definition): Event {
    if !d.ExpectedToRun(host) then NotResident(d.name)
    else Missing(d.name, if d.backend && host.inMaintenance then 5 else if d.mandatory then 95 else 60)
  }

  /** The report on the processes walked, given the definition each of them served. */
  function FoundReport(host: Host, served: seq<Option<Definition>>): seq<Event> {
    if served == [] then []
    else
      var p := |served| - 1;
      FoundReport(host, served[..p])
      + if served[p].Some? then FoundEvents(host, served[p].value, p) else []
  }

  /** `served` lists what the first processes were paired with. */
  ghost predicate Served(table: seq<Definition>, pairing: map<nat, nat>, served: seq<Option<Definition>>) {
    && (forall p: nat :: p < |served| && p in pairing ==>
          pairing[p] < |table| && served[p] == Some(table[pairing[p]]))
    && (forall p: nat :: p < |served| && p !in pairing ==> served[p] == None)
  }

  /** `left` holds the definitions at some positions of the table. */
  ghost predicate Left(table: seq<Definition>, missing: seq<nat>, left: seq<Definition>) {
    && |left| == |missing|
    && forall k :: 0 <= k < |left| ==> missing[k] < |table| && left[k] == table[missing[k]]
  }

  ghost function MissingReport(host: Host, left: seq<Definition>): seq<Event> {
    seq(|left|, k requires 0 <= k < |left| => MissingEvent(host, left[k]))
  }

  /** Everything one successful check promises. */
  ghost predicate Outcome(
    host: Host, table: seq<Definition>, list: seq<Process>,
    pairing: map<nat, nat>, missing: seq<nat>,
    served: seq<Option<Definition>>, left: seq<Definition>, events: seq<Event>)
  {
    && Stable(Suits(host, table, list), |list|, |table|, pairing)
    && UnservedList(missing, pairing, |table|)
    && Left(table, missing, left)
    && Served(table, pairing, served) && |served| == |list|
    && events == FoundReport(host, served) + MissingReport(host, left)
  }

  /** The promise leaves no freedom: it determines the report. */
  lemma OutcomeIsUnique(
    host: Host, table: seq<Definition>, list: seq<Process>,
    pairing: map<nat, nat>, missing: seq<nat>,
    served: seq<Option<Definition>>, left: seq<Definition>, events: seq<Event>,
    pairing': map<nat, nat>, missing': seq<nat>,
    served': seq<Option<Definition>>, left': seq<Definition>, events': seq<Event>)
    requires Outcome(host, table, list, pairing, missing, served, left, events)
    requires Outcome(host, table, list, pairing', missing', served', left', events')
    ensures left == left' && events == events'
  {
    StableIsUnique(Suits(host, table, list), |list|, |table|, pairing, pairing');
    AscendingIsUnique(missing, missing');
    assert served == served';
  }

  lemma {:induction false} FoundIsNotMissing(
    host: Host, served: seq<Option<Definition>>, name: string, priority: int)
    ensures Missing(name, priority) !in FoundReport(host, served)
  {
    if served != [] {
      FoundIsNotMissing(host, served[..|served| - 1], name, priority);
    }
  }

  ghost predicate ReportsMissing(events: seq<Event>, name: string) {
    exists priority :: Missing(name, priority) in events
  }

  lemma UniqueNames(host: Host, confs: seq<Conf>)
    requires !Refused(host, confs)
    ensures var table := Loaded(host, confs).table;
            forall i: nat, k: nat :: i < |table| && k < |table| && table[i].name == table[k].name ==> i == k
  {
    var table := Loaded(host, confs).table;
    forall i: nat, k: nat | i < |table| && k < |table| && table[i].name == table[k].name
      ensures i == k
    {
      NamesAreUnique(host, confs, i, k);
    }
  }

  lemma MissingIsLeft(
    host: Host, table: seq<Definition>, missing: seq<nat>,
    served: seq<Option<Definition>>, left: seq<Definition>, d: nat)
    requires Left(table, missing, left) && d < |table|
    requires forall i: nat, k: nat :: i < |table| && k < |table| && table[i].name == table[k].name ==> i == k
    ensures ReportsMissing(FoundReport(host, served) + MissingReport(host, left), table[d].name)
       <==> table[d].ExpectedToRun(host) && d in missing
  {
    var found, report := FoundReport(host, served), MissingReport(host, left);
    if d in missing && table[d].ExpectedToRun(host) {
      var k: nat :| k < |missing| && missing[k] == d;
      assert report[k] == MissingEvent(host, table[d]);
      assert Missing(table[d].name, report[k].priority) in found + report;
    }
    if priority :| Missing(table[d].name, priority) in found + report {
      FoundIsNotMissing(host, served, table[d].name, priority);
      var k: nat :| k < |report| && report[k] == Missing(table[d].name, priority);
      assert missing[k] == d;
    }
  }

  lemma MissingEventIffUnserved(
    host: Host, confs: seq<Conf>, list: seq<Process>,
    pairing: map<nat, nat>, missing: seq<nat>,
    served: seq<Option<Definition>>, left: seq<Definition>, events: seq<Event>, d: nat)
    requires !Refused(host, confs) && d < |Loaded(host, confs).table|
    requires Outcome(host, Loaded(host, confs).table, list, pairing, missing, served, left, events)
    ensures var table := Loaded(host, confs).table;
            ReportsMissing(events, table[d].name) <==> table[d].ExpectedToRun(host) && d in missing
  {
    UniqueNames(host, confs);
    MissingIsLeft(host, Loaded(host, confs).table, missing, served, left, d);
  }

  /**
    A definition is reported missing exactly when it should run and every
    process that suits it was spent on an earlier definition.
  */
  lemma MissingExactly(
    host: Host, confs: seq<Conf>, list: seq<Process>,
    pairing: map<nat, nat>, missing: seq<nat>,
    served: seq<Option<Definition>>, left: seq<Definition>, events: seq<Event>, d: nat)
    requires !Refused(host, confs) && d < |Loaded(host, confs).table|
    requires Outcome(host, Loaded(host, confs).table, list, pairing, missing, served, left, events)
    ensures var table := Loaded(host, confs).table;
            (ReportsMissing(events, table[d].name)
             <==> table[d].ExpectedToRun(host)
                  && AllSpent(Suits(host, table, list), |list|, pairing, d))
  {
    var table := Loaded(host, confs).table;
    UnservedExactly(Suits(host, table, list), |list|, |table|, pairing, d);
    MissingEventIffUnserved(host, confs, list, pairing, missing, served, left, events, d);
  }

  /**
    When no listed process suits both this definition and an earlier one,
    missing means that nothing suitable runs.
  */
  lemma MissingWhenUnambiguous(
    host: Host, confs: seq<Conf>, list: seq<Process>,
    pairing: map<nat, nat>, missing: seq<nat>,
    served: seq<Option<Definition>>, left: seq<Definition>, events: seq<Event>, d: nat)
    requires !Refused(host, confs) && d < |Loaded(host, confs).table|
    requires Outcome(host, Loaded(host, confs).table, list, pairing, missing, served, left, events)
    requires var table := Loaded(host, confs).table;
             forall p: nat, a: nat :: p < |list| && a < d ==>
               !(Serves(host, table[a], list[p]) && Serves(host, table[d], list[p]))
    ensures var table := Loaded(host, confs).table;
            (ReportsMissing(events, table[d].name)
             <==> table[d].ExpectedToRun(host) && forall p: nat :: p < |list| ==> !Serves(host, table[d], list[p]))
  {
    var table := Loaded(host, confs).table;
    MissingExactly(host, confs, list, pairing, missing, served, left, events, d);
    forall p: nat | p < |list| && Serves(host, table[d], list[p])
      ensures !(p in pairing && pairing[p] < d)
    {
      assert p in pairing ==> Suits(host, table, list)(p, pairing[p]);
    }
  }

  // ----- The steps of the walk -----

  /** The first `i` processes are dealt with. */
  ghost predicate Walked(
    host: Host, table: seq<Definition>, list: seq<Process>, i: nat,
    pairing: map<nat, nat>, missing: seq<nat>, served: seq<Option<Definition>>, left: seq<Definition>)
  {
    && Stable(Suits(host, table, list), i, |table|, pairing)
    && UnservedList(missing, pairing, |table|)
    && Left(table, missing, left)
    && Served(table, pairing, served) && |served| == i
  }

  lemma StartWalk(host: Host, table: seq<Definition>, list: seq<Process>) returns (missing: seq<nat>)
    ensures Walked(host, table, list, 0, map[], missing, [], table)
  {
    missing := AllUnserved(|table|);
  }

  lemma FoundReportGrows(host: Host, served: seq<Option<Definition>>, got: Option<Definition>)
    ensures FoundReport(host, served + [got])
         == FoundReport(host, served) + if got.Some? then FoundEvents(host, got.value, |served|) else []
  {
    assert (served + [got])[..|served|] == served;
  }

  /** Crossing off the first definition left that suits process `i`. */
  lemma CrossOff(
    host: Host, table: seq<Definition>, list: seq<Process>, i: nat,
    pairing: map<nat, nat>, missing: seq<nat>, served: seq<Option<Definition>>, left: seq<Definition>, j: nat)
    requires Walked(host, table, list, i, pairing, missing, served, left)
    requires i < |list| && j < |left| && Serves(host, left[j], list[i])
    requires forall k :: 0 <= k < j ==> !Serves(host, left[k], list[i])
    ensures Walked(host, table, list, i + 1, pairing[i := missing[j]],
              missing[..j] + missing[j + 1..], served + [Some(left[j])], left[..j] + left[j + 1..])
  {
    forall k | 0 <= k < |missing|
      ensures Suits(host, table, list)(i, missing[k]) == Serves(host, left[k], list[i])
    {
    }
    Cross(Suits(host, table, list), i, |table|, pairing, missing, j);
  }

  lemma PassOver(
    host: Host, table: seq<Definition>, list: seq<Process>, i: nat,
    pairing: map<nat, nat>, missing: seq<nat>, served: seq<Option<Definition>>, left: seq<Definition>)
    requires Walked(host, table, list, i, pairing, missing, served, left)
    requires i < |list|
    requires forall k :: 0 <= k < |left| ==> !Serves(host, left[k], list[i])
    ensures Walked(host, table, list, i + 1, pairing, missing, served + [None], left)
  {
    forall k | 0 <= k < |missing|
      ensures !Suits(host, table, list)(i, missing[k])
    {
      assert !Serves(host, left[k], list[i]);
    }
    Pass(Suits(host, table, list), i, |table|, pairing, missing);
  }

  /** Once every definition is crossed off, the processes not looked at change nothing. */
  lemma {:induction false} NoneLeft(
    host: Host, table: seq<Definition>, list: seq<Process>, i: nat,
    pairing: map<nat, nat>, missing: seq<nat>, served: seq<Option<Definition>>, left: seq<Definition>)
    returns (all: seq<Option<Definition>>)
    requires Walked(host, table, list, i, pairing, missing, served, left)
    requires i == |list| || (i < |list| && left == [])
    ensures Walked(host, table, list, |list|, pairing, missing, all, left)
    ensures FoundReport(host, all) == FoundReport(host, served)
    decreases |list| - i
  {
    all := served;
    if i < |list| {
      PassOver(host, table, list, i, pairing, missing, served, left);
      FoundReportGrows(host, served, None);
      all := NoneLeft(host, table, list, i + 1, pairing, missing, served + [None], left);
    }
  }

  /** Position of the first definition that is good; their number when none is. */
  lemma FirstGood(left: seq<Definition>, good: Definition -> bool) returns (j: nat)
    ensures j <= |left| && (j < |left| ==> good(left[j]))
    ensures forall k :: 0 <= k < j ==> !good(left[k])
  {
    j := 0;
    while j < |left| && !good(left[j])
      invariant j <= |left|
      invariant forall k :: 0 <= k < j ==> !good(left[k])
    {
      j := j + 1;
    }
  }

  lemma {:induction false} WalkOn(
    host: Host, table: seq<Definition>, list: seq<Process>, i: nat,
    pairing: map<nat, nat>, missing: seq<nat>, served: seq<Option<Definition>>, left: seq<Definition>)
    returns (pairing': map<nat, nat>, missing': seq<nat>, served': seq<Option<Definition>>, left': seq<Definition>)
    requires i <= |list| && Walked(host, table, list, i, pairing, missing, served, left)
    ensures Walked(host, table, list, |list|, pairing', missing', served', left')
    decreases |list| - i
  {
    if i == |list| {
      pairing', missing', served', left' := pairing, missing, served, left;
    } else {
      var j := FirstGood(left, d => Serves(host, d, list[i]));
      if j < |left| {
        CrossOff(host, table, list, i, pairing, missing, served, left, j);
        pairing', missing', served', left' := WalkOn(host, table, list, i + 1, pairing[i := missing[j]],
          missing[..j] + missing[j + 1..], served + [Some(left[j])], left[..j] + left[j + 1..]);
      } else {
        PassOver(host, table, list, i, pairing, missing, served, left);
        pairing', missing', served', left' :=
          WalkOn(host, table, list, i + 1, pairing, missing, served + [None], left);
      }
    }
  }

  /** Whatever the definitions and the processes, a check has an outcome. */
  lemma OutcomeExists(host: Host, table: seq<Definition>, list: seq<Process>)
    returns (pairing: map<nat, nat>, missing: seq<nat>,
             served: seq<Option<Definition>>, left: seq<Definition>, events: seq<Event>)
    ensures Outcome(host, table, list, pairing, missing, served, left, events)
  {
    missing := StartWalk(host, table, list);
    pairing, missing, served, left := WalkOn(host, table, list, 0, map[], missing, [], table);
    events := FoundReport(host, served) + MissingReport(host, left);
  }

  // ----- The report, event by event -----

  /** Which processes a file is about, by its parameters. */
  lemma ServesExactly(host: Host, conf: Conf, x: Process)
    requires "name" in conf
    ensures var serves := Serves(host, Declared(host, conf), x);
            var line := x.path + Spaced(Words(x.args));
            && (!Given(conf, "command") && !Given(conf, "match") ==> (serves <==> BaseName(x.path) == conf["name"]))
            && (Given(conf, "command") && !Given(conf, "match") ==> (serves <==> BaseName(x.path) == conf["command"]))
            && (!Given(conf, "command") && Given(conf, "match") ==>
                  (serves <==> host.regexMatches(line, conf["match"])))
            && (Given(conf, "command") && Given(conf, "match") ==>
                  (serves <==> BaseName(x.path) == conf["command"] && host.regexMatches(line, conf["match"])))
  {
    CommandLineIsSpaced(x.path, x.args);
    AcceptsExactly(host, conf, BaseName(x.path), x.path + Spaced(Words(x.args)));
  }

  /** A process served by a backend that should not run. */
  predicate IsDisabled(host: Host, got: Option<Definition>, name: string) {
    got.Some? && got.value.name == name && got.value.backend && !got.value.ExpectedToRun(host)
  }

  lemma {:induction false} FoundExactly(host: Host, served: seq<Option<Definition>>, name: string, p: nat)
    ensures Running(name, p) in FoundReport(host, served)
       <==> p < |served| && served[p].Some? && served[p].value.name == name
    ensures NotResident(name) !in FoundReport(host, served)
    decreases |served|
  {
    if served != [] {
      var before := served[..|served| - 1];
      FoundExactly(host, before, name, p);
      assert p < |before| ==> before[p] == served[p];
    }
  }

  lemma {:induction false} DisabledExactly(host: Host, served: seq<Option<Definition>>, name: string)
    ensures RunningWhenDisabled(name) in FoundReport(host, served)
       <==> exists q :: 0 <= q < |served| && IsDisabled(host, served[q], name)
    decreases |served|
  {
    if served != [] {
      var last := |served| - 1;
      var before := served[..last];
      DisabledExactly(host, before, name);
      assert forall q :: 0 <= q < last ==> before[q] == served[q];
      if q :| 0 <= q < last && IsDisabled(host, before[q], name) {
        assert IsDisabled(host, served[q], name);
      }
    }
  }

  /** What is reported about one definition left over, and nothing else is. */
  lemma LeftExactly(host: Host, left: seq<Definition>, name: string, priority: int)
    ensures Missing(name, priority) in MissingReport(host, left)
       <==> exists k :: 0 <= k < |left| && left[k].name == name && left[k].ExpectedToRun(host)
                     && priority == (if left[k].backend && host.inMaintenance then 5
                                     else if left[k].mandatory then 95 else 60)
    ensures NotResident(name) in MissingReport(host, left)
       <==> exists k :: 0 <= k < |left| && left[k].name == name && !left[k].ExpectedToRun(host)
    ensures forall p :: Running(name, p) !in MissingReport(host, left)
    ensures RunningWhenDisabled(name) !in MissingReport(host, left)
  {
    var report := MissingReport(host, left);
    assert forall k :: 0 <= k < |left| ==> report[k] == MissingEvent(host, left[k]);
    if k :| 0 <= k < |left| && left[k].name == name && left[k].ExpectedToRun(host)
            && priority == (if left[k].backend && host.inMaintenance then 5 else if left[k].mandatory then 95 else 60)
    {
      assert report[k] == Missing(name, priority);
    }
    if k :| 0 <= k < |left| && left[k].name == name && !left[k].ExpectedToRun(host) {
      assert report[k] == NotResident(name);
    }
  }

  /** The priority a missing process is reported with, by the parameters of its files. */
  lemma MissingPriorityExactly(
    host: Host, confs: seq<Conf>, list: seq<Process>,
    pairing: map<nat, nat>, missing: seq<nat>,
    served: seq<Option<Definition>>, left: seq<Definition>, events: seq<Event>, i: nat, priority: int)
    requires !Refused(host, confs) && i < |confs| && "name" in confs[i]
    requires Outcome(host, Loaded(host, confs).table, list, pairing, missing, served, left, events)
    requires forall j :: 0 <= j < i ==> !Names(confs[j], confs[i]["name"])
    requires Missing(confs[i]["name"], priority) in events
    ensures priority
         == if Given(confs[i], "service") && "backend" in confs[i] && host.isTrue(confs[i]["backend"])
               && host.inMaintenance then 5
            else if exists j ::
                      && 0 <= j < |confs| && "name" in confs[j] && confs[j]["name"] == confs[i]["name"]
                      && "mandatory" in confs[j] && host.isTrue(confs[j]["mandatory"]) then 95
            else 60
  {
    var name := confs[i]["name"];
    FoundIsNotMissing(host, served, name, priority);
    LeftExactly(host, left, name, priority);
    var k :| 0 <= k < |left| && left[k].name == name && left[k].ExpectedToRun(host)
             && priority == (if left[k].backend && host.inMaintenance then 5 else if left[k].mandatory then 95 else 60);
    var first := EntryIsFirstFile(host, confs, missing[k]);
    assert first == i;
  }

  lemma RunningIsServed(
    host: Host, served: seq<Option<Definition>>, left: seq<Definition>, name: string, p: nat)
    ensures Running(name, p) in FoundReport(host, served) + MissingReport(host, left)
       <==> p < |served| && served[p].Some? && served[p].value.name == name
  {
    FoundExactly(host, served, name, p);
    LeftExactly(host, left, name, 0);
  }

  lemma OnlyOneServed(table: seq<Definition>, pairing: map<nat, nat>, served: seq<Option<Definition>>, p: nat)
    requires |table| == 1 && Served(table, pairing, served) && p < |served|
    ensures served[p].Some? <==> p in pairing
    ensures served[p].Some? ==> served[p].value == table[0]
  {
  }

  /** With a single definition exactly the first process that suits it is found running. */
  lemma SingleIsFirst(
    host: Host, table: seq<Definition>, list: seq<Process>,
    pairing: map<nat, nat>, missing: seq<nat>,
    served: seq<Option<Definition>>, left: seq<Definition>, events: seq<Event>, p: nat)
    requires |table| == 1 && Outcome(host, table, list, pairing, missing, served, left, events)
    ensures Running(table[0].name, p) in events
       <==> p < |list| && Serves(host, table[0], list[p])
            && forall q: nat :: q < p ==> !Serves(host, table[0], list[q])
  {
    var ok := Suits(host, table, list);
    RunningIsServed(host, served, left, table[0].name, p);
    if p < |list| { OnlyOneServed(table, pairing, served, p); }
    StableOfOne(ok, |list|, pairing, p);
    assert forall q: nat :: q < |list| ==> (ok(q, 0) <==> Serves(host, table[0], list[q]));
  }

  /**
    A single file that gives no more than a name is about the processes of that base
    name: it is reported missing exactly when none is listed, and found running at
    the first one otherwise.
  */
  lemma NameAloneIsReported(
    host: Host, conf: Conf, list: seq<Process>,
    pairing: map<nat, nat>, missing: seq<nat>,
    served: seq<Option<Definition>>, left: seq<Definition>, events: seq<Event>, p: nat)
    requires "name" in conf && !Given(conf, "command") && !Given(conf, "match") && !Given(conf, "service")
    requires Outcome(host, Loaded(host, [conf]).table, list, pairing, missing, served, left, events)
    ensures ReportsMissing(events, conf["name"])
       <==> forall q: nat :: q < |list| ==> BaseName(list[q].path) != conf["name"]
    ensures Running(conf["name"], p) in events
       <==> p < |list| && BaseName(list[p].path) == conf["name"]
            && forall q: nat :: q < p ==> BaseName(list[q].path) != conf["name"]
  {
    OneFile(host, conf);
    ExpectedExactly(host, conf);
    forall q: nat | q < |list|
      ensures Serves(host, Declared(host, conf), list[q]) <==> BaseName(list[q].path) == conf["name"]
    {
      ServesExactly(host, conf, list[q]);
    }
    SingleIsFirst(host, [Declared(host, conf)], list, pairing, missing, served, left, events, p);
    MissingWhenUnambiguous(host, [conf], list, pairing, missing, served, left, events, 0);
  }

  lemma OneFile(host: Host, conf: Conf)
    requires "name" in conf
    ensures Loaded(host, [conf]) == Loading([Declared(host, conf)], false) && !Refused(host, [conf])
  {
    assert [conf][..0] == [];
    LoadedExactly(host, [conf]);
  }

  // ----- Whether "missing" can be taken at its word -----

  /** Definition `b` should run, and process `x` suits it and the earlier definition `a`. */
  predicate Shared(host: Host, table: seq<Definition>, x: Process, a: nat, b: nat) {
    && a < b < |table| && table[b].ExpectedToRun(host)
    && Serves(host, table[a], x) && Serves(host, table[b], x)
  }

  ghost predicate Overlapping(host: Host, table: seq<Definition>) {
    exists x: Process, a: nat, b: nat :: Shared(host, table, x, a, b)
  }

  /** A check of `list` reports definition `d` missing. */
  ghost predicate Misses(host: Host, table: seq<Definition>, list: seq<Process>, d: nat)
    requires d < |table|
  {
    exists pairing, missing, served, left, events ::
      Outcome(host, table, list, pairing, missing, served, left, events) && ReportsMissing(events, table[d].name)
  }

  /** Whatever runs, a definition reported missing is one that nothing listed suits. */
  ghost predicate MissingIsTrue(host: Host, table: seq<Definition>) {
    forall list: seq<Process>, d: nat, p: nat ::
      d < |table| && p < |list| && Misses(host, table, list, d) ==> !Serves(host, table[d], list[p])
  }

  lemma SharedIsMissed(host: Host, confs: seq<Conf>, x: Process, a: nat, b: nat)
    requires !Refused(host, confs) && a < b < |Loaded(host, confs).table|
    requires Loaded(host, confs).table[b].ExpectedToRun(host)
    requires Suits(host, Loaded(host, confs).table, [x])(0, a)
    ensures Misses(host, Loaded(host, confs).table, [x], b)
  {
    var table := Loaded(host, confs).table;
    var pairing, missing, served, left, events := OutcomeExists(host, table, [x]);
    SharedIsSpent(Suits(host, table, [x]), |[x]|, |table|, pairing, a, b);
    MissingExactly(host, confs, [x], pairing, missing, served, left, events, b);
  }

  /** One process two definitions share is enough to have the later one reported, */
  lemma SharedProcessMisleads(host: Host, confs: seq<Conf>, x: Process, a: nat, b: nat)
    requires !Refused(host, confs) && Shared(host, Loaded(host, confs).table, x, a, b)
    ensures Misses(host, Loaded(host, confs).table, [x], b) && !MissingIsTrue(host, Loaded(host, confs).table)
  {
    SharedIsMissed(host, confs, x, a, b);
    assert Serves(host, Loaded(host, confs).table[b], [x][0]);
  }

  /** and nothing else has a definition reported that a listed process suits. */
  lemma OnlySharedProcessMisleads(host: Host, confs: seq<Conf>, list: seq<Process>, d: nat, p: nat)
    requires !Refused(host, confs) && d < |Loaded(host, confs).table| && p < |list|
    requires Misses(host, Loaded(host, confs).table, list, d) && Serves(host, Loaded(host, confs).table[d], list[p])
    ensures Overlapping(host, Loaded(host, confs).table)
  {
    var table := Loaded(host, confs).table;
    var pairing, missing, served, left, events :|
      Outcome(host, table, list, pairing, missing, served, left, events) && ReportsMissing(events, table[d].name);
    MissingExactly(host, confs, list, pairing, missing, served, left, events, d);
    assert Suits(host, table, list)(p, pairing[p]);
    assert Shared(host, table, list[p], pairing[p], d);
  }

  /**
    Exactly which definition files make "missing" mean that nothing suitable
    runs, whatever runs: those without a process that suits both a definition
    that should run and an earlier one.
  */
  lemma MissingIsTrueExactly(host: Host, confs: seq<Conf>)
    requires !Refused(host, confs)
    ensures MissingIsTrue(host, Loaded(host, confs).table) <==> !Overlapping(host, Loaded(host, confs).table)
  {
    var table := Loaded(host, confs).table;
    if Overlapping(host, table) {
      var x: Process, a: nat, b: nat :| Shared(host, table, x, a, b);
      SharedProcessMisleads(host, confs, x, a, b);
    } else {
      forall list: seq<Process>, d: nat, p: nat | d < |table| && p < |list| && Misses(host, table, list, d)
        ensures !Serves(host, table[d], list[p])
      {
        if Serves(host, table[d], list[p]) {
          OnlySharedProcessMisleads(host, confs, list, d, p);
        }
      }
    }
  }

  /** Two files: `a` wants the command `sh`, `b` a whole command line its pattern matches. */
  function TwoFiles(): seq<Conf> {
    [map["name" := "a", "command" := "sh"], map["name" := "b", "match" := "sh x"]]
  }

  lemma TwoFilesLoaded(host: Host)
    ensures Loaded(host, TwoFiles())
         == Loading([Definition("a", "sh", "", "", false, false, true, true, false),
                     Definition("b", "", "", "sh x", false, false, true, true, false)], false)
  {
    var a, b := TwoFiles()[0], TwoFiles()[1];
    assert "service"[0] != "command"[0] && "backend"[0] != "command"[0];
    assert Loaded(host, TwoFiles()[..1][..0]) == Loading([], false);
    assert TwoFiles()[..1] == [a];
    assert Loaded(host, [a]).table == [Declared(host, a)];
    assert "a"[0] != "b"[0];
    assert Find([Declared(host, a)], "b") == 1;
  }

  lemma OneArgument(path: string, arg: string)
    requires |arg| > 0
    ensures CommandLine(path, []) == path && CommandLine(path, [arg]) == path + [' '] + arg
  {
    assert [arg][..0] == [];
    assert path + ([' '] + arg) == path + [' '] + arg;
  }

  lemma NamesOfTwo()
    ensures BaseName("sh") == "sh" && CommandLine("sh", []) == "sh" && CommandLine("sh", ["x"]) == "sh x"
  {
    BaseNameExactly("sh", 0);
    assert "sh"[0..] == "sh";
    OneArgument("sh", "x");
    assert "sh" + [' '] + "x" == "sh x";
  }

  lemma TwoDefinitionsServe(host: Host)
    requires host.regexMatches("sh x", "sh x") && !host.regexMatches("sh", "sh x")
    ensures var a := Definition("a", "sh", "", "", false, false, true, true, false);
            var b := Definition("b", "", "", "sh x", false, false, true, true, false);
            && b.ExpectedToRun(host)
            && Serves(host, a, Process("sh", ["x"])) && Serves(host, b, Process("sh", ["x"]))
            && Serves(host, a, Process("sh", [])) && !Serves(host, b, Process("sh", []))
  {
    NamesOfTwo();
  }

  /** Definition `a` takes both processes, `b` only the first. */
  lemma TwoFilesServe(host: Host)
    requires host.regexMatches("sh x", "sh x") && !host.regexMatches("sh", "sh x")
    ensures !Refused(host, TwoFiles()) && |Loaded(host, TwoFiles()).table| == 2
    ensures var table := Loaded(host, TwoFiles()).table;
            && table[1].ExpectedToRun(host)
            && Serves(host, table[0], Process("sh", ["x"])) && Serves(host, table[1], Process("sh", ["x"]))
            && Serves(host, table[0], Process("sh", [])) && !Serves(host, table[1], Process("sh", []))
  {
    TwoFilesLoaded(host);
    LoadedExactly(host, TwoFiles());
    TwoDefinitionsServe(host);
  }

  /** Two definitions and two processes, all suiting each other but the last pair. */
  predicate Crossed(host: Host, table: seq<Definition>, list: seq<Process>) {
    && |table| == 2 && |list| == 2 && table[1].ExpectedToRun(host)
    && Serves(host, table[0], list[0]) && Serves(host, table[1], list[0])
    && Serves(host, table[0], list[1]) && !Serves(host, table[1], list[1])
  }

  /**
    Each definition could have a process of its own, yet the second is reported
    missing, because the process that suits it was spent on the first.
  */
  lemma CrossedIsHalfServed(host: Host, confs: seq<Conf>, list: seq<Process>)
    returns (pairing: map<nat, nat>, missing: seq<nat>,
             served: seq<Option<Definition>>, left: seq<Definition>, events: seq<Event>)
    requires !Refused(host, confs) && Crossed(host, Loaded(host, confs).table, list)
    ensures var table := Loaded(host, confs).table;
            && Outcome(host, table, list, pairing, missing, served, left, events)
            && |pairing| == 1 && ReportsMissing(events, table[1].name)
            && IsMatching(Suits(host, table, list), |list|, |table|, map[0 := 1, 1 := 0])
  {
    var table := Loaded(host, confs).table;
    pairing, missing, served, left, events := OutcomeExists(host, table, list);
    StableOfTwo(Suits(host, table, list), |list|, |table|, pairing);
    assert Unserved(pairing, 1);
    MissingEventIffUnserved(host, confs, list, pairing, missing, served, left, events, 1);
  }

  /** Two files and two processes for which the factor two is met. */
  lemma HalfIsTight(host: Host)
    returns (pairing: map<nat, nat>, missing: seq<nat>,
             served: seq<Option<Definition>>, left: seq<Definition>, events: seq<Event>)
    requires host.regexMatches("sh x", "sh x") && !host.regexMatches("sh", "sh x")
    ensures var list := [Process("sh", ["x"]), Process("sh", [])];
            var table := Loaded(host, TwoFiles()).table;
            && !Refused(host, TwoFiles()) && Crossed(host, table, list)
            && Outcome(host, table, list, pairing, missing, served, left, events)
            && |pairing| == 1 && ReportsMissing(events, table[1].name)
            && IsMatching(Suits(host, table, list), |list|, |table|, map[0 := 1, 1 := 0])
  {
    TwoFilesServe(host);
    pairing, missing, served, left, events :=
      CrossedIsHalfServed(host, TwoFiles(), [Process("sh", ["x"]), Process("sh", [])]);
  }

  lemma {:induction false} LoadedStopsAtRefusal(host: Host, confs: seq<Conf>, k: nat)
    requires k <= |confs| && Loaded(host, confs[..k]).refused
    ensures Loaded(host, confs) == Loaded(host, confs[..k])
    decreases |confs|
  {
    if k == |confs| {
      assert confs[..k] == confs;
    } else {
      assert confs[..|confs| - 1][..k] == confs[..k];
      LoadedStopsAtRefusal(host, confs[..|confs| - 1], k);
    }
  }

  // ----- The plugin -----

  class Plugin {
    var processes: seq<Definition>
    var validBackends: seq<string>

    /** The list of backends is read once; it never differs from the configuration. */
    ghost predicate Valid(host: Host)
      reads this
    {
      validBackends == [] || validBackends == host.backends
    }

    constructor ()
      ensures processes == [] && validBackends == []
    {
      processes, validBackends := [], [];
    }

    method IsProcessExpectedToRun(host: Host, d: Definition) returns (expected: bool)
      requires Valid(host)
      modifies this`validBackends
      ensures Valid(host) && expected == d.ExpectedToRun(host)
    {
      if |d.service| == 0 { return true; }
      if d.backend {
        if host.backendsDisabled { return false; }
        if validBackends == [] { validBackends := host.backends; }
        return d.service in validBackends;
      }
      return d.serviceEnabled || d.serviceActive;
    }

    /** Loads one file; `false` stands for the exception that ends the loading. */
    method LoadProcess(host: Host, conf: Conf) returns (ok: bool)
      modifies this`processes
      ensures Loading(processes, !ok) == Added(host, old(processes), conf)
    {
      if "name" !in conf { return true; }
      var it := 0;
      while it < |processes| && processes[it].name != conf["name"]
        invariant 0 <= it <= |processes|
        invariant forall i :: 0 <= i < it ==> processes[i].name != conf["name"]
      {
        it := it + 1;
      }
      if it < |processes| {
        if !Flag(host, conf, "allow_duplicates") || !processes[it].allowDuplicates { return false; }
        if Flag(host, conf, "mandatory") {
          processes := processes[it := processes[it].(mandatory := true)];
        }
        return true;
      }
      processes := processes + [Declared(host, conf)];
      return true;
    }

    method LoadProcesses(host: Host, confs: seq<Conf>) returns (ok: bool)
      modifies this`processes
      ensures Loading(processes, !ok) == Loaded(host, confs)
      ensures ok <==> !Refused(host, confs)
      ensures ok ==> Represents(host, confs, processes)
    {
      LoadedExactly(host, confs);
      processes := [];
      var i := 0;
      while i < |confs|
        invariant 0 <= i <= |confs|
        invariant Loading(processes, false) == Loaded(host, confs[..i])
      {
        assert confs[..i + 1][..i] == confs[..i];
        assert Loaded(host, confs[..i + 1]) == Added(host, processes, confs[i]);
        ok := LoadProcess(host, confs[i]);
        if !ok {
          LoadedStopsAtRefusal(host, confs, i + 1);
          return false;
        }
        i := i + 1;
      }
      assert confs[..i] == confs;
      return true;
    }

    method CommandLineOf(process: Process) returns (commandLine: string)
      ensures commandLine == CommandLine(process.path, process.args)
    {
      commandLine := process.path;
      for c := 0 to |process.args|
        invariant commandLine == CommandLine(process.path, process.args[..c])
      {
        assert process.args[..c + 1][..c] == process.args[..c];
        if |process.args[c]| > 0 {
          commandLine := commandLine + ([' '] + process.args[c]);
        }
      }
      assert process.args[..|process.args|] == process.args;
    }

    /** The first definition left that accepts the process. */
    method FindMatch(host: Host, process: Process) returns (j: nat)
      ensures j <= |processes|
      ensures j < |processes| ==> Serves(host, processes[j], process)
      ensures forall k :: 0 <= k < j ==> !Serves(host, processes[k], process)
    {
      var baseName := BaseName(process.path);
      var line := CommandLineOf(process);
      j := 0;
      while j < |processes|
        invariant j <= |processes|
        invariant forall k :: 0 <= k < j ==> !Serves(host, processes[k], process)
      {
        if processes[j].Accepts(host, baseName, line) { return; }
        j := j + 1;
      }
    }

    /** Matches one running process, erasing the definition it serves. */
    method CheckProcess(
      host: Host, process: Process, ghost list: seq<Process>, i: nat, ghost table: seq<Definition>,
      ghost pairing: map<nat, nat>, ghost missing: seq<nat>, ghost served: seq<Option<Definition>>)
      returns (events: seq<Event>, got: Option<Definition>, ghost pairing': map<nat, nat>, ghost missing': seq<nat>)
      requires Valid(host) && i < |list| && list[i] == process
      requires Walked(host, table, list, i, pairing, missing, served, processes)
      modifies this
      ensures Valid(host)
      ensures Walked(host, table, list, i + 1, pairing', missing', served + [got], processes)
      ensures events == if got.Some? then FoundEvents(host, got.value, i) else []
    {
      events, got, pairing', missing' := [], None, pairing, missing;
      var j := FindMatch(host, process);
      if j < |processes| {
        var d := processes[j];
        got := Some(d);
        events := [Running(d.name, i)];
        if d.backend {
          var expected := IsProcessExpectedToRun(host, d);
          if !expected { events := events + [RunningWhenDisabled(d.name)]; }
        }
        CrossOff(host, table, list, i, pairing, missing, served, processes, j);
        pairing' := pairing[i := missing[j]];
        missing' := missing[..j] + missing[j + 1..];
        processes := processes[..j] + processes[j + 1..];
      } else {
        PassOver(host, table, list, i, pairing, missing, served, processes);
      }
    }

    /** Walks the running processes until none or no definition is left. */
    method MatchRunning(host: Host, list: seq<Process>)
      returns (events: seq<Event>, ghost pairing: map<nat, nat>, ghost missing: seq<nat>,
               ghost served: seq<Option<Definition>>)
      requires Valid(host)
      modifies this
      ensures Valid(host)
      ensures Walked(host, old(processes), list, |list|, pairing, missing, served, processes)
      ensures events == FoundReport(host, served)
    {
      ghost var table := processes;
      events, pairing, served := [], map[], [];
      missing := StartWalk(host, table, list);
      var i := 0;
      while i < |list| && processes != []
        invariant 0 <= i <= |list| && Valid(host)
        invariant Walked(host, table, list, i, pairing, missing, served, processes)
        invariant events == FoundReport(host, served)
      {
        var more, got;
        more, got, pairing, missing := CheckProcess(host, list[i], list, i, table, pairing, missing, served);
        FoundReportGrows(host, served, got);
        events := events + more;
        served := served + [got];
        i := i + 1;
      }
      served := NoneLeft(host, table, list, i, pairing, missing, served, processes);
    }

    /** Reports every definition left over. */
    method ReportMissing(host: Host) returns (events: seq<Event>)
      requires Valid(host)
      modifies this`validBackends
      ensures Valid(host)
      ensures events == MissingReport(host, processes)
    {
      events := [];
      for j := 0 to |processes|
        invariant Valid(host)
        invariant events == MissingReport(host, processes[..j])
      {
        var d := processes[j];
        var expected := IsProcessExpectedToRun(host, d);
        if expected {
          var priority := if d.mandatory then 95 else 60;
          if d.backend && host.inMaintenance { priority := 5; }
          events := events + [Missing(d.name, priority)];
        } else {
          events := events + [NotResident(d.name)];
        }
      }
      assert processes[..|processes|] == processes;
    }

    method OnProcessWatch(host: Host, confs: seq<Conf>, list: seq<Process>)
      returns (r: Result<seq<Event>, string>, ghost pairing: map<nat, nat>, ghost missing: seq<nat>,
               ghost served: seq<Option<Definition>>)
      requires Valid(host)
      modifies this
      ensures Valid(host)
      ensures r.Failure? <==> Refused(host, confs)
      ensures r.Success? ==>
                var table := Loaded(host, confs).table;
                Outcome(host, table, list, pairing, missing, served, processes, r.value)
    {
      pairing, missing, served := map[], [], [];
      var loaded := LoadProcesses(host, confs);
      if !loaded { return Failure("duplicates are not allowed"), pairing, missing, served; }
      var found, left;
      found, pairing, missing, served := MatchRunning(host, list);
      left := ReportMissing(host);
      r := Success(found + left);
    }
  }
}
