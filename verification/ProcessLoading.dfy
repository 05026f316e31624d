/**
  Process definitions of the processes plugin: what one configuration file
  declares, which running process it accepts, and what loading a directory of
  such files leaves in the table.
*/
module ProcessLoading {
  import opened Wrappers

  /** One parsed `.conf` file: parameter names to their values. */
  type Conf = map<string, string>

  /** Everything the plugin asks the machine, taken as given. */
  datatype Host = Host(
    isTrue: string -> bool,
    serviceEnabled: string -> bool,
    serviceActive: string -> bool,
    regexMatches: (string, string) -> bool,
    backendsDisabled: bool,   // backend_status is "disabled"
    backends: seq<string>,
    inMaintenance: bool)

  datatype Definition = Definition(
    name: string,
    command: string,
    service: string,
    pattern: string,
    mandatory: bool,
    allowDuplicates: bool,
    serviceEnabled: bool,
    serviceActive: bool,
    backend: bool)
  {
    /** Does this definition accept a process, given its base name and command line? */
    predicate Accepts(host: Host, baseName: string, commandLine: string) {
      && (|command| > 0 ==> command == baseName)
      && (|pattern| > 0 ==> host.regexMatches(commandLine, pattern))
      && (|command| == 0 && |pattern| == 0 ==> name == baseName)
    }

    predicate ExpectedToRun(host: Host) {
      if |service| == 0 then true
      else if backend then !host.backendsDisabled && service in host.backends
      else serviceEnabled || serviceActive
    }
  }

  predicate Flag(host: Host, conf: Conf, parameter: string) {
    parameter in conf && host.isTrue(conf[parameter])
  }

  function Text(conf: Conf, parameter: string): string {
    if parameter in conf then conf[parameter] else []
  }

  /** The definition a file declares on its own. */
  function Declared(host: Host, conf: Conf): Definition
    requires "name" in conf
  {
    var service := Text(conf, "service");
    var enabled := |service| == 0 || host.serviceEnabled(service);
    Definition(
      conf["name"], Text(conf, "command"), service, Text(conf, "match"),
      Flag(host, conf, "mandatory"), Flag(host, conf, "allow_duplicates"),
      enabled, enabled && (|service| == 0 || host.serviceActive(service)),
      |service| > 0 && Flag(host, conf, "backend"))
  }

  predicate Names(conf: Conf, name: string) {
    "name" in conf && conf["name"] == name
  }

  // ----- Loading one file after the other -----

  /** The table so far, and whether a file was refused (which ends the loading). */
  datatype Loading = Loading(table: seq<Definition>, refused: bool)

  /** Position of the definition of that name; the length of the table when absent. */
  function Find(table: seq<Definition>, name: string): (k: nat)
    ensures k <= |table|
    ensures k < |table| ==> table[k].name == name
    ensures forall i :: 0 <= i < k ==> table[i].name != name
  {
    if table == [] then 0 else if table[0].name == name then 0 else 1 + Find(table[1..], name)
  }

  function Added(host: Host, table: seq<Definition>, conf: Conf): Loading {
    if "name" !in conf then Loading(table, false)
    else
      var k := Find(table, conf["name"]);
      if k == |table| then Loading(table + [Declared(host, conf)], false)
      else if !Flag(host, conf, "allow_duplicates") || !table[k].allowDuplicates then Loading(table, true)
      else if Flag(host, conf, "mandatory") then Loading(table[k := table[k].(mandatory := true)], false)
      else Loading(table, false)
  }

  function Loaded(host: Host, confs: seq<Conf>): Loading {
    if confs == [] then Loading([], false)
    else
      var last := |confs| - 1;
      var before := Loaded(host, confs[..last]);
      if before.refused then before else Added(host, before.table, confs[last])
  }

  // ----- What loading means, without running it -----

  /** Two files that may not live side by side. */
  predicate Disagree(host: Host, a: Conf, b: Conf) {
    && "name" in a && "name" in b && a["name"] == b["name"]
    && !(Flag(host, a, "allow_duplicates") && Flag(host, b, "allow_duplicates"))
  }

  ghost predicate Refused(host: Host, confs: seq<Conf>) {
    exists i, j :: 0 <= i < j < |confs| && Disagree(host, confs[i], confs[j])
  }

  /** Position of the first file of that name; the number of files when there is none. */
  function First(confs: seq<Conf>, name: string): (k: nat)
    ensures k <= |confs|
  {
    if confs == [] then 0
    else
      var last := |confs| - 1;
      var k := First(confs[..last], name);
      if k < last || Names(confs[last], name) then k else last + 1
  }

  lemma {:induction false} FirstIsFirst(confs: seq<Conf>, name: string)
    ensures First(confs, name) < |confs| ==> Names(confs[First(confs, name)], name)
    ensures forall i :: 0 <= i < First(confs, name) ==> !Names(confs[i], name)
  {
    if confs != [] {
      FirstIsFirst(confs[..|confs| - 1], name);
    }
  }

  ghost predicate MandatorySomewhere(host: Host, confs: seq<Conf>, name: string) {
    exists i :: 0 <= i < |confs| && Names(confs[i], name) && Flag(host, confs[i], "mandatory")
  }

  /** The first file of each name decides everything but `mandatory`, which is an OR over all. */
  ghost predicate Describes(host: Host, confs: seq<Conf>, d: Definition) {
    var first := First(confs, d.name);
    && first < |confs| && Names(confs[first], d.name)
    && d == Declared(host, confs[first]).(mandatory := MandatorySomewhere(host, confs, d.name))
  }

  ghost predicate Represents(host: Host, confs: seq<Conf>, table: seq<Definition>) {
    && (forall k :: 0 <= k < |table| ==> Describes(host, confs, table[k]))
    && (forall i, k :: 0 <= i < k < |table| ==> First(confs, table[i].name) < First(confs, table[k].name))
    && (forall i :: 0 <= i < |confs| && "name" in confs[i] ==> Find(table, confs[i]["name"]) < |table|)
  }

  lemma FirstOfLonger(confs: seq<Conf>, conf: Conf, name: string)
    ensures First(confs + [conf], name)
         == if First(confs, name) < |confs| || Names(conf, name) then First(confs, name) else |confs| + 1
  {
    assert (confs + [conf])[..|confs|] == confs;
  }

  lemma MandatoryInLonger(host: Host, confs: seq<Conf>, conf: Conf, name: string)
    ensures MandatorySomewhere(host, confs + [conf], name)
       <==> MandatorySomewhere(host, confs, name) || (Names(conf, name) && Flag(host, conf, "mandatory"))
  {
    var longer := confs + [conf];
    assert longer[|confs|] == conf;
    if i :| 0 <= i < |confs| && Names(confs[i], name) && Flag(host, confs[i], "mandatory") {
      assert longer[i] == confs[i];
    }
  }

  /** An old entry after one more file, given what that file adds to `mandatory`. */
  lemma DescribesLonger(host: Host, confs: seq<Conf>, conf: Conf, d: Definition, added: bool)
    requires Describes(host, confs, d)
    requires added <==> Names(conf, d.name) && Flag(host, conf, "mandatory")
    ensures Describes(host, confs + [conf], d.(mandatory := d.mandatory || added))
    ensures First(confs + [conf], d.name) == First(confs, d.name)
  {
    FirstOfLonger(confs, conf, d.name);
    MandatoryInLonger(host, confs, conf, d.name);
  }

  lemma DescribesNew(host: Host, confs: seq<Conf>, conf: Conf)
    requires "name" in conf && First(confs, conf["name"]) == |confs|
    ensures Describes(host, confs + [conf], Declared(host, conf))
    ensures First(confs + [conf], conf["name"]) == |confs|
  {
    FirstIsFirst(confs, conf["name"]);
    FirstOfLonger(confs, conf, conf["name"]);
    MandatoryInLonger(host, confs, conf, conf["name"]);
  }

  /** A name has an entry exactly when some file declares it. */
  lemma EntryIffFile(host: Host, confs: seq<Conf>, table: seq<Definition>, name: string)
    requires Represents(host, confs, table)
    ensures Find(table, name) < |table| <==> First(confs, name) < |confs|
  {
    var i, k := First(confs, name), Find(table, name);
    FirstIsFirst(confs, name);
    if i < |confs| {
      assert Find(table, confs[i]["name"]) < |table|;
    }
    if k < |table| {
      assert Describes(host, confs, table[k]);
    }
  }

  /** Adding a file changes at most one flag of the entries already there. */
  lemma AddedKeeps(host: Host, table: seq<Definition>, conf: Conf, k: nat)
    requires k < |table|
    ensures var after := Added(host, table, conf).table;
            && |table| <= |after|
            && after[k].name == table[k].name
            && (!Added(host, table, conf).refused && Names(conf, table[k].name) && Find(table, table[k].name) == k ==>
                  after[k] == table[k].(mandatory := table[k].mandatory || Flag(host, conf, "mandatory")))
            && (!Names(conf, table[k].name) ==> after[k] == table[k])
  {
  }

  lemma AddedExtends(host: Host, table: seq<Definition>, conf: Conf)
    ensures var after := Added(host, table, conf).table;
            if "name" in conf && Find(table, conf["name"]) == |table| then
              after == table + [Declared(host, conf)]
            else |after| == |table|
  {
  }

  /** What happens to the entry at position `k`. */
  lemma AddedEntry(host: Host, confs: seq<Conf>, table: seq<Definition>, conf: Conf, k: nat)
    requires Represents(host, confs, table) && !Added(host, table, conf).refused
    requires k < |Added(host, table, conf).table|
    ensures var d := Added(host, table, conf).table[k];
            && Describes(host, confs + [conf], d)
            && First(confs + [conf], d.name) == (if k < |table| then First(confs, table[k].name) else |confs|)
  {
    AddedExtends(host, table, conf);
    if k < |table| {
      AddedKeeps(host, table, conf, k);
      FindEntry(host, confs, table, k);
      assert Describes(host, confs, table[k]);
      DescribesLonger(host, confs, conf, table[k],
        Names(conf, table[k].name) && Flag(host, conf, "mandatory"));
    } else {
      EntryIffFile(host, confs, table, conf["name"]);
      DescribesNew(host, confs, conf);
    }
  }

  lemma FindEntry(host: Host, confs: seq<Conf>, table: seq<Definition>, k: nat)
    requires Represents(host, confs, table) && k < |table|
    ensures Find(table, table[k].name) == k
  {
  }

  lemma AddedRepresents(host: Host, confs: seq<Conf>, table: seq<Definition>, conf: Conf)
    requires Represents(host, confs, table) && !Added(host, table, conf).refused
    ensures Represents(host, confs + [conf], Added(host, table, conf).table)
  {
    var longer, after := confs + [conf], Added(host, table, conf).table;
    forall k: nat | k < |after|
      ensures Describes(host, longer, after[k])
      ensures First(longer, after[k].name) == (if k < |table| then First(confs, table[k].name) else |confs|)
    {
      AddedEntry(host, confs, table, conf, k);
    }
    forall k: nat | k < |table|
      ensures First(confs, table[k].name) < |confs|
    {
      assert Describes(host, confs, table[k]);
    }
    AddedExtends(host, table, conf);
    forall i | 0 <= i < |longer| && "name" in longer[i]
      ensures Find(after, longer[i]["name"]) < |after|
    {
      var name := longer[i]["name"];
      assert i < |confs| ==> longer[i] == confs[i];
      var k := Find(table, name);
      if k < |table| {
        AddedKeeps(host, table, conf, k);
      }
      FindSome(after, k, name);
    }
  }

  lemma FindSome(table: seq<Definition>, k: nat, name: string)
    requires k < |table| && table[k].name == name
    ensures Find(table, name) < |table|
  {
  }

  /** Adding a file is refused exactly when it disagrees with an earlier one. */
  lemma AddedRefuses(host: Host, confs: seq<Conf>, table: seq<Definition>, conf: Conf)
    requires Represents(host, confs, table) && !Refused(host, confs)
    ensures Added(host, table, conf).refused
       <==> exists i :: 0 <= i < |confs| && Disagree(host, confs[i], conf)
  {
    if "name" in conf {
      var k := Find(table, conf["name"]);
      if k < |table| {
        var first := First(confs, conf["name"]);
        assert Describes(host, confs, table[k]);
        FirstIsFirst(confs, conf["name"]);
        assert Disagree(host, confs[first], conf) <==> Added(host, table, conf).refused;
      } else {
        EntryIffFile(host, confs, table, conf["name"]);
        FirstIsFirst(confs, conf["name"]);
      }
    }
  }

  lemma RefusedLonger(host: Host, confs: seq<Conf>, conf: Conf)
    ensures Refused(host, confs + [conf])
       <==> Refused(host, confs) || exists i :: 0 <= i < |confs| && Disagree(host, confs[i], conf)
  {
    var longer := confs + [conf];
    if i, j :| 0 <= i < j < |longer| && Disagree(host, longer[i], longer[j]) {
      assert longer[i] == confs[i] && (j < |confs| ==> longer[j] == confs[j]);
    }
    if i, j :| 0 <= i < j < |confs| && Disagree(host, confs[i], confs[j]) {
      assert Disagree(host, longer[i], longer[j]);
    }
    if i :| 0 <= i < |confs| && Disagree(host, confs[i], conf) {
      assert Disagree(host, longer[i], longer[|confs|]);
    }
  }

  /** Loading throws exactly on a disagreeing pair; otherwise the table represents the files. */
  lemma {:induction false} LoadedExactly(host: Host, confs: seq<Conf>)
    ensures Loaded(host, confs).refused <==> Refused(host, confs)
    ensures !Loaded(host, confs).refused ==> Represents(host, confs, Loaded(host, confs).table)
  {
    if confs != [] {
      var last := |confs| - 1;
      var before, conf := confs[..last], confs[last];
      LoadedExactly(host, before);
      assert confs == before + [conf];
      RefusedLonger(host, before, conf);
      if !Refused(host, before) {
        AddedRefuses(host, before, Loaded(host, before).table, conf);
        if !Loaded(host, confs).refused {
          AddedRepresents(host, before, Loaded(host, before).table, conf);
        }
      }
    }
  }

  /** Names are unique, and every file with a name is represented by exactly one entry. */
  lemma NamesAreUnique(host: Host, confs: seq<Conf>, i: nat, k: nat)
    requires !Refused(host, confs)
    requires i < |Loaded(host, confs).table| && k < |Loaded(host, confs).table|
    requires Loaded(host, confs).table[i].name == Loaded(host, confs).table[k].name
    ensures i == k
  {
    LoadedExactly(host, confs);
  }

  // ----- From the parameters of a file -----

  /** A parameter that is there and not empty. */
  predicate Given(conf: Conf, parameter: string) {
    parameter in conf && |conf[parameter]| > 0
  }

  /**
    Which processes a file is about: with neither command nor pattern those of its
    name, with a command those of that command, with a pattern those whose command
    line it matches, with both those of both.
  */
  lemma AcceptsExactly(host: Host, conf: Conf, baseName: string, commandLine: string)
    requires "name" in conf
    ensures var accepts := Declared(host, conf).Accepts(host, baseName, commandLine);
            && (!Given(conf, "command") && !Given(conf, "match") ==> (accepts <==> baseName == conf["name"]))
            && (Given(conf, "command") && !Given(conf, "match") ==> (accepts <==> baseName == conf["command"]))
            && (!Given(conf, "command") && Given(conf, "match") ==>
                  (accepts <==> host.regexMatches(commandLine, conf["match"])))
            && (Given(conf, "command") && Given(conf, "match") ==>
                  (accepts <==> baseName == conf["command"] && host.regexMatches(commandLine, conf["match"])))
  {
  }

  /**
    When a file wants its process to run: always without a service, for a backend
    when it is listed and backends are not disabled, and otherwise exactly when the
    service is enabled; whether that is active is never decisive.
  */
  lemma ExpectedExactly(host: Host, conf: Conf)
    requires "name" in conf
    ensures var expected := Declared(host, conf).ExpectedToRun(host);
            && (!Given(conf, "service") ==> expected)
            && (Given(conf, "service") && "backend" in conf && host.isTrue(conf["backend"]) ==>
                  (expected <==> !host.backendsDisabled && conf["service"] in host.backends))
            && (Given(conf, "service") && !("backend" in conf && host.isTrue(conf["backend"])) ==>
                  (expected <==> host.serviceEnabled(conf["service"])))
  {
  }

  /** Loading throws exactly when two files share a name and one of them does not allow duplicates. */
  lemma LoadingThrowsExactly(host: Host, confs: seq<Conf>)
    ensures Loaded(host, confs).refused
       <==> exists i, j :: 0 <= i < j < |confs|
                        && "name" in confs[i] && "name" in confs[j] && confs[i]["name"] == confs[j]["name"]
                        && !(&& "allow_duplicates" in confs[i] && host.isTrue(confs[i]["allow_duplicates"])
                             && "allow_duplicates" in confs[j] && host.isTrue(confs[j]["allow_duplicates"]))
  {
    LoadedExactly(host, confs);
    if i, j :| 0 <= i < j < |confs| && Disagree(host, confs[i], confs[j]) {
    }
    if i, j :| 0 <= i < j < |confs|
               && "name" in confs[i] && "name" in confs[j] && confs[i]["name"] == confs[j]["name"]
               && !(&& "allow_duplicates" in confs[i] && host.isTrue(confs[i]["allow_duplicates"])
                    && "allow_duplicates" in confs[j] && host.isTrue(confs[j]["allow_duplicates"]))
    {
      assert Disagree(host, confs[i], confs[j]);
    }
  }

  /** An entry of the table and the first file of its name. */
  lemma EntryIsFirstFile(host: Host, confs: seq<Conf>, k: nat) returns (i: nat)
    requires !Refused(host, confs) && k < |Loaded(host, confs).table|
    ensures var d := Loaded(host, confs).table[k];
            && i < |confs| && "name" in confs[i] && confs[i]["name"] == d.name
            && (forall j :: 0 <= j < i ==> !("name" in confs[j] && confs[j]["name"] == d.name))
            && d == Declared(host, confs[i]).(mandatory := d.mandatory)
            && (d.mandatory <==> exists j ::
                  && 0 <= j < |confs| && "name" in confs[j] && confs[j]["name"] == d.name
                  && "mandatory" in confs[j] && host.isTrue(confs[j]["mandatory"]))
  {
    LoadedExactly(host, confs);
    var d := Loaded(host, confs).table[k];
    assert Describes(host, confs, d);
    FirstIsFirst(confs, d.name);
    i := First(confs, d.name);
    assert forall j :: 0 <= j < |confs| ==>
        (Names(confs[j], d.name) <==> "name" in confs[j] && confs[j]["name"] == d.name);
  }

  /** Every file with a name has its entry. */
  lemma FileHasEntry(host: Host, confs: seq<Conf>, i: nat) returns (k: nat)
    requires !Refused(host, confs) && i < |confs| && "name" in confs[i]
    ensures k < |Loaded(host, confs).table| && Loaded(host, confs).table[k].name == confs[i]["name"]
  {
    LoadedExactly(host, confs);
    k := Find(Loaded(host, confs).table, confs[i]["name"]);
  }

  // ----- The order of the files -----

  lemma TwoPositions<T>(s: seq<T>, x: T)
    ensures multiset(s)[x] >= 2 <==> exists i, j :: 0 <= i < j < |s| && s[i] == x && s[j] == x
  {
    if multiset(s)[x] >= 1 {
      assert x in multiset(s);
      var i: nat :| i < |s| && s[i] == x;
      assert s == s[..i] + [x] + s[i + 1..];
      assert multiset(s) == multiset(s[..i]) + multiset{x} + multiset(s[i + 1..]);
      if multiset(s)[x] >= 2 {
        if x in multiset(s[..i]) {
          var j: nat :| j < i && s[..i][j] == x;
        } else {
          assert x in multiset(s[i + 1..]);
          var j: nat :| j < |s[i + 1..]| && s[i + 1..][j] == x;
          assert s[i + 1 + j] == x;
        }
      }
      if j :| 0 <= j < |s| && s[j] == x && j != i {
        if j < i {
          assert s[..i][j] == x;
          assert x in multiset(s[..i]);
        } else {
          assert s[i + 1..][j - i - 1] == x;
          assert x in multiset(s[i + 1..]);
        }
      }
    } else {
      assert forall i :: 0 <= i < |s| ==> s[i] in multiset(s);
    }
  }

  ghost predicate BagRefused(host: Host, bag: multiset<Conf>) {
    exists a, b :: a in bag && b in bag && Disagree(host, a, b) && (a != b || bag[a] >= 2)
  }

  lemma RefusedInBag(host: Host, confs: seq<Conf>)
    ensures Refused(host, confs) <==> BagRefused(host, multiset(confs))
  {
    var bag := multiset(confs);
    if Refused(host, confs) {
      var i, j :| 0 <= i < j < |confs| && Disagree(host, confs[i], confs[j]);
      TwoPositions(confs, confs[i]);
      assert confs[i] in bag && confs[j] in bag;
    }
    if a, b :| a in bag && b in bag && Disagree(host, a, b) && (a != b || bag[a] >= 2) {
      if a == b {
        TwoPositions(confs, a);
      } else {
        var i: nat :| i < |confs| && confs[i] == a;
        var j: nat :| j < |confs| && confs[j] == b;
        assert Disagree(host, confs[if i < j then i else j], confs[if i < j then j else i]);
      }
    }
  }

  /**
    Whether the directory loads, which names it defines and which of them are
    mandatory do not depend on the order of the files.
  */
  lemma LoadOrderIsIrrelevant(host: Host, confs: seq<Conf>, other: seq<Conf>)
    requires multiset(confs) == multiset(other)
    ensures Loaded(host, confs).refused == Loaded(host, other).refused
    ensures !Loaded(host, confs).refused ==>
              forall d :: d in Loaded(host, confs).table ==>
                exists e :: e in Loaded(host, other).table && e.name == d.name && e.mandatory == d.mandatory
  {
    RefusedInBag(host, confs);
    RefusedInBag(host, other);
    LoadedExactly(host, confs);
    LoadedExactly(host, other);
    if !Loaded(host, confs).refused {
      var table, table' := Loaded(host, confs).table, Loaded(host, other).table;
      forall d | d in table
        ensures exists e :: e in table' && e.name == d.name && e.mandatory == d.mandatory
      {
        assert Describes(host, confs, d);
        var first := First(confs, d.name);
        assert confs[first] in multiset(other);
        var i: nat :| i < |other| && other[i] == confs[first];
        var e := table'[Find(table', d.name)];
        assert Describes(host, other, e);
        MandatoryInBag(host, confs, other, d.name);
        MandatoryInBag(host, other, confs, d.name);
        assert e in table';
      }
    }
  }

  lemma MandatoryInBag(host: Host, confs: seq<Conf>, other: seq<Conf>, name: string)
    requires multiset(confs) == multiset(other)
    ensures MandatorySomewhere(host, confs, name) ==> MandatorySomewhere(host, other, name)
  {
    if i :| 0 <= i < |confs| && Names(confs[i], name) && Flag(host, confs[i], "mandatory") {
      assert confs[i] in multiset(other);
    }
  }
}
