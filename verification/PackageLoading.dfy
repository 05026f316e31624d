/**
  Package files: the kind, the priority and the conflicts a file declares, and
  what the plugin makes of them.
*/
module PackageLoading {
  import opened Wrappers
  import opened PackageReports

  // ----- Which kind a configuration file ends up with -----

  function KindFromString(text: string): Result<Kind, string> {
    if text == "" || text == "optional" then Success(Optional)
    else if text == "required" then Success(Required)
    else if text == "unwanted" then Success(Unwanted)
    else Failure("invalid installation name")
  }

  function Parameter(conf: map<string, string>, name: string): string {
    if name in conf then conf[name] else ""
  }

  /** The kind `load_package` gives; it looks for a misspelled parameter first. */
  function LoadedKind(conf: map<string, string>): Result<Kind, string> {
    if "intallation" in conf then KindFromString(Parameter(conf, "installation")) else Success(Optional)
  }

  /** The kind the documented `installation` parameter stands for. */
  function DocumentedKind(conf: map<string, string>): Result<Kind, string> {
    KindFromString(Parameter(conf, "installation"))
  }

  /** The documented kind is honoured only next to the misspelling, or when it is `optional` anyway. */
  lemma KindIsHonouredExactly(conf: map<string, string>)
    ensures LoadedKind(conf) == DocumentedKind(conf)
       <==> "intallation" in conf || DocumentedKind(conf) == Success(Optional)
  {
  }

  lemma RequiredIsIgnored()
    ensures var conf := map["name" := "ntp", "installation" := "required"];
            LoadedKind(conf) == Success(Optional) && DocumentedKind(conf) == Success(Required)
  {
    var conf := map["name" := "ntp", "installation" := "required"];
    assert "installation" in conf;
    assert |"intallation"| != |"installation"| && |"intallation"| != |"name"|;
  }

  // ----- Loading a package -----

  /** The library's number reader, and the splitter for the list of conflicts. */
  datatype Reader = Reader(integer: string -> Option<int>, conflicts: string -> set<string>)

  /** What is left of a 64-bit number handed on as a 32-bit one. */
  function Narrowed(value: int): (r: int)
    ensures -0x8000_0000 <= r < 0x8000_0000 && (r - value) % 0x1_0000_0000 == 0
    ensures -0x8000_0000 <= value < 0x8000_0000 ==> r == value
  {
    (value + 0x8000_0000) % 0x1_0000_0000 - 0x8000_0000
  }

  /** Any number is taken: nothing keeps it within 0 and 100. */
  function LoadedPriority(r: Reader, conf: map<string, string>): int {
    if "priority" !in conf then 15
    else
      match r.integer(conf["priority"])
      case Some(value) => Narrowed(value)
      case None => 15
  }

  /** The package of one file; a file without a name declares none, and no package is in conflict with itself. */
  function LoadedPackage(r: Reader, conf: map<string, string>): Result<Option<Package>, string> {
    if "name" !in conf then Success(None)
    else
      match LoadedKind(conf)
      case Failure(error) => Failure(error)
      case Success(kind) =>
        var conflicts := if "conflicts" in conf then r.conflicts(conf["conflicts"]) else {};
        if conf["name"] in conflicts then Failure("a package cannot be in conflict with itself")
        else Success(Some(Package(conf["name"], kind, conflicts, LoadedPriority(r, conf))))
  }

  /** The kinds the documented parameter names. */
  lemma KindsAreNamed(conf: map<string, string>)
    ensures var kind := DocumentedKind(conf);
            if "installation" !in conf || conf["installation"] == "" || conf["installation"] == "optional" then
              kind == Success(Optional)
            else if conf["installation"] == "required" then kind == Success(Required)
            else if conf["installation"] == "unwanted" then kind == Success(Unwanted)
            else kind.Failure?
  {
  }

  /** What a file with a name and a known kind declares. */
  lemma LoadedExactly(r: Reader, conf: map<string, string>)
    requires "name" in conf && LoadedKind(conf).Success?
    ensures LoadedPackage(r, conf).Failure? <==> "conflicts" in conf && conf["name"] in r.conflicts(conf["conflicts"])
    ensures LoadedPackage(r, conf).Success? ==>
              var loaded := LoadedPackage(r, conf).value;
              && loaded.Some? && loaded.value.name == conf["name"] && loaded.value.kind == LoadedKind(conf).value
              && (forall u :: u in loaded.value.conflicts <==>
                    "conflicts" in conf && u in r.conflicts(conf["conflicts"]))
              && (if "priority" in conf && r.integer(conf["priority"]).Some? then
                    && -0x8000_0000 <= loaded.value.priority < 0x8000_0000
                    && (loaded.value.priority - r.integer(conf["priority"]).value) % 0x1_0000_0000 == 0
                  else
                    loaded.value.priority == 15)
  {
  }

  function RequiredConf(name: string): map<string, string> {
    map["name" := name, "intallation" := "", "installation" := "required"]
  }

  lemma RequiredIsLoaded(r: Reader, name: string)
    ensures LoadedPackage(r, RequiredConf(name)) == Success(Some(Package(name, Required, {}, 15)))
    ensures r.integer("101") == Some(101) ==>
              (LoadedPackage(r, RequiredConf(name)["priority" := "101"])
               == Success(Some(Package(name, Required, {}, 101))))
  {
    var conf := RequiredConf(name);
    assert "intallation" in conf && "installation" in conf && "name" in conf;
    assert |"priority"| == 8 && |"conflicts"| == 9;
    assert "priority" !in conf && "conflicts" !in conf;
  }

  /** Two files of which the first has priority 101: both packages are missing, and neither is reported. */
  lemma BadPriorityHidesTheRest(r: Reader)
    requires r.integer("101") == Some(101)
    ensures var first, second := Package("a", Required, {}, 101), Package("b", Required, {}, 15);
            var installed := map["a" := false, "b" := false];
            && LoadedPackage(r, RequiredConf("a")["priority" := "101"]) == Success(Some(first))
            && LoadedPackage(r, RequiredConf("b")) == Success(Some(second))
            && Deserved(installed, second, NotInstalled("b", 15))
            && Watched(installed, [first, second]) == []
  {
    RequiredIsLoaded(r, "a");
    RequiredIsLoaded(r, "b");
    assert "a" in map["a" := false, "b" := false];
  }
}
