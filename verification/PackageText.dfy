/**
  The text of the package cache: one `name=t` or `name=f` line per package, as
  written by `save_cache` and read back by the position loop of
  `is_package_installed`.
*/
module PackageText {
  import opened Wrappers

  type Installed = map<string, bool>

  const NPOS := -1

  /** Position of the first `c` at or after `from`. */
  function Find(s: string, c: char, from: nat): (pos: int)
    requires from <= |s|
    ensures pos == NPOS || from <= pos < |s|
    ensures pos != NPOS ==> s[pos] == c
    ensures forall i :: from <= i < (if pos == NPOS then |s| else pos) ==> s[i] != c
    decreases |s| - from
  {
    if from == |s| then NPOS else if s[from] == c then from else Find(s, c, from + 1)
  }

  // ----- What a file means -----

  /** The lines of a text; the part after the last newline counts, even when empty. */
  function Lines(content: string): seq<string> {
    var nl := Find(content, '\n', 0);
    if nl == NPOS then [content] else [content[..nl]] + Lines(content[nl + 1..])
  }

  /** A line without `=`, or with nothing before it, says nothing. */
  function Recorded(installed: Installed, line: string): Installed {
    var equal := Find(line, '=', 0);
    if equal == NPOS || equal == 0 then installed
    else installed[line[..equal] := line[equal + 1..] == ['t']]
  }

  function RecordedAll(installed: Installed, lines: seq<string>): Installed
    decreases |lines|
  {
    if lines == [] then installed else RecordedAll(Recorded(installed, lines[0]), lines[1..])
  }

  function Parsed(content: string): Installed {
    RecordedAll(map[], Lines(content))
  }

  /** A name that survives being written. */
  predicate Printable(name: string) {
    |name| > 0 && '=' !in name && '\n' !in name
  }

  function Line(name: string, installed: bool): string {
    name + ['=', if installed then 't' else 'f']
  }

  /** The text of a map, its names taken in a given order. */
  function Printed(order: seq<string>, installed: Installed): string
    requires forall k :: k in order ==> k in installed
  {
    if order == [] then []
    else
      assert order[0] in order;
      Line(order[0], installed[order[0]]) + ['\n'] + Printed(order[1..], installed)
  }

  /** An order in which the names of a map may be visited: each exactly once. */
  ghost predicate Enumerates(order: seq<string>, names: set<string>) {
    && (forall k :: k in order <==> k in names)
    && (forall i, j :: 0 <= i < j < |order| ==> order[i] != order[j])
  }

  // ----- What a file means, line by line -----

  lemma FindIs(s: string, c: char, pos: nat)
    requires pos < |s| && s[pos] == c && c !in s[..pos]
    ensures Find(s, c, 0) == pos
  {
    assert forall i :: 0 <= i < pos ==> s[i] in s[..pos];
  }

  /** Lines with a newline between each two. */
  function Joined(lines: seq<string>): string
    requires lines != []
  {
    if |lines| == 1 then lines[0] else lines[0] + ['\n'] + Joined(lines[1..])
  }

  lemma JoinedFirst(line: string, rest: seq<string>)
    requires rest != []
    ensures Joined([line] + rest) == line + ['\n'] + Joined(rest)
  {
    assert ([line] + rest)[1..] == rest;
  }

  lemma SplitAt(content: string, nl: nat)
    requires nl == Find(content, '\n', 0)
    ensures nl < |content| && '\n' !in content[..nl]
    ensures content == content[..nl] + ['\n'] + content[nl + 1..]
  {
  }

  /** The lines of a text have no newline, and the text is what they join to. */
  lemma {:induction false} LinesExactly(content: string)
    ensures Lines(content) != [] && Joined(Lines(content)) == content
    ensures forall line :: line in Lines(content) ==> '\n' !in line
    decreases |content|
  {
    var nl := Find(content, '\n', 0);
    if nl == NPOS {
      assert Lines(content) == [content];
    } else {
      SplitAt(content, nl);
      var rest := Lines(content[nl + 1..]);
      LinesExactly(content[nl + 1..]);
      assert Lines(content) == [content[..nl]] + rest;
      JoinedFirst(content[..nl], rest);
    }
  }

  /** A line that says something about a package: its name, then `=`. */
  predicate Says(line: string, name: string) {
    |name| > 0 && '=' !in name && name + ['='] <= line
  }

  lemma RecordedSays(known: Installed, line: string, name: string)
    ensures var r := Recorded(known, line);
            if Says(line, name) then name in r && (r[name] <==> line == name + ['=', 't'])
            else (name in r <==> name in known) && (name in known ==> r[name] == known[name])
  {
    if Says(line, name) {
      assert line[|name|] == '=' && line[..|name|] == name;
      FindIs(line, '=', |name|);
      assert line == name + ['='] + line[|name| + 1..];
    } else {
      var equal := Find(line, '=', 0);
      if equal > 0 {
        assert line[..equal] + ['='] == line[..equal + 1];
        assert '=' !in line[..equal];
      }
    }
  }

  lemma {:induction false} LastSaid(known: Installed, lines: seq<string>, name: string) returns (i: int)
    ensures -1 <= i < |lines| && forall j :: i < j < |lines| ==> !Says(lines[j], name)
    ensures var r := RecordedAll(known, lines);
            if i >= 0 then Says(lines[i], name) && name in r && (r[name] <==> lines[i] == name + ['=', 't'])
            else (name in r <==> name in known) && (name in known ==> r[name] == known[name])
    decreases |lines|
  {
    i := -1;
    if lines != [] {
      RecordedSays(known, lines[0], name);
      var rest := LastSaid(Recorded(known, lines[0]), lines[1..], name);
      i := if rest >= 0 then rest + 1 else if Says(lines[0], name) then 0 else -1;
    }
  }

  /** What a text records about a package: what its last line about it says, installed exactly for `t`. */
  lemma ParsedExactly(content: string, name: string) returns (i: int)
    ensures -1 <= i < |Lines(content)| && forall j :: i < j < |Lines(content)| ==> !Says(Lines(content)[j], name)
    ensures name in Parsed(content) <==> i >= 0
    ensures i >= 0 ==>
              Says(Lines(content)[i], name) && (Parsed(content)[name] <==> Lines(content)[i] == name + ['=', 't'])
  {
    i := LastSaid(map[], Lines(content), name);
  }

  // ----- Reading back what was written -----

  lemma FirstLine(line: string, rest: string)
    requires '\n' !in line
    ensures Lines(line + ['\n'] + rest) == [line] + Lines(rest)
  {
    var content := line + ['\n'] + rest;
    assert content[..|line|] == line && content[|line| + 1..] == rest;
    FindIs(content, '\n', |line|);
  }

  lemma RecordedLine(known: Installed, name: string, installed: bool)
    requires Printable(name)
    ensures Recorded(known, Line(name, installed)) == known[name := installed]
  {
    var line := Line(name, installed);
    assert line[..|name|] == name && line[|name| + 1..] == [if installed then 't' else 'f'];
    FindIs(line, '=', |name|);
  }

  /** Reading a printed map records its first name, then the rest. */
  lemma PrintedStep(known: Installed, order: seq<string>, installed: Installed)
    requires order != [] && forall k :: k in order ==> k in installed && Printable(k)
    ensures RecordedAll(known, Lines(Printed(order, installed)))
         == RecordedAll(known[order[0] := installed[order[0]]], Lines(Printed(order[1..], installed)))
  {
    var name, rest := order[0], Printed(order[1..], installed);
    assert name in order;
    FirstLine(Line(name, installed[name]), rest);
    RecordedLine(known, name, installed[name]);
    RecordedFirst(known, Line(name, installed[name]), Lines(rest));
  }

  lemma {:induction false} RecordedPrinted(known: Installed, order: seq<string>, installed: Installed)
    requires forall k :: k in order ==> k in installed && Printable(k)
    ensures var r := RecordedAll(known, Lines(Printed(order, installed)));
            && (forall k :: k in r <==> k in known || k in order)
            && (forall k :: k in r ==> r[k] == if k in order then installed[k] else known[k])
    decreases |order|
  {
    if order == [] {
      assert Lines([]) == [[]];
    } else {
      PrintedStep(known, order, installed);
      RecordedPrinted(known[order[0] := installed[order[0]]], order[1..], installed);
      assert forall k :: k in order <==> k == order[0] || k in order[1..];
    }
  }

  lemma RecordedFirst(known: Installed, line: string, rest: seq<string>)
    ensures RecordedAll(known, [line] + rest) == RecordedAll(Recorded(known, line), rest)
  {
    assert ([line] + rest)[1..] == rest;
  }

  /** Writing then reading gives the map back, whatever order its names were visited in. */
  lemma ParsePrinted(order: seq<string>, installed: Installed)
    requires Enumerates(order, installed.Keys)
    requires forall k :: k in installed ==> Printable(k)
    ensures Parsed(Printed(order, installed)) == installed
  {
    RecordedPrinted(map[], order, installed);
    var r := Parsed(Printed(order, installed));
    assert r.Keys == installed.Keys;
    assert forall k :: k in r ==> r[k] == installed[k];
  }

  lemma RecordedIsPrintable(known: Installed, line: string)
    requires '\n' !in line && forall k :: k in known ==> Printable(k)
    ensures forall k :: k in Recorded(known, line) ==> Printable(k)
  {
    var equal := Find(line, '=', 0);
    if equal != NPOS && equal != 0 {
      assert '=' !in line[..equal] && '\n' !in line[..equal];
    }
  }

  lemma {:induction false} RecordedAllIsPrintable(known: Installed, lines: seq<string>)
    requires forall line :: line in lines ==> '\n' !in line
    requires forall k :: k in known ==> Printable(k)
    ensures forall k :: k in RecordedAll(known, lines) ==> Printable(k)
    decreases |lines|
  {
    if lines != [] {
      RecordedIsPrintable(known, lines[0]);
      RecordedAllIsPrintable(Recorded(known, lines[0]), lines[1..]);
    }
  }

  /** Whatever the file holds, only printable names come out of it. */
  lemma ParsedIsPrintable(content: string)
    ensures forall k :: k in Parsed(content) ==> Printable(k)
  {
    LinesExactly(content);
    RecordedAllIsPrintable(map[], Lines(content));
  }

  /** Reading, writing and reading again changes nothing, for every file content. */
  lemma ParseNormalises(content: string, order: seq<string>)
    requires Enumerates(order, Parsed(content).Keys)
    ensures Parsed(Printed(order, Parsed(content))) == Parsed(content)
  {
    ParsedIsPrintable(content);
    ParsePrinted(order, Parsed(content));
  }

  /** Exactly which maps survive being written. */
  lemma RoundTripExactly(order: seq<string>, installed: Installed)
    requires Enumerates(order, installed.Keys)
    ensures Parsed(Printed(order, installed)) == installed <==> forall k :: k in installed ==> Printable(k)
  {
    ParsedIsPrintable(Printed(order, installed));
    if forall k :: k in installed ==> Printable(k) {
      ParsePrinted(order, installed);
    }
  }

  // ----- The loops of the source -----

  /** How the text splits at the newline one turn of the position loop finds. */
  lemma TurnText(content: string, s: nat)
    requires s <= |content|
    ensures var nl := Find(content, '\n', s);
            if nl == NPOS then '\n' !in content[s..]
            else '\n' !in content[s..nl] && content[s..] == content[s..nl] + ['\n'] + content[nl + 1..]
  {
  }

  lemma MiddleLine(known: Installed, line: string, after: string)
    requires '\n' !in line
    ensures RecordedAll(known, Lines(line + ['\n'] + after)) == RecordedAll(Recorded(known, line), Lines(after))
  {
    FirstLine(line, after);
    RecordedFirst(known, line, Lines(after));
  }

  lemma LastLine(known: Installed, line: string)
    requires '\n' !in line
    ensures RecordedAll(known, Lines(line)) == Recorded(known, line)
  {
    assert Lines(line) == [line];
    RecordedFirst(known, line, []);
    assert [line] + [] == [line];
  }

  method RecordLine(known: Installed, line: string) returns (installed: Installed)
    ensures installed == Recorded(known, line)
  {
    installed := known;
    var equal := Find(line, '=', 0);
    if equal != NPOS {
      var name := line[..equal];
      if |name| > 0 {
        installed := installed[name := line[equal + 1..] == ['t']];
      }
    }
  }

  /** What is still to be recorded from a position on. */
  ghost function ReadFrom(known: Installed, content: string, pos: int): Installed
    requires pos == NPOS || 0 <= pos <= |content|
  {
    if pos == NPOS then known else RecordedAll(known, Lines(content[pos..]))
  }

  /** The position loop; `pos` never leaves the text and each turn moves it forward. */
  method Load(content: string) returns (installed: Installed)
    ensures installed == Parsed(content)
  {
    installed := map[];
    var pos := 0;
    assert content[0..] == content;
    ghost var total := Parsed(content);
    while pos != NPOS
      invariant pos == NPOS || 0 <= pos <= |content|
      invariant ReadFrom(installed, content, pos) == total
      decreases if pos == NPOS then 0 else |content| - pos + 1
    {
      TurnText(content, pos);
      var s := pos;
      pos := Find(content, '\n', pos);
      var line;
      if pos == NPOS {
        line := content[s..];
        LastLine(installed, line);
      } else {
        line := content[s..pos];
        pos := pos + 1;
        MiddleLine(installed, line, content[pos..]);
      }
      installed := RecordLine(installed, line);
    }
  }

  lemma {:induction false} PrintedGrows(order: seq<string>, name: string, installed: Installed)
    requires name in installed && forall k :: k in order ==> k in installed
    ensures Printed(order + [name], installed) == Printed(order, installed) + Line(name, installed[name]) + ['\n']
    decreases |order|
  {
    if order == [] {
      assert [name][1..] == [];
    } else {
      assert (order + [name])[1..] == order[1..] + [name];
      PrintedGrows(order[1..], name, installed);
    }
  }

  /** Writes one line per package, in whatever order the map is visited. */
  method Save(installed: Installed) returns (out: string, ghost order: seq<string>)
    ensures Enumerates(order, installed.Keys) && out == Printed(order, installed)
  {
    out, order := [], [];
    var left := installed.Keys;
    while left != {}
      invariant left <= installed.Keys
      invariant Enumerates(order, installed.Keys - left)
      invariant out == Printed(order, installed)
    {
      var name :| name in left;
      out := out + Line(name, installed[name]) + ['\n'];
      left := left - {name};
      PrintedGrows(order, name, installed);
      order := order + [name];
    }
  }
}
