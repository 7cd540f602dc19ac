/*
 * The converter from the old line-based configuration format (parse_old_config.py).
 * Only the `--PROFILES--` section is read: a `[name]` line starts a profile with an empty
 * filter list, a `>>rule` line appends a filter template to the current profile, and a
 * `key=value` line sets a property, as an integer when int() accepts the value.
 */
module OldConfig {
  import opened Wrappers

  /** The converted profiles: profile name to its properties. */
  type Profiles = map<string, map<string, Json>>

  /** The loop's variables: the section last opened (config_part), the profile last
      started (profile), and the profiles read so far. */
  datatype ParseState = ParseState(section: string, current: Option<string>, profiles: Profiles)

  /** The only section whose lines are interpreted. */
  const ProfilesSection: string := "--PROFILES--"

  /** Before any section line: config_part = "NOWHERE", no profile, no profiles. */
  const Initial: ParseState := ParseState("NOWHERE", None, map[])

  /** An empty line or a comment (parse_old_config.py:16-17). */
  predicate Skipped(line: string) {
    line == [] || line[0] == '#'
  }

  /** line.startswith("--") and line.endswith("--"); the two may overlap, as in "---". */
  predicate SectionLine(line: string) {
    |line| >= 2 && line[0] == '-' && line[1] == '-' && line[|line| - 2] == '-' && line[|line| - 1] == '-'
  }

  /** line.startswith('[') and line.endswith(']'); a one-character line cannot be both. */
  predicate HeaderLine(line: string) {
    |line| >= 2 && line[0] == '[' && line[|line| - 1] == ']'
  }

  /** line.startswith('>>'). */
  predicate FilterLine(line: string) {
    |line| >= 2 && line[0] == '>' && line[1] == '>'
  }

  /** The position of the first '=' of `s`, where line.split('=', 1) cuts. */
  function EqualsAt(s: string): (r: Option<nat>)
    ensures r.Some? ==> r.value < |s| && s[r.value] == '=' && '=' !in s[..r.value]
    ensures r.None? ==> '=' !in s
  {
    if s == [] then None
    else if s[0] == '=' then Some(0)
    else match EqualsAt(s[1..])
      case None => None
      case Some(k) => assert s[..k + 1] == [s[0]] + s[1..][..k]; Some(k + 1)
  }

  /** The property name as stored: LogFile is renamed logFile (parse_old_config.py:35-36). */
  function PropertyName(name: string): string {
    if name == "LogFile" then "logFile" else name
  }

  /** int(value) when it succeeds, the raw text otherwise (parse_old_config.py:37-40);
      `parseInt` stands for what Python's int() accepts. */
  function PropertyValue(text: string, parseInt: string -> Option<int>): Json {
    match parseInt(text)
    case Some(n) => JNum(n)
    case None => JStr(text)
  }

  /** The current profile exists, and every profile has a `filters` entry. */
  predicate Valid(st: ParseState) {
    (st.current.Some? ==> st.current.value in st.profiles) &&
    forall p :: p in st.profiles ==> "filters" in st.profiles[p]
  }

  /** One pass of the loop body (parse_old_config.py:16-41). Appending to a `filters`
      entry that a `filters=` line replaced by a number or text raises AttributeError. */
  function Step(st: ParseState, line: string, parseInt: string -> Option<int>): (r: Result<ParseState>)
    requires Valid(st)
    ensures r.Ok? ==> Valid(r.value)
  {
    if Skipped(line) then Ok(st)
    else if SectionLine(line) then Ok(st.(section := line))
    else if st.section != ProfilesSection then Ok(st)
    else if HeaderLine(line) then
      var name := line[1..|line| - 1];
      Ok(st.(current := Some(name), profiles := st.profiles[name := map["filters" := JList([])]]))
    else if st.current.None? then Ok(st)
    else
      var p := st.current.value;
      var props := st.profiles[p];
      if FilterLine(line) then
        match props["filters"]
        case JList(items) =>
          Ok(st.(profiles := st.profiles[p := props["filters" := JList(items + [JStr(line[2..])])]]))
        case _ => Err(AppendAttributeError("filters"))
      else match EqualsAt(line)
        case None => Ok(st)
        case Some(i) =>
          Ok(st.(profiles := st.profiles[p := props[PropertyName(line[..i]) := PropertyValue(line[i + 1..], parseInt)]]))
  }

  /** The loop over `lines` from state `st`; the first exception stops it. */
  function RunFrom(st: ParseState, lines: seq<string>, parseInt: string -> Option<int>): (r: Result<ParseState>)
    requires Valid(st)
    ensures r.Ok? ==> Valid(r.value)
    decreases |lines|
  {
    if lines == [] then Ok(st)
    else match RunFrom(st, lines[..|lines| - 1], parseInt)
      case Err(e) => Err(e)
      case Ok(s) => Step(s, lines[|lines| - 1], parseInt)
  }

  /** config_old_parse on the lines of the file. */
  function Converted(lines: seq<string>, parseInt: string -> Option<int>): Result<Profiles> {
    match RunFrom(Initial, lines, parseInt)
    case Err(e) => Err(e)
    case Ok(st) => Ok(st.profiles)
  }

  /** config_old_parse (parse_old_config.py:13-42), from the list of lines on: one loop
      that updates the section, the current profile and the profiles in place. */
  method ConfigOldParse(lines: seq<string>, parseInt: string -> Option<int>) returns (r: Result<Profiles>)
    ensures r == Converted(lines, parseInt)
  {
    var configPart := "NOWHERE";
    var profile: Option<string> := None;
    var profiles: Profiles := map[];
    for i := 0 to |lines|
      invariant RunFrom(Initial, lines[..i], parseInt) == Ok(ParseState(configPart, profile, profiles))
    {
      var line := lines[i];
      assert lines[..i + 1][..i] == lines[..i];
      if |line| == 0 || line[0] == '#' {
        continue;
      }
      if SectionLine(line) {
        configPart := line;
        continue;
      }
      if configPart == ProfilesSection {
        if HeaderLine(line) {
          var name := line[1..|line| - 1];
          profile := Some(name);
          profiles := profiles[name := map["filters" := JList([])]];
          continue;
        }
        if profile.None? {
          continue;
        }
        var p := profile.value;
        if FilterLine(line) {
          var filters := profiles[p]["filters"];
          if !filters.JList? {
            ErrorSticks(Initial, lines, i + 1, parseInt);
            return Err(AppendAttributeError("filters"));
          }
          profiles := profiles[p := profiles[p]["filters" := JList(filters.items + [JStr(line[2..])])]];
          continue;
        }
        var eq := EqualsAt(line);
        if eq.None? {
          continue;
        }
        var name := line[..eq.value];
        if name == "LogFile" {
          name := "logFile";
        }
        var value := parseInt(line[eq.value + 1..]);
        var stored := if value.Some? then JNum(value.value) else JStr(line[eq.value + 1..]);
        profiles := profiles[p := profiles[p][name := stored]];
        continue;
      }
    }
    assert lines[..|lines|] == lines;
    r := Ok(profiles);
  }

  // ---------------------------------------------------------------------------
  // What the converter promises
  // ---------------------------------------------------------------------------

  /** Running over two pieces of text runs over the first, then from where it ended. */
  lemma {:induction false} RunFromConcat(st: ParseState, a: seq<string>, b: seq<string>, parseInt: string -> Option<int>)
    requires Valid(st)
    ensures RunFrom(st, a + b, parseInt) ==
      match RunFrom(st, a, parseInt)
      case Err(e) => Err(e)
      case Ok(s) => RunFrom(s, b, parseInt)
    decreases |b|
  {
    if b == [] {
      assert a + b == a;
    } else {
      var front := b[..|b| - 1];
      RunFromConcat(st, a, front, parseInt);
      assert (a + b)[..|a + b| - 1] == a + front;
      assert (a + b)[|a + b| - 1] == b[|b| - 1];
    }
  }

  /** An exception ends the loop: the lines after it are never read. */
  lemma ErrorSticks(st: ParseState, lines: seq<string>, n: nat, parseInt: string -> Option<int>)
    requires Valid(st) && n <= |lines| && RunFrom(st, lines[..n], parseInt).Err?
    ensures RunFrom(st, lines, parseInt) == RunFrom(st, lines[..n], parseInt)
  {
    RunFromConcat(st, lines[..n], lines[n..], parseInt);
    assert lines[..n] + lines[n..] == lines;
  }

  /** Empty lines and comments never affect the result, wherever they stand. */
  lemma SkippedLineIgnored(st: ParseState, a: seq<string>, line: string, b: seq<string>, parseInt: string -> Option<int>)
    requires Valid(st) && Skipped(line)
    ensures RunFrom(st, a + [line] + b, parseInt) == RunFrom(st, a + b, parseInt)
  {
    RunFromConcat(st, a + [line], b, parseInt);
    RunFromConcat(st, a, [line], parseInt);
    RunFromConcat(st, a, b, parseInt);
    assert [line][..0] == [];
  }

  /** A section line only opens its section. */
  lemma SectionLineOpens(st: ParseState, line: string, parseInt: string -> Option<int>)
    requires Valid(st) && SectionLine(line)
    ensures Step(st, line, parseInt) == Ok(ParseState(line, st.current, st.profiles))
  {
    assert !Skipped(line);
  }

  /** Until a line opens the profiles section, nothing but the section changes. */
  lemma {:induction false} OutsideProfilesIgnored(st: ParseState, lines: seq<string>, parseInt: string -> Option<int>)
    requires Valid(st) && st.section != ProfilesSection
    requires forall i :: 0 <= i < |lines| ==> lines[i] != ProfilesSection
    ensures RunFrom(st, lines, parseInt).Ok?
    ensures RunFrom(st, lines, parseInt).value.section != ProfilesSection
    ensures RunFrom(st, lines, parseInt).value.current == st.current
    ensures RunFrom(st, lines, parseInt).value.profiles == st.profiles
    decreases |lines|
  {
    if lines != [] {
      OutsideProfilesIgnored(st, lines[..|lines| - 1], parseInt);
    }
  }

  /** Before the first `[name]` line, property and filter lines are ignored: no profile
      exists yet. */
  lemma {:induction false} NoHeaderNoProfile(st: ParseState, lines: seq<string>, parseInt: string -> Option<int>)
    requires Valid(st) && st.current.None?
    requires forall i :: 0 <= i < |lines| ==> !HeaderLine(lines[i])
    ensures RunFrom(st, lines, parseInt).Ok?
    ensures RunFrom(st, lines, parseInt).value.current.None?
    ensures RunFrom(st, lines, parseInt).value.profiles == st.profiles
    decreases |lines|
  {
    if lines != [] {
      NoHeaderNoProfile(st, lines[..|lines| - 1], parseInt);
    }
  }

  /** In the profiles section, a `[name]` line makes `name` current and (re)creates it with
      an empty filter list only; no other profile changes. */
  lemma HeaderStartsProfile(st: ParseState, line: string, parseInt: string -> Option<int>)
    requires Valid(st) && st.section == ProfilesSection && HeaderLine(line)
    ensures var r := Step(st, line, parseInt);
      var name := line[1..|line| - 1];
      r.Ok? && r.value.current == Some(name) && r.value.section == ProfilesSection &&
      r.value.profiles[name] == map["filters" := JList([])] &&
      r.value.profiles.Keys == st.profiles.Keys + {name} &&
      forall q :: q in st.profiles && q != name ==> r.value.profiles[q] == st.profiles[q]
  {
    assert !Skipped(line) && !SectionLine(line);
  }

  /** The filter list of the current profile, when it is one. */
  function FiltersOf(st: ParseState): Option<seq<Json>>
    requires Valid(st)
  {
    if st.current.Some? && st.profiles[st.current.value]["filters"].JList? then
      Some(st.profiles[st.current.value]["filters"].items)
    else None
  }

  /** The filter templates `>>` lines hold, in order. */
  function FilterTexts(lines: seq<string>): seq<Json>
    requires forall i :: 0 <= i < |lines| ==> FilterLine(lines[i])
    decreases |lines|
  {
    if lines == [] then []
    else
      var last := lines[|lines| - 1];
      assert FilterLine(last);
      FilterTexts(lines[..|lines| - 1]) + [JStr(last[2..])]
  }

  /** The current profile's filters and its other entries, and every other profile, are
      the same in `s` as in `st`, except that the filters grew by `added`. */
  ghost predicate FiltersGrew(st: ParseState, s: ParseState, added: seq<Json>)
    requires Valid(st) && Valid(s) && FiltersOf(st).Some?
  {
    var p := st.current.value;
    s.section == st.section && s.current == st.current && s.profiles.Keys == st.profiles.Keys &&
    FiltersOf(s) == Some(FiltersOf(st).value + added) &&
    (forall q :: q in st.profiles && q != p ==> s.profiles[q] == st.profiles[q]) &&
    (forall k :: k in st.profiles[p] && k != "filters" ==> k in s.profiles[p] && s.profiles[p][k] == st.profiles[p][k])
  }

  /** A `>>` line appends its template to the current profile's filter list. */
  lemma FilterLineAppends(st: ParseState, line: string, parseInt: string -> Option<int>)
    requires Valid(st) && st.section == ProfilesSection && FiltersOf(st).Some? && FilterLine(line)
    ensures Step(st, line, parseInt).Ok? && FiltersGrew(st, Step(st, line, parseInt).value, [JStr(line[2..])])
  {
    assert !Skipped(line) && !SectionLine(line) && !HeaderLine(line);
  }

  /** FiltersGrew composes. */
  lemma FiltersGrewTrans(st: ParseState, s: ParseState, u: ParseState, a: seq<Json>, b: seq<Json>)
    requires Valid(st) && Valid(s) && Valid(u) && FiltersOf(st).Some? && FiltersOf(s).Some?
    requires FiltersGrew(st, s, a) && FiltersGrew(s, u, b)
    ensures FiltersGrew(st, u, a + b)
  {
    assert FiltersOf(st).value + a + b == FiltersOf(st).value + (a + b);
  }

  /** Consecutive `>>` lines append their templates to the current profile's filters in
      file order, and change nothing else. */
  lemma {:induction false} FiltersInFileOrder(st: ParseState, lines: seq<string>, parseInt: string -> Option<int>)
    requires Valid(st) && st.section == ProfilesSection && FiltersOf(st).Some?
    requires forall i :: 0 <= i < |lines| ==> FilterLine(lines[i])
    ensures RunFrom(st, lines, parseInt).Ok?
    ensures FiltersGrew(st, RunFrom(st, lines, parseInt).value, FilterTexts(lines))
    decreases |lines|
  {
    if lines == [] {
      assert FiltersOf(st).value + [] == FiltersOf(st).value;
    } else {
      var front := lines[..|lines| - 1];
      var line := lines[|lines| - 1];
      FiltersInFileOrder(st, front, parseInt);
      var s := RunFrom(st, front, parseInt).value;
      FilterLineAppends(s, line, parseInt);
      FiltersGrewTrans(st, s, Step(s, line, parseInt).value, FilterTexts(front), [JStr(line[2..])]);
    }
  }

  /** A `key=value` line in a profile sets the property named by the text before the first
      '=' (LogFile renamed logFile) to the value after it, an integer when int() accepts it;
      a line without '=' is ignored. */
  lemma PropertyLineSets(st: ParseState, line: string, parseInt: string -> Option<int>)
    requires Valid(st) && st.section == ProfilesSection && st.current.Some?
    requires !Skipped(line) && !SectionLine(line) && !HeaderLine(line) && !FilterLine(line)
    ensures var r := Step(st, line, parseInt);
      var p := st.current.value;
      r.Ok? && r.value.current == st.current && r.value.section == st.section &&
      ('=' !in line ==> r.value == st) &&
      ('=' in line ==>
        exists i :: 0 <= i < |line| && line[i] == '=' && '=' !in line[..i] &&
          r.value.profiles == st.profiles[p := st.profiles[p][PropertyName(line[..i]) := PropertyValue(line[i + 1..], parseInt)]])
  {
    var e := EqualsAt(line);
    if e.Some? {
      var i := e.value;
      assert line[i] == '=' && '=' !in line[..i];
    }
  }

  /** The property names stored: never the old spelling LogFile, and never holding '='. */
  ghost predicate Keys(st: ParseState) {
    forall p :: p in st.profiles ==> NamesOk(st.profiles[p])
  }

  ghost predicate NamesOk(props: map<string, Json>) {
    forall k :: k in props ==> k != "LogFile" && '=' !in k
  }

  /** A stored property name is never LogFile and holds no '='. */
  lemma StoredName(line: string, i: nat)
    requires i < |line| && '=' !in line[..i]
    ensures PropertyName(line[..i]) != "LogFile" && '=' !in PropertyName(line[..i])
  {
    assert '=' !in "logFile";
    assert "logFile"[0] != "LogFile"[0];
  }

  lemma StepKeys(st: ParseState, line: string, parseInt: string -> Option<int>)
    requires Valid(st) && Keys(st) && Step(st, line, parseInt).Ok?
    ensures Keys(Step(st, line, parseInt).value)
  {
    var s := Step(st, line, parseInt).value;
    assert "filters" != "LogFile" by { assert "filters"[0] != "LogFile"[0]; }
    assert '=' !in "filters";
    assert NamesOk(map["filters" := JList([])]);
    if s.profiles != st.profiles && !HeaderLine(line) {
      var p := st.current.value;
      assert NamesOk(st.profiles[p]);
      var e := EqualsAt(line);
      if FilterLine(line) {
        assert NamesOk(s.profiles[p]);
      } else {
        StoredName(line, e.value);
        assert NamesOk(s.profiles[p]);
      }
    }
  }

  /** No profile of the result has a LogFile key or a key holding '=': the first is renamed
      and every key is cut at the first '='. */
  lemma {:induction false} KeysWellFormed(st: ParseState, lines: seq<string>, parseInt: string -> Option<int>)
    requires Valid(st) && Keys(st)
    ensures RunFrom(st, lines, parseInt).Ok? ==> Keys(RunFrom(st, lines, parseInt).value)
    decreases |lines|
  {
    if lines != [] {
      var front := lines[..|lines| - 1];
      KeysWellFormed(st, front, parseInt);
      var r := RunFrom(st, front, parseInt);
      if r.Ok? && Step(r.value, lines[|lines| - 1], parseInt).Ok? {
        StepKeys(r.value, lines[|lines| - 1], parseInt);
      }
    }
  }

  /** Every converted profile has a `filters` entry, and none has a LogFile key. */
  lemma ConvertedProfiles(lines: seq<string>, parseInt: string -> Option<int>)
    requires Converted(lines, parseInt).Ok?
    ensures forall p :: p in Converted(lines, parseInt).value ==>
      "filters" in Converted(lines, parseInt).value[p] && "LogFile" !in Converted(lines, parseInt).value[p]
  {
    assert Keys(Initial);
    KeysWellFormed(Initial, lines, parseInt);
    var st := RunFrom(Initial, lines, parseInt).value;
    assert Keys(st) && Valid(st);
    forall p | p in st.profiles ensures "filters" in st.profiles[p] && "LogFile" !in st.profiles[p] {
      assert NamesOk(st.profiles[p]);
    }
  }

  /** Every filter list is a list. */
  ghost predicate FilterLists(st: ParseState) {
    forall p :: p in st.profiles && "filters" in st.profiles[p] ==> st.profiles[p]["filters"].JList?
  }

  /** A line that sets the `filters` property itself. */
  predicate AssignsFilters(line: string) {
    var e := EqualsAt(line);
    e.Some? && line[..e.value] == "filters"
  }

  /** One line: the only error is the append to a replaced filter entry, and a line that
      does not assign `filters` keeps every filter entry a list. */
  lemma StepErrors(st: ParseState, line: string, parseInt: string -> Option<int>)
    requires Valid(st)
    ensures Step(st, line, parseInt).Err? ==> Step(st, line, parseInt).error == AppendAttributeError("filters")
    ensures FilterLists(st) && !AssignsFilters(line) ==>
      Step(st, line, parseInt).Ok? && FilterLists(Step(st, line, parseInt).value)
  {
    var e := EqualsAt(line);
    if e.Some? && !AssignsFilters(line) {
      assert PropertyName(line[..e.value]) != "filters";
    }
  }

  /** The one exception the loop can raise is AttributeError, from appending to a filter
      entry that a `filters=` line replaced; without such a line the conversion succeeds. */
  lemma {:induction false} ConversionErrors(st: ParseState, lines: seq<string>, parseInt: string -> Option<int>)
    requires Valid(st)
    ensures RunFrom(st, lines, parseInt).Err? ==> RunFrom(st, lines, parseInt).error == AppendAttributeError("filters")
    ensures FilterLists(st) && (forall i :: 0 <= i < |lines| ==> !AssignsFilters(lines[i])) ==>
      RunFrom(st, lines, parseInt).Ok? && FilterLists(RunFrom(st, lines, parseInt).value)
    decreases |lines|
  {
    if lines != [] {
      var front := lines[..|lines| - 1];
      var line := lines[|lines| - 1];
      ConversionErrors(st, front, parseInt);
      var r := RunFrom(st, front, parseInt);
      if r.Ok? {
        StepErrors(r.value, line, parseInt);
      }
      if FilterLists(st) && (forall i :: 0 <= i < |lines| ==> !AssignsFilters(lines[i])) {
        assert forall i :: 0 <= i < |front| ==> front[i] == lines[i];
        assert !AssignsFilters(line);
      }
    }
  }

}
