/**
 * The incremental log scanner of log_manipulator.py.
 *
 * A LogParser remembers how far it has read a log file (size, modification time and a
 * fingerprint of the last characters it read) and a cache of the attacks found so far.
 * Each call reads only what was appended, unless the file shrank, was rewritten in
 * place, or its tail no longer matches the fingerprint; then it starts over. Every line
 * yields at most one attack: the first rule that matches decides. Attacks are grouped by
 * the attacker's address (the IP variable).
 *
 * The file is a string with its modification time (its size is its length); md5 is an
 * uninterpreted function fixed per parser; the JSON cache file is an in-memory map.
 */
module LogManipulator {
  import opened Wrappers
  import opened Rules

  // ---------------------------------------------------------------------------
  // str.splitlines()
  // ---------------------------------------------------------------------------

  /** The characters str.splitlines() breaks at ("\r\n" counts as one break). */
  predicate IsLineBreak(c: char) {
    c == '\n' || c == '\r' || c == '\U{b}' || c == '\U{c}' || '\U{1c}' <= c <= '\U{1e}'
    || c == '\U{85}' || c == '\U{2028}' || c == '\U{2029}'
  }

  predicate NoLineBreak(s: string) {
    forall k :: 0 <= k < |s| ==> !IsLineBreak(s[k])
  }

  /** The index of the first line break of `s`, or |s|. */
  function BreakAt(s: string): (k: nat)
    ensures k <= |s| && NoLineBreak(s[..k])
    ensures k < |s| ==> IsLineBreak(s[k])
  {
    if s == [] || IsLineBreak(s[0]) then 0
    else
      var k := 1 + BreakAt(s[1..]);
      assert forall i :: 1 <= i < k ==> s[..k][i] == s[1..][..k - 1][i - 1];
      k
  }

  /** Python's str.splitlines(): the lines without their terminators; a final terminator
      does not start another line. */
  function SplitLines(s: string): (lines: seq<string>)
    ensures forall i :: 0 <= i < |lines| ==> NoLineBreak(lines[i])
    decreases |s|
  {
    if s == [] then []
    else
      var k := BreakAt(s);
      if k == |s| then assert s[..k] == s; [s]
      else
        var w := if s[k] == '\r' && k + 1 < |s| && s[k + 1] == '\n' then 2 else 1;
        [s[..k]] + SplitLines(s[k + w..])
  }

  /** Text followed by a line feed is one line, and the lines of what follows come after it. */
  lemma SplitLinesCons(line: string, rest: string)
    requires NoLineBreak(line)
    ensures SplitLines(line + "\n" + rest) == [line] + SplitLines(rest)
  {
    var s := line + "\n" + rest;
    BreakAtLine(line, rest);
    assert s[..|line|] == line;
    assert s[|line| + 1..] == rest;
  }

  lemma {:induction false} BreakAtLine(line: string, rest: string)
    requires NoLineBreak(line)
    ensures BreakAt(line + "\n" + rest) == |line|
    decreases |line|
  {
    if line != [] {
      assert (line + "\n" + rest)[1..] == line[1..] + "\n" + rest;
      assert NoLineBreak(line[1..]) by {
        forall k | 0 <= k < |line| - 1 ensures !IsLineBreak(line[1..][k]) { assert line[1..][k] == line[k + 1]; }
      }
      BreakAtLine(line[1..], rest);
      assert !IsLineBreak(line[0]);
    }
  }

  // ---------------------------------------------------------------------------
  // One line (log_manipulator.py:84-95)
  // ---------------------------------------------------------------------------

  /** Attacks grouped by the attacker's address, in the order they were logged. */
  type Attacks = map<string, seq<Attack>>

  /** What happens to an attack the first matching rule found: one older than
      now - max_age is dropped; otherwise its IP variable (KeyError when missing) is taken
      out and becomes the key it is filed under. */
  function Admit(a: Attack, clock: Clock, maxAge: Option<int>): Result<Option<(string, Attack)>> {
    if maxAge.Some? && clock.now - maxAge.value > a.timestamp then Ok(None)
    else if "IP" !in a.vars then Err(KeyError("IP"))
    else Ok(Some((a.vars["IP"], a.(vars := a.vars - {"IP"}))))
  }

  /** The inner loop over the rules for one line: rules are tried in order until one
      matches; its attack is admitted or dropped and no later rule is tried. */
  function LineAttack(rules: seq<Rule>, line: string, clock: Clock, maxAge: Option<int>): Result<Option<(string, Attack)>>
    decreases |rules|
  {
    if rules == [] then Ok(None)
    else match GetVariables(rules[0], line, clock)
      case Err(e) => Err(e)
      case Ok(None) => LineAttack(rules[1..], line, clock, maxAge)
      case Ok(Some(a)) => Admit(a, clock, maxAge)
  }

  /** The first rule that matches decides the line, even when its attack is then dropped
      as too old. */
  lemma {:induction false} FirstMatchDecides(rules: seq<Rule>, line: string, clock: Clock, maxAge: Option<int>, i: nat)
    requires i < |rules| && GetVariables(rules[i], line, clock) != Ok(None)
    requires forall j :: 0 <= j < i ==> GetVariables(rules[j], line, clock) == Ok(None)
    ensures LineAttack(rules, line, clock, maxAge) ==
      match GetVariables(rules[i], line, clock)
      case Err(e) => Err(e)
      case Ok(a) => Admit(a.value, clock, maxAge)
  {
    if i > 0 {
      FirstMatchDecides(rules[1..], line, clock, maxAge, i - 1);
    }
  }

  /** A line no rule matches yields nothing. */
  lemma {:induction false} NoMatchNoAttack(rules: seq<Rule>, line: string, clock: Clock, maxAge: Option<int>)
    requires forall j :: 0 <= j < |rules| ==> !Test(rules[j], line)
    ensures LineAttack(rules, line, clock, maxAge) == Ok(None)
    decreases |rules|
  {
    if rules != [] {
      GetVariablesNoneIffNoMatch(rules[0], line, clock);
      NoMatchNoAttack(rules[1..], line, clock, maxAge);
    }
  }

  /** An admitted attack keeps the match's timestamp and variables, except IP. */
  lemma AdmitResult(a: Attack, clock: Clock, maxAge: Option<int>)
    ensures Admit(a, clock, maxAge).Ok? && Admit(a, clock, maxAge).value.Some? <==>
      (maxAge.None? || clock.now - maxAge.value <= a.timestamp) && "IP" in a.vars
    ensures Admit(a, clock, maxAge).Ok? && Admit(a, clock, maxAge).value.Some? ==>
      var (ip, b) := Admit(a, clock, maxAge).value.value;
      ip == a.vars["IP"] && b.timestamp == a.timestamp && "IP" !in b.vars &&
      forall x :: x in b.vars <==> x in a.vars && x != "IP"
  {
  }

  // ---------------------------------------------------------------------------
  // All lines (log_manipulator.py:84-95, guardian.py:23-34)
  // ---------------------------------------------------------------------------

  /** Files attack `a` under `ip`, after the ones already there. */
  function Record(m: Attacks, ip: string, a: Attack): Attacks {
    m[ip := (if ip in m then m[ip] else []) + [a]]
  }

  /** The loop over the lines: each line's attack is appended under its address; the first
      line that raises stops everything. */
  function Collect(rules: seq<Rule>, lines: seq<string>, clock: Clock, maxAge: Option<int>): Result<Attacks>
    decreases |lines|
  {
    if lines == [] then Ok(map[])
    else match Collect(rules, lines[..|lines| - 1], clock, maxAge)
      case Err(e) => Err(e)
      case Ok(m) =>
        match LineAttack(rules, lines[|lines| - 1], clock, maxAge)
        case Err(e) => Err(e)
        case Ok(None) => Ok(m)
        case Ok(Some(p)) => Ok(Record(m, p.0, p.1))
  }

  /** The exceptions a line can raise: a missing IP variable, a date that does not parse,
      a missing group, a blank capture. */
  predicate LineError(e: Error) {
    e.KeyError? || e.DateValueError? || e.GroupIndexError? || e.WhitespaceIndexError?
  }

  /** Every exception that escapes the loop over the lines is one a line raised. */
  lemma {:induction false} CollectErrors(rules: seq<Rule>, lines: seq<string>, clock: Clock, maxAge: Option<int>)
    ensures Collect(rules, lines, clock, maxAge).Err? ==> LineError(Collect(rules, lines, clock, maxAge).error)
    decreases |lines|
  {
    if lines != [] {
      CollectErrors(rules, lines[..|lines| - 1], clock, maxAge);
      LineAttackErrors(rules, lines[|lines| - 1], clock, maxAge);
    }
  }

  lemma {:induction false} LineAttackErrors(rules: seq<Rule>, line: string, clock: Clock, maxAge: Option<int>)
    ensures LineAttack(rules, line, clock, maxAge).Err? ==> LineError(LineAttack(rules, line, clock, maxAge).error)
    decreases |rules|
  {
    if rules != [] {
      var r := rules[0];
      match Search(r.items, line) {
        case None =>
        case Some(caps) => BindErrors(r.variables, Cleaned(caps, r.legacy));
      }
      LineAttackErrors(rules[1..], line, clock, maxAge);
    }
  }

  /** The attacks the lines hold for address `ip`, in line order (a reference definition,
      read from the first line on). */
  function AttacksOf(rules: seq<Rule>, lines: seq<string>, clock: Clock, maxAge: Option<int>, ip: string): seq<Attack>
    decreases |lines|
  {
    if lines == [] then [] else LineAttacksOf(rules, lines[0], clock, maxAge, ip) + AttacksOf(rules, lines[1..], clock, maxAge, ip)
  }

  /** The attack one line holds for address `ip`, if any. */
  function LineAttacksOf(rules: seq<Rule>, line: string, clock: Clock, maxAge: Option<int>, ip: string): seq<Attack> {
    match LineAttack(rules, line, clock, maxAge)
    case Ok(Some(p)) => if p.0 == ip then [p.1] else []
    case _ => []
  }

  lemma {:induction false} AttacksOfSnoc(rules: seq<Rule>, lines: seq<string>, clock: Clock, maxAge: Option<int>, ip: string)
    requires lines != []
    ensures AttacksOf(rules, lines, clock, maxAge, ip) ==
      AttacksOf(rules, lines[..|lines| - 1], clock, maxAge, ip) + LineAttacksOf(rules, lines[|lines| - 1], clock, maxAge, ip)
    decreases |lines|
  {
    if |lines| > 1 {
      AttacksOfSnoc(rules, lines[1..], clock, maxAge, ip);
      assert lines[1..][..|lines| - 2] == lines[..|lines| - 1][1..];
    } else {
      assert lines[..0] == [];
    }
  }

  /** Grouping keeps every address's attacks in line order: the result files under `ip`
      exactly the attacks the lines hold for it, and holds no address without one. */
  lemma {:induction false} CollectPerAddress(rules: seq<Rule>, lines: seq<string>, clock: Clock, maxAge: Option<int>)
    requires Collect(rules, lines, clock, maxAge).Ok?
    ensures forall ip :: ip in Collect(rules, lines, clock, maxAge).value <==>
      AttacksOf(rules, lines, clock, maxAge, ip) != []
    ensures forall ip :: ip in Collect(rules, lines, clock, maxAge).value ==>
      Collect(rules, lines, clock, maxAge).value[ip] == AttacksOf(rules, lines, clock, maxAge, ip)
    decreases |lines|
  {
    if lines != [] {
      var front := lines[..|lines| - 1];
      CollectPerAddress(rules, front, clock, maxAge);
      var r := Collect(rules, lines, clock, maxAge).value;
      forall ip
        ensures ip in r <==> AttacksOf(rules, lines, clock, maxAge, ip) != []
        ensures ip in r ==> r[ip] == AttacksOf(rules, lines, clock, maxAge, ip)
      {
        AttacksOfSnoc(rules, lines, clock, maxAge, ip);
      }
    }
  }

  /** A line that raises makes the whole scan raise, whatever follows it. */
  lemma {:induction false} CollectErrorSticks(rules: seq<Rule>, lines: seq<string>, n: nat, clock: Clock, maxAge: Option<int>)
    requires n <= |lines| && Collect(rules, lines[..n], clock, maxAge).Err?
    ensures Collect(rules, lines, clock, maxAge) == Collect(rules, lines[..n], clock, maxAge)
    decreases |lines| - n
  {
    if n < |lines| {
      var m := |lines| - 1;
      assert lines[..m][..n] == lines[..n];
      CollectErrorSticks(rules, lines[..m], n, clock, maxAge);
    } else {
      assert lines[..n] == lines;
    }
  }

  /** The inner loop for one line (log_manipulator.py:85-95): rules in order until one
      matches; the first match is admitted, dropped as too old, or raises without IP. */
  method MatchLine(rules: seq<Rule>, line: string, clock: Clock, maxAge: Option<int>) returns (r: Result<Option<(string, Attack)>>)
    ensures r == LineAttack(rules, line, clock, maxAge)
  {
    var j := 0;
    while j < |rules|
      invariant j <= |rules|
      invariant LineAttack(rules, line, clock, maxAge) == LineAttack(rules[j..], line, clock, maxAge)
    {
      var v := GetVariables(rules[j], line, clock);
      if v.Err? {
        return Err(v.error);
      }
      if v.value.Some? {
        var a := v.value.value;
        if maxAge.Some? && clock.now - maxAge.value > a.timestamp {
          // too old: the line is skipped
          return Ok(None);
        }
        if "IP" !in a.vars {
          return Err(KeyError("IP"));
        }
        return Ok(Some((a.vars["IP"], a.(vars := a.vars - {"IP"}))));
      }
      j := j + 1;
    }
    r := Ok(None);
  }

  /** The loop over the lines (log_manipulator.py:84-95): each line's attack is appended
      under its address; an exception ends the scan. */
  method CollectAttacks(rules: seq<Rule>, lines: seq<string>, clock: Clock, maxAge: Option<int>) returns (r: Result<Attacks>)
    ensures r == Collect(rules, lines, clock, maxAge)
  {
    var attacks: Attacks := map[];
    for n := 0 to |lines|
      invariant Collect(rules, lines[..n], clock, maxAge) == Ok(attacks)
    {
      assert lines[..n + 1][..n] == lines[..n];
      var found := MatchLine(rules, lines[n], clock, maxAge);
      if found.Err? {
        r := Err(found.error);
        CollectErrorSticks(rules, lines, n + 1, clock, maxAge);
        return;
      }
      if found.value.Some? {
        var (ip, a) := found.value.value;
        var item := if ip in attacks then attacks[ip] else [];
        attacks := attacks[ip := item + [a]];
      }
    }
    assert lines[..|lines|] == lines;
    r := Ok(attacks);
  }

  // ---------------------------------------------------------------------------
  // Habitual offenders (log_manipulator.py:111-137, guardian.py:38-54)
  // ---------------------------------------------------------------------------

  /** How many attacks of `list` happened in the window [t, t + window]. */
  function WindowCount(list: seq<Attack>, t: int, window: int): (n: nat)
    ensures n <= |list|
  {
    if list == [] then 0
    else (if 0 <= list[0].timestamp - t <= window then 1 else 0) + WindowCount(list[1..], t, window)
  }

  /** An address is a habitual offender when, counting forward from one of its attacks,
      at least `minAttempts` of its attacks fall within `window` seconds. */
  predicate Habitual(list: seq<Attack>, minAttempts: int, window: int) {
    exists i :: 0 <= i < |list| && WindowCount(list, list[i].timestamp, window) >= minAttempts
  }

  /** The habitual offenders among `attacks`, each with its whole attack list. */
  function Offenders(attacks: Attacks, minAttempts: int, window: int): Attacks {
    map ip | ip in attacks && Habitual(attacks[ip], minAttempts, window) :: attacks[ip]
  }

  lemma {:induction false} WindowCountSnoc(list: seq<Attack>, t: int, window: int)
    requires list != []
    ensures WindowCount(list, t, window) ==
      WindowCount(list[..|list| - 1], t, window) + (if 0 <= list[|list| - 1].timestamp - t <= window then 1 else 0)
    decreases |list|
  {
    if |list| > 1 {
      WindowCountSnoc(list[1..], t, window);
      assert list[1..][..|list| - 2] == list[..|list| - 1][1..];
    }
  }

  lemma {:induction false} WindowCountPrefix(list: seq<Attack>, k: nat, t: int, window: int)
    requires k <= |list|
    ensures WindowCount(list[..k], t, window) <= WindowCount(list, t, window)
    decreases |list| - k
  {
    if k < |list| {
      WindowCountPrefix(list[..|list| - 1], k, t, window);
      WindowCountSnoc(list, t, window);
      assert list[..|list| - 1][..k] == list[..k];
    } else {
      assert list[..k] == list;
    }
  }

  /** Where the counting loop stops: as soon as the count exceeds `minAttempts`. */
  function StopCount(minAttempts: int): nat {
    if minAttempts + 1 >= 1 then minAttempts + 1 else 1
  }

  /** The innermost loop (log_manipulator.py:127-132): counts the attacks in the window
      starting at `t`, and stops early once the count exceeds `minAttempts`. */
  method CountInWindow(list: seq<Attack>, t: int, window: int, minAttempts: int) returns (count: nat)
    ensures count == if WindowCount(list, t, window) < StopCount(minAttempts)
                     then WindowCount(list, t, window) else StopCount(minAttempts)
  {
    count := 0;
    var k := 0;
    while k < |list|
      invariant k <= |list| && count == WindowCount(list[..k], t, window) && count < StopCount(minAttempts)
    {
      WindowCountSnoc(list[..k + 1], t, window);
      assert list[..k + 1][..k] == list[..k];
      var delta := list[k].timestamp - t;
      if 0 <= delta <= window {
        count := count + 1;
        if count > minAttempts {
          WindowCountPrefix(list, k + 1, t, window);
          return;
        }
      }
      k := k + 1;
    }
    assert list[..k] == list;
  }

  /** Stopping early never changes the verdict. */
  lemma EarlyStopKeepsVerdict(n: nat, minAttempts: int)
    ensures (if n < StopCount(minAttempts) then n else StopCount(minAttempts)) >= minAttempts <==> n >= minAttempts
  {
  }

  /** The middle loop (log_manipulator.py:126-135): does some attack start a window with
      enough attacks. */
  method IsHabitual(list: seq<Attack>, minAttempts: int, window: int) returns (b: bool)
    ensures b == Habitual(list, minAttempts, window)
  {
    b := false;
    for k := 0 to |list|
      invariant b <==> exists i :: 0 <= i < k && WindowCount(list, list[i].timestamp, window) >= minAttempts
    {
      var count := CountInWindow(list, list[k].timestamp, window, minAttempts);
      EarlyStopKeepsVerdict(WindowCount(list, list[k].timestamp, window), minAttempts);
      if count >= minAttempts {
        b := true;
      }
    }
  }

  /** get_habitual_offenders on a given attack map (log_manipulator.py:124-137): every
      address that is a habitual offender, with its whole list. */
  method FindOffenders(attacks: Attacks, minAttempts: int, window: int) returns (r: Attacks)
    ensures r == Offenders(attacks, minAttempts, window)
  {
    r := map[];
    var pending := attacks.Keys;
    while pending != {}
      invariant pending <= attacks.Keys
      invariant forall ip :: ip in r <==> ip in attacks && ip !in pending && Habitual(attacks[ip], minAttempts, window)
      invariant forall ip :: ip in r ==> r[ip] == attacks[ip]
      decreases |pending|
    {
      var ip :| ip in pending;
      var b := IsHabitual(attacks[ip], minAttempts, window);
      if b {
        r := r[ip := attacks[ip]];
      }
      pending := pending - {ip};
    }
  }

  /** The offenders are some of the addresses, each with its full list; an address whose
      attacks all fall in one window of at least `minAttempts` attacks is one. */
  lemma OffendersFacts(attacks: Attacks, minAttempts: int, window: int, ip: string)
    ensures Offenders(attacks, minAttempts, window).Keys <= attacks.Keys
    ensures ip in Offenders(attacks, minAttempts, window) ==> Offenders(attacks, minAttempts, window)[ip] == attacks[ip]
    ensures ip in attacks && |attacks[ip]| > 0 && |attacks[ip]| >= minAttempts && window >= 0 &&
      (forall k :: 0 <= k < |attacks[ip]| ==> attacks[ip][0].timestamp <= attacks[ip][k].timestamp <= attacks[ip][0].timestamp + window)
      ==> ip in Offenders(attacks, minAttempts, window)
  {
    if ip in attacks && |attacks[ip]| > 0 && |attacks[ip]| >= minAttempts && window >= 0 &&
      (forall k :: 0 <= k < |attacks[ip]| ==> attacks[ip][0].timestamp <= attacks[ip][k].timestamp <= attacks[ip][0].timestamp + window)
    {
      var list := attacks[ip];
      WindowCountAll(list, list[0].timestamp, window);
    }
  }

  lemma {:induction false} WindowCountAll(list: seq<Attack>, t: int, window: int)
    requires forall k :: 0 <= k < |list| ==> t <= list[k].timestamp <= t + window
    ensures WindowCount(list, t, window) == |list|
    decreases |list|
  {
    if list != [] {
      WindowCountAll(list[1..], t, window);
    }
  }

  // ---------------------------------------------------------------------------
  // The scanner state machine (log_manipulator.py:12-151)
  // ---------------------------------------------------------------------------

  /** The log file as parse_attacks sees it: its text and modification time. */
  datatype LogFile = LogFile(content: string, mtime: int)

  /** What a LogParser remembers between calls: the size and modification time of the file
      when it was last read to the end, the md5 and length of the last characters read,
      and the cached attacks. */
  datatype Cursor = Cursor(size: nat, mtime: Option<int>, tailHash: Option<int>, tailLen: nat, cache: Attacks)

  /** The number of trailing characters the fingerprint covers at most. */
  const TailWindow: nat := 256

  /** force_rescan (log_manipulator.py:139-151): size 0, no modification time, empty cache;
      the fingerprint is kept. */
  function Rescanned(c: Cursor): Cursor {
    c.(size := 0, mtime := None, cache := map[])
  }

  /** The cursor after a call, and what the call returns. */
  datatype Outcome = Outcome(cursor: Cursor, result: Result<Attacks>)

  /** The last min(256, |s|) characters of `s`. */
  function Tail(s: string): (t: string)
    ensures |t| == if |s| < TailWindow then |s| else TailWindow
    ensures t == s[|s| - |t|..]
  {
    s[|s| - (if |s| < TailWindow then |s| else TailWindow)..]
  }

  /** The file grew, shrank or was touched since the last full read, so the cursor is
      reset (log_manipulator.py:55-63). */
  predicate Changed(c: Cursor, f: LogFile) {
    c.size > |f.content| || (c.size == |f.content| && c.mtime != Some(f.mtime))
  }

  /** The fingerprint check reads the `tailLen` characters before the old end of file
      (log_manipulator.py:65-71); it applies when the cursor was not reset and a
      fingerprint exists. */
  predicate TailChecked(c: Cursor, f: LogFile) {
    !Changed(c, f) && c.tailHash.Some?
  }

  /** LogParser.parse_attacks, as a function of the cursor before the call. A missing file
      raises (getsize); an unchanged size and modification time return nothing; a seek to
      before the start of the file raises ValueError. */
  function Scan(c: Cursor, rules: seq<Rule>, digest: string -> int, file: Option<LogFile>,
                clock: Clock, maxAge: Option<int>): Outcome
  {
    match file
    case None => Outcome(c, Err(FileNotFoundError))
    case Some(f) =>
      if c.size == |f.content| && c.mtime == Some(f.mtime) then Outcome(c, Ok(map[]))
      else if TailChecked(c, f) && c.size < c.tailLen then
        Outcome(if Changed(c, f) then Rescanned(c) else c, Err(SeekValueError))
      else ReadFrom(StartOf(c, digest, f), rules, digest, f, clock, maxAge)
  }

  /** The cursor the read starts from: reset when the file changed or its fingerprint no
      longer matches (log_manipulator.py:55-71). */
  function StartOf(c: Cursor, digest: string -> int, f: LogFile): (s: Cursor)
    requires !(TailChecked(c, f) && c.size < c.tailLen)
    ensures s.size <= |f.content|
    ensures s.tailHash == c.tailHash && s.tailLen == c.tailLen
  {
    if Changed(c, f) then Rescanned(c)
    else if TailChecked(c, f) && digest(f.content[c.size - c.tailLen..c.size]) != c.tailHash.value then Rescanned(c)
    else c
  }

  /** Reads the text after `s.size`, fingerprints its tail, and on success records the
      file's size and modification time and merges the cache (log_manipulator.py:73-109). */
  function ReadFrom(s: Cursor, rules: seq<Rule>, digest: string -> int, f: LogFile, clock: Clock, maxAge: Option<int>): Outcome
    requires s.size <= |f.content|
  {
    var appended := f.content[s.size..];
    var c3 := s.(tailHash := Some(digest(Tail(appended))), tailLen := |Tail(appended)|);
    match Collect(rules, SplitLines(appended), clock, maxAge)
    case Err(e) => Outcome(c3, Err(e))
    case Ok(found) =>
      Outcome(c3.(size := |f.content|, mtime := Some(f.mtime), cache := found + c3.cache), Ok(found + c3.cache))
  }

  /** What reading from cursor `s` does: the fingerprint covers the last
      min(256, |read|) characters read; an exception leaves size, modification time and
      cache as they were; success records the file's size and modification time and
      returns the attacks found merged with the cache, which becomes the new cache. */
  lemma ReadFromFacts(s: Cursor, rules: seq<Rule>, digest: string -> int, f: LogFile, clock: Clock, maxAge: Option<int>)
    requires s.size <= |f.content|
    ensures var o := ReadFrom(s, rules, digest, f, clock, maxAge);
      var n := o.cursor.tailLen;
      n <= TailWindow && n <= |f.content| - s.size &&
      (n < TailWindow ==> n == |f.content| - s.size) &&
      o.cursor.tailHash == Some(digest(f.content[|f.content| - n..])) &&
      (o.result.Err? ==> o.cursor.(tailHash := s.tailHash, tailLen := s.tailLen) == s &&
                         o.result == Collect(rules, SplitLines(f.content[s.size..]), clock, maxAge)) &&
      (o.result.Ok? ==> Collect(rules, SplitLines(f.content[s.size..]), clock, maxAge).Ok? &&
                        o.result.value == Collect(rules, SplitLines(f.content[s.size..]), clock, maxAge).value + s.cache &&
                        o.cursor.size == |f.content| && o.cursor.mtime == Some(f.mtime) &&
                        o.cursor.cache == o.result.value)
  {
    var appended := f.content[s.size..];
    assert f.content[|f.content| - |Tail(appended)|..] == appended[|appended| - |Tail(appended)|..];
  }

  /** A file whose size and modification time are the recorded ones is not read: the
      result is empty and the cursor unchanged. */
  lemma ScanUnchangedFile(c: Cursor, rules: seq<Rule>, digest: string -> int, f: LogFile, clock: Clock, maxAge: Option<int>)
    requires c.size == |f.content| && c.mtime == Some(f.mtime)
    ensures Scan(c, rules, digest, Some(f), clock, maxAge) == Outcome(c, Ok(map[]))
  {
  }

  /** A missing file raises and leaves the cursor as it is. */
  lemma ScanMissingFile(c: Cursor, rules: seq<Rule>, digest: string -> int, clock: Clock, maxAge: Option<int>)
    ensures Scan(c, rules, digest, None, clock, maxAge) == Outcome(c, Err(FileNotFoundError))
  {
  }

  /** A file that shrank, was touched without growing, or whose tail no longer matches
      the fingerprint is read again from the start, with the cache dropped: the call
      returns exactly what the lines of the whole file yield. */
  lemma ScanRescan(c: Cursor, rules: seq<Rule>, digest: string -> int, f: LogFile, clock: Clock, maxAge: Option<int>)
    requires !(c.size == |f.content| && c.mtime == Some(f.mtime))
    requires Changed(c, f) ||
      (TailChecked(c, f) && c.tailLen <= c.size && digest(f.content[c.size - c.tailLen..c.size]) != c.tailHash.value)
    ensures Scan(c, rules, digest, Some(f), clock, maxAge).result == Collect(rules, SplitLines(f.content), clock, maxAge)
  {
    var s := StartOf(c, digest, f);
    assert s == Rescanned(c);
    assert Scan(c, rules, digest, Some(f), clock, maxAge) == ReadFrom(s, rules, digest, f, clock, maxAge);
    ReadFromFacts(s, rules, digest, f, clock, maxAge);
    assert f.content[s.size..] == f.content;
    var found := Collect(rules, SplitLines(f.content), clock, maxAge);
    if found.Ok? {
      assert found.value + s.cache == found.value;
    }
  }

  /** Otherwise only the appended text is read, and the cache is merged into what it
      yields: for an address already cached, the cached list wins and the new attacks
      against it are not returned. */
  lemma ScanAppended(c: Cursor, rules: seq<Rule>, digest: string -> int, f: LogFile, clock: Clock, maxAge: Option<int>)
    requires !(c.size == |f.content| && c.mtime == Some(f.mtime)) && !Changed(c, f)
    requires c.tailHash.Some? ==> c.tailLen <= c.size && digest(f.content[c.size - c.tailLen..c.size]) == c.tailHash.value
    ensures var o := Scan(c, rules, digest, Some(f), clock, maxAge);
      match Collect(rules, SplitLines(f.content[c.size..]), clock, maxAge)
      case Err(e) => o.result == Err(e)
      case Ok(found) =>
        o.result == Ok(found + c.cache) &&
        (forall ip :: ip in o.result.value <==> ip in found || ip in c.cache) &&
        (forall ip :: ip in c.cache ==> o.result.value[ip] == c.cache[ip])
  {
    assert StartOf(c, digest, f) == c;
    ReadFromFacts(c, rules, digest, f, clock, maxAge);
  }

  /** After a call that reached the lines, the fingerprint covers the last
      min(256, |read|) characters of the file, whether or not the lines parsed; a
      successful call also records the file's size and modification time, and the cache
      becomes the returned map. */
  lemma ScanFingerprint(c: Cursor, rules: seq<Rule>, digest: string -> int, f: LogFile, clock: Clock, maxAge: Option<int>)
    requires !(c.size == |f.content| && c.mtime == Some(f.mtime))
    requires !(TailChecked(c, f) && c.size < c.tailLen)
    ensures var o := Scan(c, rules, digest, Some(f), clock, maxAge);
      o.cursor.tailLen <= TailWindow && o.cursor.tailLen <= |f.content| &&
      o.cursor.tailHash == Some(digest(f.content[|f.content| - o.cursor.tailLen..])) &&
      (o.result.Ok? ==> o.cursor.size == |f.content| && o.cursor.mtime == Some(f.mtime) &&
                        o.cursor.cache == o.result.value) &&
      (o.result.Err? ==> LineError(o.result.error) && o.cursor.size == StartOf(c, digest, f).size)
  {
    var s := StartOf(c, digest, f);
    ReadFromFacts(s, rules, digest, f, clock, maxAge);
    CollectErrors(rules, SplitLines(f.content[s.size..]), clock, maxAge);
  }

  /** parse_attacks raises only for a missing file, a seek before the start of the file,
      or an exception of a line. */
  lemma ScanErrors(c: Cursor, rules: seq<Rule>, digest: string -> int, file: Option<LogFile>, clock: Clock, maxAge: Option<int>)
    ensures var r := Scan(c, rules, digest, file, clock, maxAge).result;
      r.Err? ==> r.error == FileNotFoundError || r.error == SeekValueError || LineError(r.error)
  {
    if file.Some? {
      var f := file.value;
      if !(c.size == |f.content| && c.mtime == Some(f.mtime)) && !(TailChecked(c, f) && c.size < c.tailLen) {
        ScanFingerprint(c, rules, digest, f, clock, maxAge);
      }
    }
  }

  /** A cursor whose fingerprint lies within the text already read. */
  predicate Consistent(c: Cursor) {
    c.tailHash.Some? ==> c.tailLen <= c.size
  }

  /** From a consistent cursor the fingerprint check never seeks before the start of the
      file, and a successful call leaves a consistent cursor. */
  lemma ScanConsistent(c: Cursor, rules: seq<Rule>, digest: string -> int, file: Option<LogFile>, clock: Clock, maxAge: Option<int>)
    requires Consistent(c)
    ensures Scan(c, rules, digest, file, clock, maxAge).result != Err(SeekValueError)
    ensures Scan(c, rules, digest, file, clock, maxAge).result.Ok? ==> Consistent(Scan(c, rules, digest, file, clock, maxAge).cursor)
  {
    if file.Some? && !(c.size == |file.value.content| && c.mtime == Some(file.value.mtime)) {
      ScanFingerprint(c, rules, digest, file.value, clock, maxAge);
    }
  }

  /** A call that raises on a line records the new fingerprint but not the new size. When
      that call had read from the start of a non-empty file, the fingerprint is longer than
      the recorded size (zero), and every later call on a non-empty file raises ValueError
      from the seek and leaves the cursor as it is. */
  lemma ScanStuckAfterLineError(c: Cursor, rules: seq<Rule>, digest: string -> int, f: LogFile, clock: Clock,
                                maxAge: Option<int>, g: LogFile, clock2: Clock, maxAge2: Option<int>)
    requires !(c.size == |f.content| && c.mtime == Some(f.mtime)) && !(TailChecked(c, f) && c.size < c.tailLen)
    requires StartOf(c, digest, f).size == 0
    requires f.content != [] && g.content != []
    requires Scan(c, rules, digest, Some(f), clock, maxAge).result.Err?
    ensures var c' := Scan(c, rules, digest, Some(f), clock, maxAge).cursor;
      c'.size == 0 && c'.tailLen > 0 &&
      Scan(c', rules, digest, Some(g), clock2, maxAge2) == Outcome(c', Err(SeekValueError))
  {
    var s := StartOf(c, digest, f);
    ReadFromFacts(s, rules, digest, f, clock, maxAge);
  }

  /** A parser for one log file (log_manipulator.py:12-151). */
  class LogParser {
    /** The compiled rules, in the order they are tried. */
    const rules: seq<Rule>
    /** md5 of a string, as a number. */
    const digest: string -> int

    var lastSize: nat
    var lastMtime: Option<int>
    var tailHash: Option<int>
    var tailLen: nat
    var cache: Attacks

    function State(): Cursor
      reads this
    {
      Cursor(lastSize, lastMtime, tailHash, tailLen, cache)
    }

    /** LogParser.__init__: compiles every template with the service name, and starts with
        an empty cursor and cache (log_manipulator.py:17-36). */
    constructor(templates: seq<string>, service: Option<string>, digest: string -> int)
      ensures |rules| == |templates|
      ensures forall i :: 0 <= i < |templates| ==>
        CompiledFrom(rules[i], templates[i]) && rules[i].service == service && !rules[i].legacy
      ensures this.digest == digest
      ensures State() == Cursor(0, None, None, 0, map[])
    {
      var compiled: seq<Rule> := [];
      for i := 0 to |templates|
        invariant |compiled| == i
        invariant forall k :: 0 <= k < i ==>
          CompiledFrom(compiled[k], templates[k]) && compiled[k].service == service && !compiled[k].legacy
      {
        var r := Compile(templates[i], service, false);
        compiled := compiled + [r];
      }
      rules := compiled;
      this.digest := digest;
      lastSize := 0;
      lastMtime := None;
      tailHash := None;
      tailLen := 0;
      cache := map[];
    }

    /** force_rescan (log_manipulator.py:139-151). */
    method ForceRescan()
      modifies this
      ensures State() == Rescanned(old(State()))
    {
      lastSize := 0;
      lastMtime := None;
      cache := map[];
    }

    /** parse_attacks (log_manipulator.py:38-109): reads what was appended since the last
        call (or everything, after a reset), returns the attacks found merged with the
        cache, and moves the cursor. */
    method ParseAttacks(file: Option<LogFile>, clock: Clock, maxAge: Option<int>) returns (r: Result<Attacks>)
      modifies this
      ensures Outcome(State(), r) == Scan(old(State()), rules, digest, file, clock, maxAge)
    {
      if file.None? {
        return Err(FileNotFoundError);
      }
      var f := file.value;
      var currSize := |f.content|;
      if lastSize == currSize && lastMtime == Some(f.mtime) {
        return Ok(map[]);
      }
      var seekError := ResetIfStale(f);
      if seekError {
        return Err(SeekValueError);
      }
      r := ReadAppended(f, clock, maxAge);
    }

    /** The checks before reading (log_manipulator.py:55-71): a file that shrank or was
        touched without growing resets the cursor; otherwise, when a fingerprint exists,
        a seek to before the start of the file raises ValueError and a fingerprint that no
        longer matches resets the cursor. */
    method ResetIfStale(f: LogFile) returns (seekError: bool)
      modifies this
      ensures seekError <==> TailChecked(old(State()), f) && old(State()).size < old(State()).tailLen
      ensures seekError ==> State() == old(State())
      ensures !seekError ==> State() == StartOf(old(State()), digest, f)
    {
      var currSize := |f.content|;
      var continueScanning := true;
      if lastSize > currSize {
        continueScanning := false;
        ForceRescan();
      }
      if lastSize == currSize && lastMtime != Some(f.mtime) {
        continueScanning := false;
        ForceRescan();
      }
      seekError := false;
      if continueScanning && tailHash.Some? {
        if lastSize < tailLen {
          return true;
        }
        if digest(f.content[lastSize - tailLen..lastSize]) != tailHash.value {
          ForceRescan();
        }
      }
    }

    /** The read itself (log_manipulator.py:73-109): everything after the recorded size is
        split into lines and searched, the tail of what was read is fingerprinted, and on
        success the size, modification time and cache are recorded. */
    method ReadAppended(f: LogFile, clock: Clock, maxAge: Option<int>) returns (r: Result<Attacks>)
      requires lastSize <= |f.content|
      modifies this
      ensures Outcome(State(), r) == ReadFrom(old(State()), rules, digest, f, clock, maxAge)
    {
      ghost var start := State();
      var newContent := f.content[lastSize..];
      var contentEnd := Tail(newContent);
      tailHash := Some(digest(contentEnd));
      tailLen := |contentEnd|;
      ghost var c3 := State();
      assert c3 == start.(tailHash := Some(digest(Tail(newContent))), tailLen := |Tail(newContent)|);
      var found := CollectAttacks(rules, SplitLines(newContent), clock, maxAge);
      if found.Err? {
        assert ReadFrom(start, rules, digest, f, clock, maxAge) == Outcome(c3, found);
        return found;
      }
      lastMtime := Some(f.mtime);
      lastSize := |f.content|;
      var merged := found.value + cache;
      cache := merged;
      r := Ok(merged);
      assert State() == c3.(size := |f.content|, mtime := Some(f.mtime), cache := found.value + c3.cache);
    }

    /** get_habitual_offenders (log_manipulator.py:111-137): on the given attacks, or else
        on what parse_attacks returns. */
    method GetHabitualOffenders(minAttempts: int, window: int, maxAge: Option<int>, attacks: Option<Attacks>,
                                file: Option<LogFile>, clock: Clock) returns (r: Result<Attacks>)
      modifies this
      ensures attacks.Some? ==> State() == old(State()) && r == Ok(Offenders(attacks.value, minAttempts, window))
      ensures attacks.None? ==>
        var o := Scan(old(State()), rules, digest, file, clock, maxAge);
        State() == o.cursor &&
        r == if o.result.Err? then o.result else Ok(Offenders(o.result.value, minAttempts, window))
    {
      var given: Attacks;
      if attacks.None? {
        var parsed := ParseAttacks(file, clock, maxAge);
        if parsed.Err? {
          return parsed;
        }
        given := parsed.value;
      } else {
        given := attacks.value;
      }
      var offenders := FindOffenders(given, minAttempts, window);
      r := Ok(offenders);
    }
  }
}
