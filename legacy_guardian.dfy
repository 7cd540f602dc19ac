/*
 * The older, stateless parser (guardian.py). Its Rule compiles and matches exactly like
 * the newer one; the differences are that captures are trimmed by remove_whitespaces,
 * which raises IndexError on a blank capture, and that every call re-reads the whole
 * log file, so nothing is remembered between calls.
 */
module LegacyGuardian {
  import opened Wrappers
  import opened Rules
  import opened LogManipulator

  /** remove_whitespaces (guardian.py:6-11): drops leading characters while the first is
      whitespace, then trailing ones while the last is; None stands for the IndexError
      raised when the string runs out. */
  method RemoveWhitespacesLoop(s: string) returns (r: Option<string>)
    ensures r == RemoveWhitespaces(s)
  {
    var t := s;
    while t != [] && IsSpace(t[0])
      invariant DropLeading(t) == DropLeading(s)
      decreases |t|
    {
      t := t[1..];
    }
    if t == [] {
      return None;
    }
    ghost var start := t;
    while IsSpace(t[|t| - 1])
      invariant t != [] && !IsSpace(t[0])
      invariant DropTrailing(t) == DropTrailing(start)
      decreases |t|
    {
      t := t[..|t| - 1];
    }
    r := Some(t);
  }

  /** remove_whitespaces fails exactly on a blank string; otherwise it returns a contiguous
      piece of its input that starts and ends with a non-whitespace character, with only
      whitespace cut on either side. */
  lemma RemoveWhitespacesSlice(s: string) returns (i: nat, j: nat)
    ensures RemoveWhitespaces(s).None? <==> AllSpace(s)
    ensures RemoveWhitespaces(s).Some? ==>
      i < j <= |s| && RemoveWhitespaces(s).value == s[i..j] &&
      AllSpace(s[..i]) && AllSpace(s[j..]) && !IsSpace(s[i]) && !IsSpace(s[j - 1])
  {
    RemoveWhitespacesIsStrip(s);
    StripEmptyIffBlank(s);
    i, j := StripIsSlice(s);
  }

  /** Trimming what remove_whitespaces returned changes nothing. */
  lemma RemoveWhitespacesIdempotent(s: string)
    requires RemoveWhitespaces(s).Some?
    ensures RemoveWhitespaces(RemoveWhitespaces(s).value) == RemoveWhitespaces(s)
  {
    var i, j := RemoveWhitespacesSlice(s);
    var t := s[i..j];
    assert t[0] == s[i] && t[|t| - 1] == s[j - 1];
    assert DropLeading(t) == Some(t);
    assert DropTrailing(t) == Some(t);
  }

  /** guardian.py's LogParser: the compiled rules and nothing else. */
  class LegacyLogParser {
    const rules: seq<Rule>

    /** LogParser.__init__ (guardian.py:15-17): every template is compiled with the
        service name. */
    constructor(templates: seq<string>, service: Option<string>)
      ensures |rules| == |templates|
      ensures forall i :: 0 <= i < |templates| ==>
        CompiledFrom(rules[i], templates[i]) && rules[i].service == service && rules[i].legacy
    {
      var compiled: seq<Rule> := [];
      for i := 0 to |templates|
        invariant |compiled| == i
        invariant forall k :: 0 <= k < i ==>
          CompiledFrom(compiled[k], templates[k]) && compiled[k].service == service && compiled[k].legacy
      {
        var r := Compile(templates[i], service, true);
        compiled := compiled + [r];
      }
      rules := compiled;
    }

    /** parse_attacks (guardian.py:19-36): the whole file, every call; a missing file
        raises. The same content and clock always give the same result. */
    method ParseAttacks(content: Option<string>, clock: Clock, maxAge: Option<int>) returns (r: Result<Attacks>)
      ensures content.None? ==> r == Err(FileNotFoundError)
      ensures content.Some? ==> r == Collect(rules, SplitLines(content.value), clock, maxAge)
    {
      if content.None? {
        return Err(FileNotFoundError);
      }
      r := CollectAttacks(rules, SplitLines(content.value), clock, maxAge);
    }

    /** get_habitual_offenders (guardian.py:38-54): always parses again, then keeps the
        addresses whose attacks fill some forward window. */
    method GetHabitualOffenders(content: Option<string>, minAttempts: int, window: int, clock: Clock,
                                maxAge: Option<int>) returns (r: Result<Attacks>)
      ensures content.None? ==> r == Err(FileNotFoundError)
      ensures content.Some? ==>
        var parsed := Collect(rules, SplitLines(content.value), clock, maxAge);
        r == if parsed.Err? then parsed else Ok(Offenders(parsed.value, minAttempts, window))
    {
      var parsed := ParseAttacks(content, clock, maxAge);
      if parsed.Err? {
        return parsed;
      }
      var offenders := FindOffenders(parsed.value, minAttempts, window);
      r := Ok(offenders);
    }
  }

  /** With rules compiled the legacy way, a line can fail only on a blank capture, a date
      that does not parse or a missing IP variable. */
  lemma {:induction false} LegacyLineErrors(rules: seq<Rule>, templates: seq<string>, line: string, clock: Clock, maxAge: Option<int>)
    requires |rules| == |templates|
    requires forall i :: 0 <= i < |rules| ==> CompiledFrom(rules[i], templates[i])
    ensures LineAttack(rules, line, clock, maxAge).Err? ==>
      var e := LineAttack(rules, line, clock, maxAge).error;
      e == WhitespaceIndexError || e.DateValueError? || e == KeyError("IP")
    decreases |rules|
  {
    if rules != [] {
      CompiledErrors(rules[0], templates[0], line, clock);
      LegacyLineErrors(rules[1..], templates[1..], line, clock, maxAge);
    }
  }
}
