/**
 * The rule (filter) language of log_manipulator.py and guardian.py.
 *
 * A rule is a template such as "%D:M% %D:D% %TIME% %IP% attacked on user %USER%".
 * `Rule.__init__` turns it into a regular expression: reserved regex characters are
 * backslash-escaped, every `%NAME%` placeholder becomes a lazy group `(.+?)`, and the
 * last group is made greedy when the pattern ends with one. Matching (`re.match`) is
 * anchored at the start of the line only.
 *
 * The compiled pattern is modelled as a sequence of items (literal text, or a group),
 * and matching as a search over the ways a line can be split along those items; no
 * regex engine is modelled.
 */
module Rules {
  import opened Wrappers

  // ---------------------------------------------------------------------------
  // Whitespace and str.strip()
  // ---------------------------------------------------------------------------

  /** Python's str.isspace() for a single character. */
  predicate IsSpace(c: char) {
    c == ' ' || '\t' <= c <= '\r' || '\U{1c}' <= c <= '\U{1f}' || c == '\U{85}' || c == '\U{a0}'
    || c == '\U{1680}' || '\U{2000}' <= c <= '\U{200a}' || c == '\U{2028}' || c == '\U{2029}'
    || c == '\U{202f}' || c == '\U{205f}' || c == '\U{3000}'
  }

  predicate AllSpace(s: string) {
    forall k :: 0 <= k < |s| ==> IsSpace(s[k])
  }

  /** `s` without its leading whitespace: the longest suffix that does not start with a space. */
  function TrimLeft(s: string): (r: string)
    ensures |r| <= |s| && r == s[|s| - |r|..]
    ensures AllSpace(s[..|s| - |r|])
    ensures r != [] ==> !IsSpace(r[0])
  {
    if s != [] && IsSpace(s[0]) then
      var r := TrimLeft(s[1..]);
      assert s[1..][..|s| - 1 - |r|] == s[1..|s| - |r|];
      r
    else s
  }

  /** `s` without its trailing whitespace: the longest prefix that does not end with a space. */
  function TrimRight(s: string): (r: string)
    ensures |r| <= |s| && r == s[..|r|]
    ensures AllSpace(s[|r|..])
    ensures r != [] ==> !IsSpace(r[|r| - 1])
  {
    if s != [] && IsSpace(s[|s| - 1]) then
      var r := TrimRight(s[..|s| - 1]);
      assert s[..|s| - 1][|r|..] + [s[|s| - 1]] == s[|r|..];
      r
    else s
  }

  /** Python's str.strip() with no argument. */
  function Strip(s: string): string {
    TrimRight(TrimLeft(s))
  }

  /** Strip cuts a contiguous slice out of `s`: everything around it is whitespace, and the
      slice neither starts nor ends with whitespace. */
  lemma StripIsSlice(s: string) returns (i: nat, j: nat)
    ensures i <= j <= |s| && Strip(s) == s[i..j]
    ensures AllSpace(s[..i]) && AllSpace(s[j..])
    ensures i < j ==> !IsSpace(s[i]) && !IsSpace(s[j - 1])
  {
    var l := TrimLeft(s);
    var r := TrimRight(l);
    i := |s| - |l|;
    j := i + |r|;
    assert l[|r|..] == s[j..];
    assert r == s[i..j];
  }

  /** A string with a non-space character strips to a non-empty string; a blank one to "". */
  lemma StripEmptyIffBlank(s: string)
    ensures Strip(s) == [] <==> AllSpace(s)
  {
    var i, j := StripIsSlice(s);
    if Strip(s) == [] {
      assert s == s[..i] + s[j..];
      forall k | 0 <= k < |s| ensures IsSpace(s[k]) {
        if k < i { assert s[k] == s[..i][k]; } else { assert s[k] == s[j..][k - j]; }
      }
    } else {
      assert !IsSpace(s[i]);
    }
  }

  // ---------------------------------------------------------------------------
  // Escaping of reserved characters (log_manipulator.py:172-173)
  // ---------------------------------------------------------------------------

  /** The characters Rule.__init__ escapes, in the order in which it escapes them. */
  const Reserved: string := "\\+*?^$.[]{}()|/"

  /** `c` with a backslash in front when it is one of `cs`. */
  function EscapeCharBy(c: char, cs: string): string {
    if c in cs then ['\\', c] else [c]
  }

  /** Every character of `s` that is one of `cs`, preceded by a backslash. */
  function EscapedBy(s: string, cs: string): string {
    if s == [] then [] else EscapeCharBy(s[0], cs) + EscapedBy(s[1..], cs)
  }

  /** The escaped form of literal template text. */
  function Escaped(s: string): string {
    EscapedBy(s, Reserved)
  }

  /** Python's str.replace(pat, rep): every non-overlapping occurrence of `pat`, found from
      left to right, is replaced. */
  function ReplaceAll(s: string, pat: string, rep: string): string
    requires pat != []
    decreases |s|
  {
    if |s| < |pat| then s
    else if s[..|pat|] == pat then rep + ReplaceAll(s[|pat|..], pat, rep)
    else [s[0]] + ReplaceAll(s[1..], pat, rep)
  }

  lemma EscapedByNothing(s: string)
    ensures EscapedBy(s, []) == s
  {
    if s != [] {
      EscapedByNothing(s[1..]);
    }
  }

  /** Replacing a single character works character by character. */
  lemma {:induction false} ReplaceCharConcat(a: string, b: string, c: char, rep: string)
    ensures ReplaceAll(a + b, [c], rep) == ReplaceAll(a, [c], rep) + ReplaceAll(b, [c], rep)
  {
    if a == [] {
      assert a + b == b;
    } else {
      assert (a + b)[..1] == a[..1];
      assert (a + b)[1..] == a[1..] + b;
      ReplaceCharConcat(a[1..], b, c, rep);
    }
  }

  /** One iteration of the escaping loop: replacing `c` by `\c` in text where the
      characters of `cs` are already escaped escapes `c` too. Backslash must come first,
      otherwise the backslashes inserted so far would be escaped again. */
  lemma {:induction false} EscapeStep(s: string, cs: string, c: char)
    requires c !in cs
    requires c == '\\' ==> cs == []
    ensures ReplaceAll(EscapedBy(s, cs), [c], ['\\', c]) == EscapedBy(s, cs + [c])
  {
    if s != [] {
      var x := s[0];
      ReplaceCharConcat(EscapeCharBy(x, cs), EscapedBy(s[1..], cs), c, ['\\', c]);
      EscapeStep(s[1..], cs, c);
      if x in cs {
        assert ['\\', x][1..] == [x];
        assert ReplaceAll(['\\', x], [c], ['\\', c]) == ['\\', x];
      } else if x == c {
        assert ReplaceAll([x], [c], ['\\', c]) == ['\\', c];
      } else {
        assert ReplaceAll([x], [c], ['\\', c]) == [x];
      }
    }
  }

  lemma ReservedFacts()
    ensures forall i, j :: 0 <= i < j < |Reserved| ==> Reserved[i] != Reserved[j]
    ensures forall k :: 0 < k < |Reserved| ==> Reserved[k] != '\\'
  {
  }

  /** The escaping loop of Rule.__init__: for each reserved character in turn, every
      occurrence in the text is replaced by a backslash and the character. */
  method EscapeReserved(s: string) returns (r: string)
    ensures r == Escaped(s)
  {
    ReservedFacts();
    EscapedByNothing(s);
    r := s;
    for k := 0 to |Reserved|
      invariant r == EscapedBy(s, Reserved[..k])
    {
      var c := Reserved[k];
      assert c !in Reserved[..k];
      EscapeStep(s, Reserved[..k], c);
      r := ReplaceAll(r, [c], ['\\', c]);
      assert Reserved[..k + 1] == Reserved[..k] + [c];
    }
    assert Reserved[..|Reserved|] == Reserved;
  }

  /** Removes one level of backslash escaping. */
  function Unescape(s: string): string
    decreases |s|
  {
    if s == [] then []
    else if s[0] == '\\' && |s| >= 2 then [s[1]] + Unescape(s[2..])
    else [s[0]] + Unescape(s[1..])
  }

  /** Text in which no reserved character stands bare: each is the second half of a
      backslash pair, so the regex matches it literally. */
  predicate AllEscaped(s: string)
    decreases |s|
  {
    s == [] ||
    (s[0] == '\\' && |s| >= 2 && s[1] in Reserved && AllEscaped(s[2..])) ||
    (s[0] !in Reserved && AllEscaped(s[1..]))
  }

  /** Escaping is undone by Unescape, and leaves no reserved character bare, with exactly
      one backslash added per reserved character. */
  lemma {:induction false} EscapedRoundTrip(s: string)
    ensures Unescape(Escaped(s)) == s
    ensures AllEscaped(Escaped(s))
  {
    if s != [] {
      EscapedRoundTrip(s[1..]);
      var e := Escaped(s);
      assert e == EscapeCharBy(s[0], Reserved) + Escaped(s[1..]);
      if s[0] in Reserved {
        assert e[2..] == Escaped(s[1..]);
      } else {
        assert e[1..] == Escaped(s[1..]);
        assert e[0] != '\\';
      }
    }
  }

  // ---------------------------------------------------------------------------
  // Placeholders: re.findall("%.*?%", template) (log_manipulator.py:168, 180)
  // ---------------------------------------------------------------------------

  /** A template cut into literal text and `%NAME%` placeholders. */
  datatype Segment = Lit(text: string) | Var(name: string)

  /** Where the placeholder opened by a '%' just before `s` closes: the index of the first
      '%' of `s`, provided no line feed comes first ('.' does not match a line feed). */
  function CloseAt(s: string): (r: Option<nat>)
    ensures r.Some? ==> r.value < |s|
  {
    if s == [] then None
    else if s[0] == '%' then Some(0)
    else if s[0] == '\n' then None
    else match CloseAt(s[1..])
      case None => None
      case Some(k) => Some(k + 1)
  }

  /** CloseAt finds the first '%' with no line feed before it, and when it finds none,
      every '%' has a line feed before it. */
  lemma {:induction false} CloseAtFacts(s: string)
    ensures CloseAt(s).Some? ==> s[CloseAt(s).value] == '%'
    ensures CloseAt(s).Some? ==> forall k :: 0 <= k < CloseAt(s).value ==> s[k] != '%' && s[k] != '\n'
    ensures CloseAt(s).None? ==> forall k :: 0 <= k < |s| && s[k] == '%' ==> exists m :: 0 <= m < k && s[m] == '\n'
    decreases |s|
  {
    if s != [] && s[0] != '%' && s[0] != '\n' {
      CloseAtFacts(s[1..]);
      assert forall k :: 1 <= k < |s| ==> s[k] == s[1..][k - 1];
    }
  }

  /** What CloseAt finds is a '%'. */
  lemma {:induction false} CloseAtPercent(s: string)
    ensures CloseAt(s).Some? ==> s[CloseAt(s).value] == '%'
    decreases |s|
  {
    if s != [] && s[0] != '%' && s[0] != '\n' {
      CloseAtPercent(s[1..]);
    }
  }

  /** A template opening with a placeholder that closes at `k + 1`. */
  lemma SplitAtClose(t: string, k: nat)
    requires k + 1 < |t| && t[0] == '%' && t[k + 1] == '%'
    ensures t == "%" + t[1..k + 1] + "%" + t[k + 2..]
  {
    assert t[k + 1..] == [t[k + 1]] + t[k + 2..];
    assert t[1..] == t[1..k + 1] + t[k + 1..];
    assert t == [t[0]] + t[1..];
  }

  /** Adds one character in front of the first segment, which it extends when literal. */
  function PrependChar(c: char, segs: seq<Segment>): seq<Segment> {
    if segs != [] && segs[0].Lit? then [Lit([c] + segs[0].text)] + segs[1..] else [Lit([c])] + segs
  }

  /** The template as findall sees it: scanning left to right, a '%' that has a closing
      '%' later on the same line opens a placeholder; every other character is literal. */
  function Segments(t: string): seq<Segment>
    decreases |t|
  {
    if t == [] then []
    else if t[0] == '%' && CloseAt(t[1..]).Some? then
      var k := CloseAt(t[1..]).value;
      [Var(t[1..k + 1])] + Segments(t[k + 2..])
    else PrependChar(t[0], Segments(t[1..]))
  }

  /** The placeholder names of a segment list, in order. */
  function Names(segs: seq<Segment>): seq<string> {
    if segs == [] then []
    else (if segs[0].Var? then [segs[0].name] else []) + Names(segs[1..])
  }

  /** The rule's variable names: the placeholders of the template, '%' stripped, in order. */
  function Variables(t: string): seq<string> {
    Names(Segments(t))
  }

  /** Writes segments back as template text. */
  function Unparse(segs: seq<Segment>): string {
    if segs == [] then []
    else (match segs[0] case Lit(l) => l case Var(n) => "%" + n + "%") + Unparse(segs[1..])
  }

  lemma UnparsePrependChar(c: char, segs: seq<Segment>)
    ensures Unparse(PrependChar(c, segs)) == [c] + Unparse(segs)
  {
    if segs != [] && segs[0].Lit? {
      assert PrependChar(c, segs)[1..] == segs[1..];
    } else {
      assert PrependChar(c, segs)[1..] == segs;
    }
  }

  /** Tokenizing loses nothing: the segments spell the template again. */
  lemma UnparseVar(name: string, rest: seq<Segment>)
    ensures Unparse([Var(name)] + rest) == "%" + name + "%" + Unparse(rest)
  {
    assert ([Var(name)] + rest)[1..] == rest;
  }

  lemma {:induction false} SegmentsRoundTrip(t: string)
    ensures Unparse(Segments(t)) == t
    decreases |t|
  {
    if t != [] {
      if t[0] == '%' && CloseAt(t[1..]).Some? {
        var k := CloseAt(t[1..]).value;
        CloseAtPercent(t[1..]);
        SegmentsRoundTrip(t[k + 2..]);
        UnparseVar(t[1..k + 1], Segments(t[k + 2..]));
        SplitAtClose(t, k);
      } else {
        SegmentsRoundTrip(t[1..]);
        UnparsePrependChar(t[0], Segments(t[1..]));
      }
    }
  }

  /** Segments as findall produces them: no literal is empty, no two literals are
      adjacent, and no name holds a '%' or a line feed. */
  ghost predicate WellFormed(segs: seq<Segment>) {
    (forall i :: 0 <= i < |segs| && segs[i].Lit? ==> segs[i].text != []) &&
    (forall i :: 0 <= i < |segs| - 1 && segs[i].Lit? ==> segs[i + 1].Var?) &&
    (forall i :: 0 <= i < |segs| && segs[i].Var? ==> '%' !in segs[i].name && '\n' !in segs[i].name)
  }

  lemma WellFormedVar(name: string, rest: seq<Segment>)
    requires '%' !in name && '\n' !in name && WellFormed(rest)
    ensures WellFormed([Var(name)] + rest)
  {
    var segs := [Var(name)] + rest;
    assert forall i :: 1 <= i < |segs| ==> segs[i] == rest[i - 1];
  }

  lemma WellFormedPrepend(c: char, rest: seq<Segment>)
    requires WellFormed(rest)
    ensures WellFormed(PrependChar(c, rest))
  {
    var segs := PrependChar(c, rest);
    if rest != [] && rest[0].Lit? {
      assert forall i :: 1 <= i < |segs| ==> segs[i] == rest[i];
    } else {
      assert forall i :: 1 <= i < |segs| ==> segs[i] == rest[i - 1];
    }
  }

  lemma {:induction false} SegmentsWellFormed(t: string)
    ensures WellFormed(Segments(t))
    decreases |t|
  {
    if t != [] {
      if t[0] == '%' && CloseAt(t[1..]).Some? {
        var k := CloseAt(t[1..]).value;
        CloseAtFacts(t[1..]);
        SegmentsWellFormed(t[k + 2..]);
        assert forall m :: 0 <= m < k ==> t[1..k + 1][m] == t[1..][m];
        WellFormedVar(t[1..k + 1], Segments(t[k + 2..]));
      } else {
        SegmentsWellFormed(t[1..]);
        WellFormedPrepend(t[0], Segments(t[1..]));
      }
    }
  }

  // ---------------------------------------------------------------------------
  // The compiled pattern (log_manipulator.py:171-177)
  // ---------------------------------------------------------------------------

  /** One element of a compiled pattern: literal text, or a capture group `(.+?)` (lazy)
      or `(.+)` (greedy). */
  datatype Item = Text(text: string) | Group(greedy: bool)

  function ItemOf(seg: Segment): Item {
    match seg
    case Lit(l) => Text(l)
    case Var(_) => Group(false)
  }

  /** Each literal stays literal and each placeholder becomes a lazy group. */
  function LazyItems(segs: seq<Segment>): (items: seq<Item>)
    ensures |items| == |segs|
  {
    seq(|segs|, i requires 0 <= i < |segs| => ItemOf(segs[i]))
  }

  /** The pattern a rule compiles to: the lazy items, with the final group greedy when the
      template ends with a placeholder. */
  function Pattern(segs: seq<Segment>): seq<Item> {
    var items := LazyItems(segs);
    if segs != [] && segs[|segs| - 1].Var? then items[..|items| - 1] + [Group(true)] else items
  }

  function ItemRegex(item: Item): string {
    match item
    case Text(l) => Escaped(l)
    case Group(greedy) => if greedy then "(.+)" else "(.+?)"
  }

  /** The regular-expression text of a pattern. */
  function RegexText(items: seq<Item>): string {
    if items == [] then [] else RegexText(items[..|items| - 1]) + ItemRegex(items[|items| - 1])
  }

  predicate EndsWith(s: string, suffix: string) {
    |suffix| <= |s| && s[|s| - |suffix|..] == suffix
  }

  lemma {:induction false} EscapedByConcat(a: string, b: string, cs: string)
    ensures EscapedBy(a + b, cs) == EscapedBy(a, cs) + EscapedBy(b, cs)
  {
    if a == [] {
      assert a + b == b;
    } else {
      assert (a + b)[1..] == a[1..] + b;
      EscapedByConcat(a[1..], b, cs);
    }
  }

  /** Escaped literal text never ends with "?)": a ')' in it is always escaped. */
  lemma EscapedNotLazyEnd(l: string)
    requires l != []
    ensures !EndsWith(Escaped(l), "?)")
  {
    var n := |l|;
    assert l == l[..n - 1] + [l[n - 1]];
    EscapedByConcat(l[..n - 1], [l[n - 1]], Reserved);
    var front := Escaped(l[..n - 1]);
    var last := EscapeCharBy(l[n - 1], Reserved);
    assert EscapedBy([l[n - 1]], Reserved) == last;
    assert Escaped(l) == front + last;
    assert ')' in Reserved;
    if |last| == 2 {
      EndsWithConcat(front, last, "?)");
      assert last[0] == '\\';
    } else {
      assert last == [l[n - 1]] && l[n - 1] != ')';
      assert (front + last)[|front + last| - 1] == l[n - 1];
    }
  }

  lemma EndsWithConcat(a: string, b: string, suffix: string)
    requires |suffix| <= |b|
    ensures EndsWith(a + b, suffix) <==> EndsWith(b, suffix)
  {
    assert (a + b)[|a + b| - |suffix|..] == b[|b| - |suffix|..];
  }

  /** The textual test of Rule.__init__, "the regex ends with ?)", holds exactly when the
      template's last segment is a placeholder; escaped literal text can never end so. */
  lemma LastGroupTest(segs: seq<Segment>)
    requires WellFormed(segs)
    ensures EndsWith(RegexText(LazyItems(segs)), "?)") <==> (segs != [] && segs[|segs| - 1].Var?)
  {
    if segs != [] {
      var n := |segs|;
      var items := LazyItems(segs);
      var front := RegexText(items[..n - 1]);
      match segs[n - 1]
      case Var(_) =>
        EndsWithConcat(front, "(.+?)", "?)");
      case Lit(l) =>
        EscapedNotLazyEnd(l);
        var e := Escaped(l);
        if |e| >= 2 {
          EndsWithConcat(front, e, "?)");
        } else {
          assert |l| == 1 && e == [l[0]] && l[0] != ')' by {
            assert l == [l[0]] + l[1..];
            EscapedByConcat([l[0]], l[1..], Reserved);
            assert ')' in Reserved;
          }
          assert (front + e)[|front + e| - 1] == l[0];
        }
    }
  }

  /** Making the last group greedy, done on the regex text, is the same as doing it on
      the pattern. */
  lemma GreedyStep(segs: seq<Segment>)
    requires WellFormed(segs)
    ensures var lazy := LazyItems(segs);
      var regex := RegexText(lazy);
      if EndsWith(regex, "?)") then
        regex[..|regex| - 2] + ")" == RegexText(Pattern(segs)) && lazy[..|lazy| - 1] + [Group(true)] == Pattern(segs)
      else lazy == Pattern(segs)
  {
    LastGroupTest(segs);
    var items := LazyItems(segs);
    var regex := RegexText(items);
    if EndsWith(regex, "?)") {
      var front := RegexText(items[..|items| - 1]);
      var greedy := items[..|items| - 1] + [Group(true)];
      assert regex == front + "(.+?)";
      assert regex[..|regex| - 2] + ")" == front + "(.+)";
      assert greedy[..|greedy| - 1] == items[..|items| - 1];
    }
  }

  lemma LazyItemsPrefix(segs: seq<Segment>, i: nat)
    requires i < |segs|
    ensures LazyItems(segs[..i + 1]) == LazyItems(segs[..i]) + [ItemOf(segs[i])]
  {
  }

  /** A compiled rule: its variable names, its pattern and that pattern's regex text, the
      optional service name, and which of the two Rule classes compiled it (guardian.py's
      older twin trims captures with remove_whitespaces instead of str.strip). */
  datatype Rule = Rule(variables: seq<string>, items: seq<Item>, regex: string,
                       service: Option<string>, legacy: bool)

  /** Rule.__init__ (log_manipulator.py:160-180, and the identical guardian.py:58-72), with
      each placeholder replaced where findall found it (see AsWrittenRegex for how the source's
      str.replace can differ): literal text is escaped by the reserved-character loop, each
      placeholder becomes `(.+?)`, and when the regex then ends with "?)" the last group is
      made greedy. */
  method Compile(template: string, service: Option<string>, legacy: bool) returns (r: Rule)
    ensures r.variables == Variables(template)
    ensures r.items == Pattern(Segments(template))
    ensures r.regex == RegexText(r.items)
    ensures r.service == service && r.legacy == legacy
  {
    var segs := Segments(template);
    SegmentsWellFormed(template);
    var regex: string := [];
    var items: seq<Item> := [];
    for i := 0 to |segs|
      invariant items == LazyItems(segs[..i])
      invariant regex == RegexText(items)
    {
      LazyItemsPrefix(segs, i);
      match segs[i]
      case Lit(text) =>
        var escaped := EscapeReserved(text);
        regex := regex + escaped;
        items := items + [Text(text)];
      case Var(_) =>
        regex := regex + "(.+?)";
        items := items + [Group(false)];
      assert items[..|items| - 1] == LazyItems(segs[..i]);
    }
    assert segs[..|segs|] == segs;
    GreedyStep(segs);
    if EndsWith(regex, "?)") {
      regex := regex[..|regex| - 2] + ")";
      items := items[..|items| - 1] + [Group(true)];
    }
    r := Rule(Names(segs), items, regex, service, legacy);
  }

  // ---------------------------------------------------------------------------
  // Matching: re.match(rule_regex, line) (log_manipulator.py:188, 200)
  // ---------------------------------------------------------------------------

  /** How many leading characters of `s` a `.` can consume: all up to the first line feed. */
  function Run(s: string): (n: nat)
    ensures n <= |s|
    ensures forall k :: 0 <= k < n ==> s[k] != '\n'
    ensures n < |s| ==> s[n] == '\n'
  {
    if s == [] || s[0] == '\n' then 0 else 1 + Run(s[1..])
  }

  /** The captures a split of `s` along `items` yields: literal text must come next in `s`,
      and each group takes one or more characters other than a line feed. What follows the
      last item is unconstrained: the match is anchored at the start only. */
  ghost predicate Fits(items: seq<Item>, s: string, caps: seq<string>)
    decreases |items|
  {
    if items == [] then caps == []
    else match items[0]
      case Text(l) => l <= s && Fits(items[1..], s[|l|..], caps)
      case Group(_) =>
        caps != [] && 1 <= |caps[0]| && caps[0] <= s && '\n' !in caps[0] &&
        Fits(items[1..], s[|caps[0]|..], caps[1..])
  }

  /** The pattern matches at the start of `s`. */
  ghost predicate Matches(items: seq<Item>, s: string) {
    exists caps :: Fits(items, s, caps)
  }

  /** The split backtracking finds: items in order; a lazy group tries the shortest capture
      first, a greedy one the longest first, and the first capture for which the rest of the
      pattern matches wins. */
  function Search(items: seq<Item>, s: string): Option<seq<string>>
    decreases |items|, 1, 0
  {
    if items == [] then Some([])
    else match items[0]
      case Text(l) => if l <= s then Search(items[1..], s[|l|..]) else None
      case Group(greedy) =>
        if greedy then TryGreedy(items[1..], s, Run(s)) else TryLazy(items[1..], s, 1)
  }

  /** A lazy group capturing k, then k + 1, ... characters of `s`. */
  function TryLazy(rest: seq<Item>, s: string, k: nat): Option<seq<string>>
    requires 1 <= k
    decreases |rest| + 1, 0, |s| - k
  {
    if k > Run(s) then None
    else match Search(rest, s[k..])
      case Some(caps) => Some([s[..k]] + caps)
      case None => TryLazy(rest, s, k + 1)
  }

  /** A greedy group capturing k, then k - 1, ... characters of `s`. */
  function TryGreedy(rest: seq<Item>, s: string, k: nat): Option<seq<string>>
    requires k <= Run(s)
    decreases |rest| + 1, 0, k
  {
    if k == 0 then None
    else match Search(rest, s[k..])
      case Some(caps) => Some([s[..k]] + caps)
      case None => TryGreedy(rest, s, k - 1)
  }

  lemma {:induction false} TryLazyWitness(rest: seq<Item>, s: string, k: nat) returns (n: nat)
    requires 1 <= k && TryLazy(rest, s, k).Some?
    ensures k <= n <= Run(s) && Search(rest, s[n..]).Some?
    ensures TryLazy(rest, s, k).value == [s[..n]] + Search(rest, s[n..]).value
    decreases |s| - k
  {
    if Search(rest, s[k..]).Some? {
      n := k;
    } else {
      n := TryLazyWitness(rest, s, k + 1);
    }
  }

  lemma {:induction false} TryGreedyWitness(rest: seq<Item>, s: string, k: nat) returns (n: nat)
    requires k <= Run(s) && TryGreedy(rest, s, k).Some?
    ensures 1 <= n <= k && Search(rest, s[n..]).Some?
    ensures TryGreedy(rest, s, k).value == [s[..n]] + Search(rest, s[n..]).value
    decreases k
  {
    if Search(rest, s[k..]).Some? {
      n := k;
    } else {
      n := TryGreedyWitness(rest, s, k - 1);
    }
  }

  /** What Search returns is a split of the line along the pattern. */
  lemma {:induction false} SearchSound(items: seq<Item>, s: string)
    requires Search(items, s).Some?
    ensures Fits(items, s, Search(items, s).value)
    decreases |items|
  {
    if items != [] {
      match items[0]
      case Text(l) =>
        SearchSound(items[1..], s[|l|..]);
      case Group(greedy) =>
        var n;
        if greedy {
          n := TryGreedyWitness(items[1..], s, Run(s));
        } else {
          n := TryLazyWitness(items[1..], s, 1);
        }
        SearchSound(items[1..], s[n..]);
        var caps := Search(items, s).value;
        assert caps[0] == s[..n] && caps[1..] == Search(items[1..], s[n..]).value;
    }
  }

  lemma {:induction false} TryLazyReaches(rest: seq<Item>, s: string, k: nat, n: nat)
    requires 1 <= k <= n <= Run(s) && Search(rest, s[n..]).Some?
    ensures TryLazy(rest, s, k).Some?
    decreases n - k
  {
    if Search(rest, s[k..]).None? {
      TryLazyReaches(rest, s, k + 1, n);
    }
  }

  lemma {:induction false} TryGreedyReaches(rest: seq<Item>, s: string, k: nat, n: nat)
    requires 1 <= n <= k <= Run(s) && Search(rest, s[n..]).Some?
    ensures TryGreedy(rest, s, k).Some?
    decreases k - n
  {
    if Search(rest, s[k..]).None? {
      TryGreedyReaches(rest, s, k - 1, n);
    }
  }

  /** A line-feed-free prefix of `s` is no longer than Run(s). */
  lemma {:induction false} RunCovers(s: string, t: string)
    requires t <= s && '\n' !in t
    ensures |t| <= Run(s)
  {
    if t != [] {
      assert t[0] in t && s[0] == t[0];
      assert t[1..] <= s[1..] && '\n' !in t[1..] by {
        forall c | c in t[1..] ensures c in t { }
      }
      RunCovers(s[1..], t[1..]);
    }
  }

  /** When any split of the line along the pattern exists, Search finds one. */
  lemma {:induction false} SearchComplete(items: seq<Item>, s: string, caps: seq<string>)
    requires Fits(items, s, caps)
    ensures Search(items, s).Some?
    decreases |items|
  {
    if items != [] {
      match items[0]
      case Text(l) =>
        SearchComplete(items[1..], s[|l|..], caps);
      case Group(greedy) =>
        var n := |caps[0]|;
        assert caps[0] == s[..n];
        RunCovers(s, caps[0]);
        SearchComplete(items[1..], s[n..], caps[1..]);
        if greedy {
          TryGreedyReaches(items[1..], s, Run(s), n);
        } else {
          TryLazyReaches(items[1..], s, 1, n);
        }
    }
  }

  /** re.match finds nothing exactly when no split of the line along the pattern exists. */
  lemma SearchIffMatches(items: seq<Item>, s: string)
    ensures Search(items, s).Some? <==> Matches(items, s)
  {
    if Search(items, s).Some? {
      SearchSound(items, s);
    } else if Matches(items, s) {
      var caps :| Fits(items, s, caps);
      SearchComplete(items, s, caps);
    }
  }

  /** The number of groups in a pattern. */
  function GroupCount(items: seq<Item>): nat {
    if items == [] then 0 else (if items[0].Group? then 1 else 0) + GroupCount(items[1..])
  }

  /** The pattern with each group replaced by its capture. */
  function Fill(items: seq<Item>, caps: seq<string>): string {
    if items == [] then []
    else match items[0]
      case Text(l) => l + Fill(items[1..], caps)
      case Group(_) => if caps == [] then Fill(items[1..], []) else caps[0] + Fill(items[1..], caps[1..])
  }

  /** A split has one capture per group, and putting the captures back into the pattern
      gives back the start of the line. */
  lemma {:induction false} FitsFill(items: seq<Item>, s: string, caps: seq<string>)
    requires Fits(items, s, caps)
    ensures |caps| == GroupCount(items)
    ensures Fill(items, caps) <= s
    decreases |items|
  {
    if items != [] {
      match items[0]
      case Text(l) =>
        FitsFill(items[1..], s[|l|..], caps);
        assert s == l + s[|l|..];
      case Group(_) =>
        FitsFill(items[1..], s[|caps[0]|..], caps[1..]);
        assert s == caps[0] + s[|caps[0]|..];
    }
  }

  /** A pattern whose last item is a greedy group captures the rest of a line that holds no
      line feed, so the captures put back into the pattern give the whole line. */
  lemma {:induction false} GreedyEndCoversLine(items: seq<Item>, s: string)
    requires items != [] && items[|items| - 1] == Group(true)
    requires '\n' !in s && Search(items, s).Some?
    ensures Fill(items, Search(items, s).value) == s
    decreases |items|
  {
    match items[0]
    case Text(l) =>
      assert '\n' !in s[|l|..] by { forall c | c in s[|l|..] ensures c in s { } }
      GreedyEndCoversLine(items[1..], s[|l|..]);
      assert s == l + s[|l|..];
    case Group(greedy) =>
      if |items| == 1 {
        RunCovers(s, s);
        assert greedy && Search(items[1..], s[|s|..]) == Some([]);
        assert s[..|s|] == s;
      } else {
        var n := GroupHeadSplit(items, s);
        var caps := Search(items, s).value;
        assert caps[0] == s[..n] && caps[1..] == Search(items[1..], s[n..]).value;
        assert '\n' !in s[n..] by { forall c | c in s[n..] ensures c in s { } }
        GreedyEndCoversLine(items[1..], s[n..]);
        assert s == s[..n] + s[n..];
      }
  }

  /** A search led by a group captures a prefix of the line and searches the rest of it
      with the remaining items. */
  lemma GroupHeadSplit(items: seq<Item>, s: string) returns (n: nat)
    requires items != [] && items[0].Group? && Search(items, s).Some?
    ensures n <= |s| && Search(items[1..], s[n..]).Some?
    ensures Search(items, s).value == [s[..n]] + Search(items[1..], s[n..]).value
  {
    if items[0].greedy {
      n := TryGreedyWitness(items[1..], s, Run(s));
    } else {
      n := TryLazyWitness(items[1..], s, 1);
    }
  }

  /** Patterns with no group match any line that starts with their literal text. */
  lemma {:induction false} TextOnlyPrefix(items: seq<Item>, s: string)
    requires forall i :: 0 <= i < |items| ==> items[i].Text?
    ensures Search(items, s).Some? <==> Fill(items, []) <= s
    decreases |items|
  {
    if items != [] {
      var l := items[0].text;
      var rest := Fill(items[1..], []);
      if l <= s {
        TextOnlyPrefix(items[1..], s[|l|..]);
        assert s == l + s[|l|..];
        assert rest <= s[|l|..] <==> l + rest <= s;
      } else {
        assert (l + rest)[..|l|] == l;
      }
    }
  }

  lemma {:induction false} NoNamesAllLiteral(segs: seq<Segment>)
    requires Names(segs) == []
    ensures forall i :: 0 <= i < |segs| ==> segs[i].Lit?
    ensures Fill(LazyItems(segs), []) == Unparse(segs)
  {
    if segs != [] {
      NoNamesAllLiteral(segs[1..]);
      assert LazyItems(segs)[1..] == LazyItems(segs[1..]);
    }
  }

  /** A template without placeholders matches every line that BEGINS with the template
      (re.match does not anchor at the end), not only the line equal to it. */
  lemma LiteralTemplateIsPrefixTest(t: string, line: string)
    requires Variables(t) == []
    ensures Search(Pattern(Segments(t)), line).Some? <==> t <= line
  {
    var segs := Segments(t);
    NoNamesAllLiteral(segs);
    SegmentsRoundTrip(t);
    TextOnlyPrefix(LazyItems(segs), line);
  }

  lemma {:induction false} GroupCountConcat(a: seq<Item>, b: seq<Item>)
    ensures GroupCount(a + b) == GroupCount(a) + GroupCount(b)
    decreases |a|
  {
    if a == [] {
      assert a + b == b;
    } else {
      assert (a + b)[1..] == a[1..] + b;
      GroupCountConcat(a[1..], b);
    }
  }

  lemma {:induction false} LazyGroupCount(segs: seq<Segment>)
    ensures GroupCount(LazyItems(segs)) == |Names(segs)|
    decreases |segs|
  {
    if segs != [] {
      assert LazyItems(segs)[1..] == LazyItems(segs[1..]);
      LazyGroupCount(segs[1..]);
    }
  }

  /** A compiled rule has exactly one group per variable. */
  lemma PatternGroupCount(segs: seq<Segment>)
    ensures GroupCount(Pattern(segs)) == |Names(segs)|
  {
    LazyGroupCount(segs);
    var items := LazyItems(segs);
    if segs != [] && segs[|segs| - 1].Var? {
      var n := |items| - 1;
      assert items == items[..n] + [items[n]];
      GroupCountConcat(items[..n], [items[n]]);
      GroupCountConcat(items[..n], [Group(true)]);
    }
  }

  /** The rule a template compiles to (what Compile returns). */
  ghost predicate CompiledFrom(r: Rule, template: string) {
    r.variables == Variables(template) &&
    r.items == Pattern(Segments(template)) &&
    r.regex == RegexText(r.items)
  }

  /** Rule.test (log_manipulator.py:182-188): does the rule's regex match at the start of
      the line. */
  function Test(r: Rule, line: string): (b: bool)
    ensures b <==> Matches(r.items, line)
  {
    SearchIffMatches(r.items, line);
    Search(r.items, line).Some?
  }

  // ---------------------------------------------------------------------------
  // Variables of a matching line (log_manipulator.py:190-223, guardian.py:77-104)
  // ---------------------------------------------------------------------------

  /** guardian.py's remove_whitespaces, first loop: drop leading whitespace; indexing the
      emptied string raises IndexError (None). */
  function DropLeading(s: string): Option<string>
    decreases |s|
  {
    if s == [] then None else if IsSpace(s[0]) then DropLeading(s[1..]) else Some(s)
  }

  /** Second loop: drop trailing whitespace; None when the string runs empty. */
  function DropTrailing(s: string): Option<string>
    decreases |s|
  {
    if s == [] then None else if IsSpace(s[|s| - 1]) then DropTrailing(s[..|s| - 1]) else Some(s)
  }

  /** guardian.py's remove_whitespaces: None stands for the IndexError it raises. */
  function RemoveWhitespaces(s: string): Option<string> {
    match DropLeading(s)
    case None => None
    case Some(t) => DropTrailing(t)
  }

  lemma {:induction false} DropLeadingIsTrimLeft(s: string)
    ensures DropLeading(s) == if AllSpace(s) then None else Some(TrimLeft(s))
    decreases |s|
  {
    if s != [] {
      DropLeadingIsTrimLeft(s[1..]);
      assert AllSpace(s) <==> IsSpace(s[0]) && AllSpace(s[1..]) by {
        if IsSpace(s[0]) && AllSpace(s[1..]) {
          forall k | 0 <= k < |s| ensures IsSpace(s[k]) { if k > 0 { assert s[k] == s[1..][k - 1]; } }
        }
      }
    }
  }

  lemma {:induction false} DropTrailingIsTrimRight(s: string)
    ensures DropTrailing(s) == if AllSpace(s) then None else Some(TrimRight(s))
    decreases |s|
  {
    if s != [] {
      var n := |s| - 1;
      DropTrailingIsTrimRight(s[..n]);
      assert AllSpace(s) <==> IsSpace(s[n]) && AllSpace(s[..n]) by {
        if IsSpace(s[n]) && AllSpace(s[..n]) {
          forall k | 0 <= k < |s| ensures IsSpace(s[k]) { if k < n { assert s[k] == s[..n][k]; } }
        }
      }
    }
  }

  /** remove_whitespaces agrees with str.strip() except on a blank capture, where it fails. */
  lemma RemoveWhitespacesIsStrip(s: string)
    ensures RemoveWhitespaces(s) == if AllSpace(s) then None else Some(Strip(s))
  {
    DropLeadingIsTrimLeft(s);
    if !AllSpace(s) {
      var t := TrimLeft(s);
      DropTrailingIsTrimRight(t);
      assert t != [];
      assert !IsSpace(t[0]);
    }
  }

  /** How a capture is cleaned before it is stored: str.strip() in log_manipulator.py:205,
      remove_whitespaces in the legacy guardian.py:86 (None: IndexError). */
  function Clean(capture: string, legacy: bool): Option<string> {
    if legacy then RemoveWhitespaces(capture) else Some(Strip(capture))
  }

  /** Every capture, cleaned. */
  function Cleaned(caps: seq<string>, legacy: bool): (vals: seq<Option<string>>)
    ensures |vals| == |caps|
    ensures forall j :: 0 <= j < |caps| ==> vals[j] == Clean(caps[j], legacy)
  {
    seq(|caps|, j requires 0 <= j < |caps| => Clean(caps[j], legacy))
  }

  /** The assignment loop of get_variables over the cleaned captures `vals` (None: cleaning
      failed): variable i takes value i; a later variable of the same name overwrites an
      earlier one. The first failure stops the loop: a missing group (IndexError) or, in
      the legacy code, a blank capture. */
  function Bind(names: seq<string>, vals: seq<Option<string>>): Result<map<string, string>>
    decreases |names|
  {
    if names == [] then Ok(map[])
    else
      var i := |names| - 1;
      match Bind(names[..i], vals)
      case Err(e) => Err(e)
      case Ok(m) =>
        if i >= |vals| then Err(GroupIndexError)
        else match vals[i]
          case None => Err(WhitespaceIndexError)
          case Some(v) => Ok(m[names[i] := v])
  }

  /** Binding succeeds exactly when every variable has a value. */
  lemma {:induction false} BindOkIff(names: seq<string>, vals: seq<Option<string>>)
    ensures Bind(names, vals).Ok? <==>
      |names| <= |vals| && forall j :: 0 <= j < |names| ==> vals[j].Some?
    decreases |names|
  {
    if names != [] {
      BindOkIff(names[..|names| - 1], vals);
    }
  }

  /** Binding fails only for a missing group or a blank capture. */
  lemma {:induction false} BindErrors(names: seq<string>, vals: seq<Option<string>>)
    ensures Bind(names, vals).Err? ==>
      Bind(names, vals).error == GroupIndexError || Bind(names, vals).error == WhitespaceIndexError
    decreases |names|
  {
    if names != [] {
      BindErrors(names[..|names| - 1], vals);
    }
  }

  /** Position j holds the last occurrence of its name. */
  predicate IsLast(names: seq<string>, j: nat) {
    forall k :: j < k < |names| ==> names[k] != names[j]
  }

  /** A successful binding holds exactly the variable names. */
  lemma {:induction false} BindKeys(names: seq<string>, vals: seq<Option<string>>)
    requires Bind(names, vals).Ok?
    ensures forall x :: x in Bind(names, vals).value <==> x in names
    decreases |names|
  {
    if names != [] {
      var i := |names| - 1;
      BindKeys(names[..i], vals);
      assert names == names[..i] + [names[i]];
    }
  }

  /** Each name is bound to the value at its LAST occurrence. */
  lemma {:induction false} BindValues(names: seq<string>, vals: seq<Option<string>>)
    requires Bind(names, vals).Ok?
    ensures forall j :: 0 <= j < |names| && IsLast(names, j) ==>
      j < |vals| && vals[j].Some? && names[j] in Bind(names, vals).value &&
      Bind(names, vals).value[names[j]] == vals[j].value
    decreases |names|
  {
    BindKeys(names, vals);
    if names != [] {
      var i := |names| - 1;
      var front := names[..i];
      BindValues(front, vals);
      var m := Bind(front, vals).value;
      var v := vals[i].value;
      assert Bind(names, vals).value == m[names[i] := v];
      forall j | 0 <= j < |names| && IsLast(names, j)
        ensures j < |vals| && vals[j].Some? && names[j] in m[names[i] := v] &&
          m[names[i] := v][names[j]] == vals[j].value
      {
        if j < i {
          assert names[i] != names[j];
          assert IsLast(front, j);
        }
      }
    }
  }

  /** When every variable has a group, the only way binding fails is a blank capture in
      the legacy code. */
  lemma {:induction false} BindErrorKinds(names: seq<string>, caps: seq<string>, legacy: bool)
    requires |names| <= |caps| && Bind(names, Cleaned(caps, legacy)).Err?
    ensures legacy && Bind(names, Cleaned(caps, legacy)).error == WhitespaceIndexError
    decreases |names|
  {
    var i := |names| - 1;
    if Bind(names[..i], Cleaned(caps, legacy)).Err? {
      BindErrorKinds(names[..i], caps, legacy);
    }
  }

  /** The two implementations clean alike whenever no capture is blank. */
  lemma CleanedLegacyAgrees(caps: seq<string>)
    requires forall j :: 0 <= j < |caps| ==> !AllSpace(caps[j])
    ensures Cleaned(caps, true) == Cleaned(caps, false)
  {
    forall j | 0 <= j < |caps| ensures Clean(caps[j], true) == Clean(caps[j], false) {
      RemoveWhitespacesIsStrip(caps[j]);
    }
  }

  /** One parsed attack: the variables of the line (without TIMESTAMP) and its time. */
  datatype Attack = Attack(vars: map<string, string>, timestamp: int)

  /** What get_variables reads from the environment: the current time, the current year
      (strftime('%Y')) and date (strftime('%Y %b %d')) as text, and the parser behind
      strptime(..., '%Y %b %d %H:%M:%S') followed by mktime (None: ValueError). */
  datatype Clock = Clock(now: int, year: string, today: string, parseDate: string -> Option<int>)

  /** The text the attack's time is read from, chosen by which date variables were bound;
      None: no date variable, so the attack is stamped with the current time. */
  function DateText(data: map<string, string>, clock: Clock): (d: Option<string>)
    ensures d.None? <==> "TIME" !in data && ("D:M" !in data || "D:D" !in data)
    ensures "D:M" in data && "D:D" in data && "TIME" in data ==>
      d == Some(clock.year + " " + data["D:M"] + " " + data["D:D"] + " " + data["TIME"])
    ensures "D:M" in data && "D:D" in data && "TIME" !in data ==>
      d == Some(clock.year + " " + data["D:M"] + " " + data["D:D"] + " 00:00:00")
    ensures ("D:M" !in data || "D:D" !in data) && "TIME" in data ==>
      d == Some(clock.today + " " + data["TIME"])
  {
    if "D:M" in data && "D:D" in data && "TIME" in data then
      Some(clock.year + " " + data["D:M"] + " " + data["D:D"] + " " + data["TIME"])
    else if "D:M" in data && "D:D" in data then
      Some(clock.year + " " + data["D:M"] + " " + data["D:D"] + " 00:00:00")
    else if "TIME" in data then
      Some(clock.today + " " + data["TIME"])
    else None
  }

  /** The data dictionary after the SERVICE override (log_manipulator.py:207-208). */
  function WithService(m: map<string, string>, service: Option<string>): map<string, string> {
    if service.Some? then m["SERVICE" := service.value] else m
  }

  /** Rule.get_variables: Ok(None) when the rule does not match the line; otherwise the
      bound variables, SERVICE, and the timestamp; a variable named TIMESTAMP is
      overwritten by it. */
  function GetVariables(r: Rule, line: string, clock: Clock): Result<Option<Attack>> {
    match Search(r.items, line)
    case None => Ok(None)
    case Some(caps) =>
      match Bind(r.variables, Cleaned(caps, r.legacy))
      case Err(e) => Err(e)
      case Ok(m) =>
        var data := WithService(m, r.service);
        match DateText(data, clock)
        case None => Ok(Some(Attack(data - {"TIMESTAMP"}, clock.now)))
        case Some(d) =>
          match clock.parseDate(d)
          case None => Err(DateValueError(d))
          case Some(ts) => Ok(Some(Attack(data - {"TIMESTAMP"}, ts)))
  }

  /** get_variables returns None exactly when test is false. */
  lemma GetVariablesNoneIffNoMatch(r: Rule, line: string, clock: Clock)
    ensures GetVariables(r, line, clock) == Ok(None) <==> !Test(r, line)
  {
  }

  /** A rule compiled from a template never runs out of groups, and with str.strip() the
      only failure left is a date that does not parse. */
  lemma CompiledErrors(r: Rule, t: string, line: string, clock: Clock)
    requires CompiledFrom(r, t)
    ensures GetVariables(r, line, clock).Err? ==>
      GetVariables(r, line, clock).error.DateValueError? ||
      (r.legacy && GetVariables(r, line, clock).error == WhitespaceIndexError)
  {
    if Search(r.items, line).Some? {
      var caps := Search(r.items, line).value;
      SearchSound(r.items, line);
      FitsFill(r.items, line, caps);
      PatternGroupCount(Segments(t));
      if Bind(r.variables, Cleaned(caps, r.legacy)).Err? {
        BindErrorKinds(r.variables, caps, r.legacy);
      }
    }
  }

  /** The data dictionary get_variables builds for a match with captures `caps`, before the
      timestamp is added. */
  function Data(r: Rule, caps: seq<string>): map<string, string>
    requires Bind(r.variables, Cleaned(caps, r.legacy)).Ok?
  {
    WithService(Bind(r.variables, Cleaned(caps, r.legacy)).value, r.service)
  }

  /** The data dictionary holds every variable, each bound to the cleaned capture of its
      last occurrence, except that SERVICE is the rule's service name when it has one. */
  lemma DataContents(r: Rule, caps: seq<string>)
    requires Bind(r.variables, Cleaned(caps, r.legacy)).Ok?
    ensures forall x :: x in Data(r, caps) <==> x in r.variables || (x == "SERVICE" && r.service.Some?)
    ensures r.service.Some? ==> Data(r, caps)["SERVICE"] == r.service.value
    ensures forall j :: (0 <= j < |r.variables| && IsLast(r.variables, j) &&
      (r.service.None? || r.variables[j] != "SERVICE")) ==>
      j < |caps| && Clean(caps[j], r.legacy).Some? && r.variables[j] in Data(r, caps) &&
      Data(r, caps)[r.variables[j]] == Clean(caps[j], r.legacy).value
  {
    BindKeys(r.variables, Cleaned(caps, r.legacy));
    BindValues(r.variables, Cleaned(caps, r.legacy));
  }

  /** What a successful get_variables returns: the captures of the match, the data
      dictionary without TIMESTAMP, and a timestamp parsed from the date text, or the
      current time when the line has no date variable. */
  lemma GetVariablesResult(r: Rule, line: string, clock: Clock) returns (caps: seq<string>, a: Attack)
    requires GetVariables(r, line, clock).Ok? && GetVariables(r, line, clock).value.Some?
    ensures GetVariables(r, line, clock) == Ok(Some(a))
    ensures Search(r.items, line) == Some(caps) && Fits(r.items, line, caps)
    ensures Bind(r.variables, Cleaned(caps, r.legacy)).Ok?
    ensures a.vars == Data(r, caps) - {"TIMESTAMP"}
    ensures DateText(Data(r, caps), clock).None? ==> a.timestamp == clock.now
    ensures DateText(Data(r, caps), clock).Some? ==> clock.parseDate(DateText(Data(r, caps), clock).value) == Some(a.timestamp)
  {
    caps := Search(r.items, line).value;
    a := GetVariables(r, line, clock).value.value;
    SearchSound(r.items, line);
  }

  /** The legacy implementation yields the same result as the current one on every line
      whose captures are not blank. */
  lemma LegacyAgrees(r: Rule, line: string, clock: Clock)
    requires Search(r.items, line).Some?
    requires forall j :: 0 <= j < |Search(r.items, line).value| ==> !AllSpace(Search(r.items, line).value[j])
    ensures GetVariables(r.(legacy := true), line, clock) == GetVariables(r.(legacy := false), line, clock)
  {
    CleanedLegacyAgrees(Search(r.items, line).value);
  }

  // ---------------------------------------------------------------------------
  // Rule.__init__ as written: str.replace of each placeholder in the escaped text
  // ---------------------------------------------------------------------------

  /** The placeholder texts findall returns for the given names, '%' included. */
  function Tokens(names: seq<string>): (tokens: seq<string>)
    ensures |tokens| == |names|
    ensures forall i :: 0 <= i < |tokens| ==> tokens[i] == "%" + names[i] + "%"
  {
    seq(|names|, i requires 0 <= i < |names| => "%" + names[i] + "%")
  }

  /** The replacement loop of log_manipulator.py:174-175: each token in turn is replaced,
      everywhere, by a lazy group. */
  function ReplaceTokens(regex: string, tokens: seq<string>): string
    requires forall i :: 0 <= i < |tokens| ==> tokens[i] != []
    decreases |tokens|
  {
    if tokens == [] then regex else ReplaceTokens(ReplaceAll(regex, tokens[0], "(.+?)"), tokens[1..])
  }

  /** log_manipulator.py:176-177: a trailing lazy group is made greedy. */
  function GreedyFix(regex: string): string {
    if EndsWith(regex, "?)") then regex[..|regex| - 2] + ")" else regex
  }

  /** The regex Rule.__init__ builds: placeholders are looked for in the text AFTER the
      reserved characters were escaped, and by plain substring replacement. */
  function AsWrittenRegex(t: string): string {
    GreedyFix(ReplaceTokens(Escaped(t), Tokens(Variables(t))))
  }

  /** Assembles AsWrittenRegex from its stages, evaluated separately. */
  lemma AsWrittenFromParts(t: string, names: seq<string>, tokens: seq<string>, replaced: string)
    requires Variables(t) == names && Tokens(names) == tokens
    requires ReplaceTokens(Escaped(t), tokens) == replaced
    ensures AsWrittenRegex(t) == GreedyFix(replaced)
  {
  }

  // One step of str.replace evaluated on a known string.

  lemma ReplaceSkip(s: string, pat: string, rep: string, j: nat)
    requires pat != [] && |s| >= |pat| && j < |pat| && s[j] != pat[j]
    ensures ReplaceAll(s, pat, rep) == [s[0]] + ReplaceAll(s[1..], pat, rep)
  {
    assert s[..|pat|] != pat by { assert s[..|pat|][j] != pat[j]; }
  }

  lemma ReplaceHit(s: string, pat: string, rep: string)
    requires pat != [] && |s| >= |pat| && s[..|pat|] == pat
    ensures ReplaceAll(s, pat, rep) == rep + ReplaceAll(s[|pat|..], pat, rep)
  {
  }

  lemma ReplaceAbsentStep(s: string, pat: string, rep: string, j: nat)
    requires pat != [] && |s| >= |pat| && j < |pat| && s[j] != pat[j]
    requires ReplaceAll(s[1..], pat, rep) == s[1..]
    ensures ReplaceAll(s, pat, rep) == s
  {
    ReplaceSkip(s, pat, rep, j);
    assert s == [s[0]] + s[1..];
  }

  /** Text without reserved characters escapes to itself. */
  lemma {:induction false} EscapedUnreserved(s: string)
    requires forall k :: 0 <= k < |s| ==> s[k] !in Reserved
    ensures Escaped(s) == s
    decreases |s|
  {
    if s != [] {
      EscapedUnreserved(s[1..]);
      assert s == [s[0]] + s[1..];
    }
  }

  lemma EscapedUnreservedStep(s: string)
    requires s != [] && s[0] !in Reserved && EscapedBy(s[1..], Reserved) == s[1..]
    ensures EscapedBy(s, Reserved) == s
  {
    assert s == [s[0]] + s[1..];
  }

  /** The first '%' of `name + "%" + rest` closes a placeholder named `name`. */
  lemma {:induction false} CloseAtName(name: string, rest: string)
    requires '%' !in name && '\n' !in name
    ensures CloseAt(name + "%" + rest) == Some(|name|)
    decreases |name|
  {
    var s := name + "%" + rest;
    if name != [] {
      assert s[0] == name[0];
      assert s[1..] == name[1..] + "%" + rest;
      CloseAtName(name[1..], rest);
    } else {
      assert s[0] == '%';
    }
  }

  /** A template that opens with a placeholder. */
  lemma SegmentsVarHead(name: string, rest: string)
    requires '%' !in name && '\n' !in name
    ensures Segments("%" + name + "%" + rest) == [Var(name)] + Segments(rest)
  {
    var t := "%" + name + "%" + rest;
    assert t[1..] == name + "%" + rest;
    CloseAtName(name, rest);
    assert t[1..|name| + 1] == name;
    assert t[|name| + 2..] == rest;
  }

  // The template "%a.b%".

  lemma DottedSegments()
    ensures Segments("%a.b%") == [Var("a.b")]
  {
    SegmentsVarHead("a.b", "");
    assert "%a.b%" == "%" + "a.b" + "%" + "";
  }

  lemma DottedEscaped()
    ensures Escaped("%a.b%") == "%a\\.b%"
  {
    var t := "%a.b%";
    assert '%' !in Reserved && 'a' !in Reserved && 'b' !in Reserved && '.' in Reserved;
    assert t[1..] == "a.b%";
    assert "a.b%"[1..] == ".b%" && ".b%"[1..] == "b%" && "b%"[1..] == "%" && "%"[1..] == [];
    assert EscapedBy("%", Reserved) == "%";
    assert EscapedBy("b%", Reserved) == "b%";
    assert EscapedBy(".b%", Reserved) == "\\.b%";
    assert EscapedBy("a.b%", Reserved) == "a\\.b%";
  }

  lemma DottedReplace()
    ensures ReplaceAll("%a\\.b%", "%a.b%", "(.+?)") == "%a\\.b%"
  {
    var e := "%a\\.b%";
    assert e[..5] != "%a.b%" by { assert e[..5][2] != "%a.b%"[2]; }
    assert e[1..] == "a\\.b%";
    assert e[1..][..5] != "%a.b%" by { assert e[1..][0] != '%'; }
    assert e[2..] == "\\.b%";
  }

  lemma DottedVariables()
    ensures Variables("%a.b%") == ["a.b"]
  {
    DottedSegments();
  }

  lemma DottedTokens()
    ensures Tokens(["a.b"]) == ["%a.b%"]
  {
    var tk := Tokens(["a.b"]);
    assert |tk| == 1 && tk[0] == "%" + "a.b" + "%";
    assert "%" + "a.b" + "%" == "%a.b%";
  }

  lemma DottedAsWritten()
    ensures AsWrittenRegex("%a.b%") == "%a\\.b%"
  {
    DottedEscaped();
    DottedVariables();
    DottedTokens();
    DottedReplace();
    var e := "%a\\.b%";
    assert ReplaceTokens(e, ["%a.b%"]) == e;
    assert e[|e| - 2..] == "b%";
  }

  lemma DottedCorrectedText()
    ensures RegexText(Pattern(Segments("%a.b%"))) == "(.+)"
  {
    DottedSegments();
    assert Pattern([Var("a.b")]) == [Group(true)];
    assert RegexText([Group(true)]) == RegexText([]) + "(.+)";
  }

  lemma DottedCorrectedGroups()
    ensures GroupCount(Pattern(Segments("%a.b%"))) == 1
  {
    DottedSegments();
    assert Pattern([Var("a.b")]) == [Group(true)];
  }

  lemma DottedNoGroup()
    ensures '(' !in "%a\\.b%"
  {
  }

  /** A placeholder whose name holds a reserved character is escaped before it is looked
      for, so it is never replaced: "%a.b%" declares the variable "a.b" but its regex has
      no group at all, and get_variables raises IndexError on every line it matches. The
      corrected compilation has one group. */
  lemma EscapedPlaceholderNeverReplaced()
    ensures Variables("%a.b%") == ["a.b"]
    ensures AsWrittenRegex("%a.b%") == "%a\\.b%" && '(' !in AsWrittenRegex("%a.b%")
    ensures RegexText(Pattern(Segments("%a.b%"))) == "(.+)"
    ensures GroupCount(Pattern(Segments("%a.b%"))) == 1
  {
    DottedVariables();
    DottedAsWritten();
    DottedNoGroup();
    DottedCorrectedText();
    DottedCorrectedGroups();
  }

  // The template "%b%%x%b%y%".

  /** A character that does not open a placeholder starts literal text. */
  lemma SegmentsCharHead(c: char, rest: string)
    requires c != '%'
    ensures Segments([c] + rest) == PrependChar(c, Segments(rest))
  {
    assert ([c] + rest)[1..] == rest;
  }

  /** The segments of the straddling template, for any three placeholder names of one
      ordinary character each. */
  lemma StraddleSegmentsOf(b: char, x: char, y: char)
    requires b != '%' && b != '\n' && x != '%' && x != '\n' && y != '%' && y != '\n'
    ensures Segments("%" + [b] + "%" + ("%" + [x] + "%" + ([b] + ("%" + [y] + "%")))) ==
      [Var([b]), Var([x]), Lit([b]), Var([y])]
  {
    var tail := "%" + [y] + "%";
    SegmentsVarHead([y], "");
    assert tail == "%" + [y] + "%" + "";
    assert Segments(tail) == [Var([y])];
    var lit := [b] + tail;
    SegmentsCharHead(b, tail);
    assert Segments(lit) == [Lit([b]), Var([y])];
    var suffix := "%" + [x] + "%" + lit;
    SegmentsVarHead([x], lit);
    assert Segments(suffix) == [Var([x]), Lit([b]), Var([y])];
    var t := "%" + [b] + "%" + suffix;
    SegmentsVarHead([b], suffix);
    assert Segments(t) == [Var([b]), Var([x]), Lit([b]), Var([y])];
  }

  lemma StraddleSegments()
    ensures Segments("%b%%x%b%y%") == [Var("b"), Var("x"), Lit("b"), Var("y")]
  {
    StraddleSegmentsOf('b', 'x', 'y');
    assert "%" + ['b'] + "%" + ("%" + ['x'] + "%" + (['b'] + ("%" + ['y'] + "%"))) == "%b%%x%b%y%";
  }

  lemma NamesCons(seg: Segment, rest: seq<Segment>)
    ensures Names([seg] + rest) == (if seg.Var? then [seg.name] else []) + Names(rest)
  {
    assert ([seg] + rest)[1..] == rest;
  }

  lemma StraddleNamesOf(b: char, x: char, y: char)
    ensures Names([Var([b]), Var([x]), Lit([b]), Var([y])]) == [[b], [x], [y]]
  {
    var segs := [Var([b]), Var([x]), Lit([b]), Var([y])];
    NamesCons(segs[3], []);
    assert segs[3..] == [segs[3]] + [];
    NamesCons(segs[2], segs[3..]);
    assert segs[2..] == [segs[2]] + segs[3..];
    NamesCons(segs[1], segs[2..]);
    assert segs[1..] == [segs[1]] + segs[2..];
    NamesCons(segs[0], segs[1..]);
    assert segs == [segs[0]] + segs[1..];
  }

  lemma StraddleVariables()
    ensures Variables("%b%%x%b%y%") == ["b", "x", "y"]
  {
    StraddleSegments();
    StraddleNamesOf('b', 'x', 'y');
  }

  lemma StraddleEscaped()
    ensures Escaped("%b%%x%b%y%") == "%b%%x%b%y%"
  {
    var s := "%b%%x%b%y%";
    assert forall k :: 0 <= k < |s| ==> s[k] in "%bxy";
    assert forall c :: c in "%bxy" ==> c !in Reserved;
    EscapedUnreserved(s);
  }

  lemma StraddleReplaceB()
    ensures ReplaceAll("%b%%x%b%y%", "%b%", "(.+?)") == "(.+?)%x(.+?)y%"
  {
    var s := "%b%%x%b%y%";
    assert |s[8..]| < 3;
    assert ReplaceAll(s[8..], "%b%", "(.+?)") == "y%";
    ReplaceHit(s[5..], "%b%", "(.+?)");
    assert ReplaceAll(s[5..], "%b%", "(.+?)") == "(.+?)y%";
    assert s[4..][0] == "x"[0];
    ReplaceSkip(s[4..], "%b%", "(.+?)", 0);
    assert ReplaceAll(s[4..], "%b%", "(.+?)") == "x(.+?)y%";
    assert s[3..][1] == "x"[0];
    ReplaceSkip(s[3..], "%b%", "(.+?)", 1);
    assert ReplaceAll(s[3..], "%b%", "(.+?)") == "%x(.+?)y%";
    ReplaceHit(s[0..], "%b%", "(.+?)");
    assert ReplaceAll(s[0..], "%b%", "(.+?)") == "(.+?)%x(.+?)y%";
  }

  lemma StraddleReplaceXTail()
    ensures ReplaceAll("(.+?)%x(.+?)y%"[6..], "%x%", "(.+?)") == "(.+?)%x(.+?)y%"[6..]
  {
    var s := "(.+?)%x(.+?)y%";
    assert |s[12..]| < 3;
    assert s[11..][0] == ")"[0];
    ReplaceAbsentStep(s[11..], "%x%", "(.+?)", 0);
    assert s[10..][0] == "?"[0];
    ReplaceAbsentStep(s[10..], "%x%", "(.+?)", 0);
    assert s[9..][0] == "+"[0];
    ReplaceAbsentStep(s[9..], "%x%", "(.+?)", 0);
    assert s[8..][0] == "."[0];
    ReplaceAbsentStep(s[8..], "%x%", "(.+?)", 0);
    assert s[7..][0] == "("[0];
    ReplaceAbsentStep(s[7..], "%x%", "(.+?)", 0);
    assert s[6..][0] == "x"[0];
    ReplaceAbsentStep(s[6..], "%x%", "(.+?)", 0);
  }

  lemma StraddleReplaceX()
    ensures ReplaceAll("(.+?)%x(.+?)y%", "%x%", "(.+?)") == "(.+?)%x(.+?)y%"
  {
    var s := "(.+?)%x(.+?)y%";
    StraddleReplaceXTail();
    assert s[5..][2] == "("[0];
    ReplaceAbsentStep(s[5..], "%x%", "(.+?)", 2);
    assert s[4..][0] == ")"[0];
    ReplaceAbsentStep(s[4..], "%x%", "(.+?)", 0);
    assert s[3..][0] == "?"[0];
    ReplaceAbsentStep(s[3..], "%x%", "(.+?)", 0);
    assert s[2..][0] == "+"[0];
    ReplaceAbsentStep(s[2..], "%x%", "(.+?)", 0);
    assert s[1..][0] == "."[0];
    ReplaceAbsentStep(s[1..], "%x%", "(.+?)", 0);
    assert s[0..][0] == "("[0];    ReplaceAbsentStep(s[0..], "%x%", "(.+?)", 0);
  }

  lemma StraddleReplaceYTail()
    ensures ReplaceAll("(.+?)%x(.+?)y%"[6..], "%y%", "(.+?)") == "(.+?)%x(.+?)y%"[6..]
  {
    var s := "(.+?)%x(.+?)y%";
    assert |s[12..]| < 3;
    assert s[11..][0] == ")"[0];
    ReplaceAbsentStep(s[11..], "%y%", "(.+?)", 0);
    assert s[10..][0] == "?"[0];
    ReplaceAbsentStep(s[10..], "%y%", "(.+?)", 0);
    assert s[9..][0] == "+"[0];
    ReplaceAbsentStep(s[9..], "%y%", "(.+?)", 0);
    assert s[8..][0] == "."[0];
    ReplaceAbsentStep(s[8..], "%y%", "(.+?)", 0);
    assert s[7..][0] == "("[0];
    ReplaceAbsentStep(s[7..], "%y%", "(.+?)", 0);
    assert s[6..][0] == "x"[0];
    ReplaceAbsentStep(s[6..], "%y%", "(.+?)", 0);
  }

  lemma StraddleReplaceY()
    ensures ReplaceAll("(.+?)%x(.+?)y%", "%y%", "(.+?)") == "(.+?)%x(.+?)y%"
  {
    var s := "(.+?)%x(.+?)y%";
    StraddleReplaceYTail();
    assert s[5..][1] == "x"[0];
    ReplaceAbsentStep(s[5..], "%y%", "(.+?)", 1);
    assert s[4..][0] == ")"[0];
    ReplaceAbsentStep(s[4..], "%y%", "(.+?)", 0);
    assert s[3..][0] == "?"[0];
    ReplaceAbsentStep(s[3..], "%y%", "(.+?)", 0);
    assert s[2..][0] == "+"[0];
    ReplaceAbsentStep(s[2..], "%y%", "(.+?)", 0);
    assert s[1..][0] == "."[0];
    ReplaceAbsentStep(s[1..], "%y%", "(.+?)", 0);
    assert s[0..][0] == "("[0];    ReplaceAbsentStep(s[0..], "%y%", "(.+?)", 0);
  }

  lemma StraddleTokens()
    ensures Tokens(["b", "x", "y"]) == ["%b%", "%x%", "%y%"]
  {
    var tk := Tokens(["b", "x", "y"]);
    assert |tk| == 3;
    assert tk[0] == "%b%" by { assert tk[0] == "%" + "b" + "%"; }
    assert tk[1] == "%x%" by { assert tk[1] == "%" + "x" + "%"; }
    assert tk[2] == "%y%" by { assert tk[2] == "%" + "y" + "%"; }
  }

  lemma StraddleReplaceTokens()
    ensures ReplaceTokens("%b%%x%b%y%", ["%b%", "%x%", "%y%"]) == "(.+?)%x(.+?)y%"
  {
    StraddleReplaceB();
    StraddleReplaceX();
    StraddleReplaceY();
    var tokens := ["%b%", "%x%", "%y%"];
    assert tokens[1..] == ["%x%", "%y%"] && tokens[1..][1..] == ["%y%"];
  }

  lemma StraddleGreedyFix()
    ensures GreedyFix("(.+?)%x(.+?)y%") == "(.+?)%x(.+?)y%"
  {
    var r := "(.+?)%x(.+?)y%";
    assert r[|r| - 2..] == "y%";
  }

  lemma StraddleAsWritten()
    ensures AsWrittenRegex("%b%%x%b%y%") == "(.+?)%x(.+?)y%"
  {
    StraddleEscaped();
    StraddleVariables();
    StraddleTokens();
    StraddleReplaceTokens();
    StraddleGreedyFix();
    AsWrittenFromParts("%b%%x%b%y%", ["b", "x", "y"], ["%b%", "%x%", "%y%"], "(.+?)%x(.+?)y%");
  }

  /** A token can also be found where it straddles two placeholders: in "%b%%x%b%y%" the
      replacement of "%b%" also eats the '%' closing "%x%" and the one opening "%y%", so
      the regex has two groups for three variables and get_variables raises IndexError.
      The corrected compilation has three. */
  lemma StraddlingPlaceholderReplaced()
    ensures Variables("%b%%x%b%y%") == ["b", "x", "y"]
    ensures AsWrittenRegex("%b%%x%b%y%") == "(.+?)%x(.+?)y%"
    ensures GroupCount(Pattern(Segments("%b%%x%b%y%"))) == 3
  {
    StraddleVariables();
    StraddleAsWritten();
    PatternGroupCount(Segments("%b%%x%b%y%"));
  }

  // ---------------------------------------------------------------------------
  // Where the as-written regex and the corrected one agree
  // ---------------------------------------------------------------------------

  /** A placeholder name str.replace cannot confuse with anything else: non-empty, without
      a '%' and without reserved characters, so that escaping leaves its token alone. */
  predicate PlainName(n: string) {
    n != [] && '%' !in n && Unreserved(n)
  }

  predicate Unreserved(n: string) {
    forall k :: 0 <= k < |n| ==> n[k] !in Reserved
  }

  /** Templates on which the replacement loop finds each placeholder exactly where findall
      found it: every name is plain, and, once there is a placeholder at all, no literal
      holds a '%' and no literal is spelled like a name. */
  ghost predicate Ordinary(segs: seq<Segment>) {
    (forall i :: 0 <= i < |segs| && segs[i].Var? ==> PlainName(segs[i].name)) &&
    (forall i, j :: 0 <= i < |segs| && 0 <= j < |segs| && segs[i].Lit? && segs[j].Var? ==>
      '%' !in segs[i].text && segs[i].text != segs[j].name)
  }

  /** What the replacement of the token of `n` needs of the segments it works on. */
  ghost predicate Replaceable(segs: seq<Segment>, n: string) {
    WellFormed(segs) && PlainName(n) &&
    forall i :: 0 <= i < |segs| && segs[i].Lit? ==> '%' !in segs[i].text && segs[i].text != n
  }

  /** One segment of the regex text while the loop runs: escaped literal text, a lazy group
      for each placeholder already replaced, the token itself for the others. */
  function RenderedSeg(seg: Segment, done: set<string>): string {
    match seg
    case Lit(l) => Escaped(l)
    case Var(m) => if m in done then "(.+?)" else "%" + m + "%"
  }

  /** The regex text while the loop runs, after the names in `done` were replaced. */
  function Rendered(segs: seq<Segment>, done: set<string>): string {
    if segs == [] then [] else RenderedSeg(segs[0], done) + Rendered(segs[1..], done)
  }

  /** `pat` occurs in `s` at index `k`. */
  predicate OccursAt(s: string, pat: string, k: nat) {
    k + |pat| <= |s| && s[k..k + |pat|] == pat
  }

  /** str.replace changes nothing in text where `pat` does not occur. */
  lemma {:induction false} ReplaceAbsent(s: string, pat: string, rep: string)
    requires pat != []
    requires forall k: nat :: k <= |s| ==> !OccursAt(s, pat, k)
    ensures ReplaceAll(s, pat, rep) == s
    decreases |s|
  {
    if |s| >= |pat| {
      assert !OccursAt(s, pat, 0);
      forall k: nat | k <= |s[1..]|
        ensures !OccursAt(s[1..], pat, k)
      {
        assert !OccursAt(s, pat, k + 1);
        if k + |pat| <= |s[1..]| {
          assert s[1..][k..k + |pat|] == s[k + 1..k + 1 + |pat|];
        }
      }
      ReplaceAbsent(s[1..], pat, rep);
      assert s == [s[0]] + s[1..];
    }
  }

  /** Text without the first character of `pat` is left alone by str.replace. */
  lemma NoHeadReplaceAbsent(s: string, pat: string, rep: string)
    requires pat != [] && pat[0] !in s
    ensures ReplaceAll(s, pat, rep) == s
  {
    forall k: nat | k <= |s|
      ensures !OccursAt(s, pat, k)
    {
      if k + |pat| <= |s| {
        assert s[k..k + |pat|][0] == s[k];
      }
    }
    ReplaceAbsent(s, pat, rep);
  }

  /** str.replace on a concatenation works on each half on its own when no occurrence of
      `pat` straddles the join. */
  lemma {:induction false} ReplaceConcat(x: string, y: string, pat: string, rep: string)
    requires pat != []
    requires forall k: nat :: k < |x| < k + |pat| ==> !OccursAt(x + y, pat, k)
    ensures ReplaceAll(x + y, pat, rep) == ReplaceAll(x, pat, rep) + ReplaceAll(y, pat, rep)
    decreases |x|
  {
    var s := x + y;
    if x == [] {
      assert s == y;
    } else if |s| < |pat| {
      assert |x| < |pat| && |y| < |pat|;
    } else if s[..|pat|] == pat {
      assert OccursAt(s, pat, 0);
      assert |pat| <= |x|;
      assert x[..|pat|] == pat;
      var x' := x[|pat|..];
      assert s[|pat|..] == x' + y;
      NoStraddleShift(x, y, pat, |pat|);
      ReplaceConcat(x', y, pat, rep);
    } else {
      var x' := x[1..];
      assert s[1..] == x' + y;
      NoStraddleShift(x, y, pat, 1);
      ReplaceConcat(x', y, pat, rep);
      if |x| >= |pat| {
        assert x[..|pat|] == s[..|pat|];
      } else {
        assert x == [x[0]] + x';
      }
    }
  }

  /** Dropping `d` characters of the first half keeps occurrences off the join. */
  lemma NoStraddleShift(x: string, y: string, pat: string, d: nat)
    requires pat != [] && d <= |x|
    requires forall k: nat :: k < |x| < k + |pat| ==> !OccursAt(x + y, pat, k)
    ensures forall k: nat :: k < |x[d..]| < k + |pat| ==> !OccursAt(x[d..] + y, pat, k)
  {
    var s := x + y;
    var x' := x[d..];
    forall k: nat | k < |x'| < k + |pat|
      ensures !OccursAt(x' + y, pat, k)
    {
      assert !OccursAt(s, pat, k + d);
      if k + |pat| <= |x' + y| {
        assert (x' + y)[k..k + |pat|] == s[k + d..k + d + |pat|];
      }
    }
  }

  /** Escaping adds only backslashes. */
  lemma {:induction false} EscapedKeepsOut(s: string, cs: string, c: char)
    requires c != '\\' && c !in s
    ensures c !in EscapedBy(s, cs)
    decreases |s|
  {
    if s != [] {
      assert s[0] != c;
      EscapedKeepsOut(s[1..], cs, c);
    }
  }

  /** Escaped text free of reserved characters was not changed by escaping. */
  lemma {:induction false} EscapedIntoPlain(l: string, n: string)
    requires Unreserved(n)
    ensures Escaped(l) == n ==> l == n
    decreases |l|
  {
    if l != [] && Escaped(l) == n {
      assert Escaped(l) == EscapeCharBy(l[0], Reserved) + Escaped(l[1..]);
      assert l[0] !in Reserved by {
        assert Escaped(l)[0] == n[0];
      }
      assert Escaped(l[1..]) == n[1..];
      assert Unreserved(n[1..]) by {
        assert forall k :: 0 <= k < |n[1..]| ==> n[1..][k] == n[k + 1];
      }
      EscapedIntoPlain(l[1..], n[1..]);
      assert l == [l[0]] + l[1..];
    }
  }

  /** The token of `n` met in one segment. */
  lemma ReplaceSeg(seg: Segment, done: set<string>, n: string)
    requires PlainName(n)
    requires seg.Lit? ==> '%' !in seg.text
    requires seg.Var? ==> '%' !in seg.name
    ensures ReplaceAll(RenderedSeg(seg, done), "%" + n + "%", "(.+?)") == RenderedSeg(seg, done + {n})
  {
    var pat := "%" + n + "%";
    match seg
    case Lit(l) =>
      EscapedKeepsOut(l, Reserved, '%');
      NoHeadReplaceAbsent(Escaped(l), pat, "(.+?)");
    case Var(m) =>
      if m in done {
        NoHeadReplaceAbsent("(.+?)", pat, "(.+?)");
      } else if m == n {
        ReplaceHit(pat, pat, "(.+?)");
        assert pat[|pat|..] == [];
      } else {
        var s := "%" + m + "%";
        forall k: nat | k <= |s|
          ensures !OccursAt(s, pat, k)
        {
          if k + |pat| > |s| {
          } else if k > 0 {
            assert s[k..k + |pat|][0] == m[k - 1];
          } else if |n| < |m| {
            assert s[k..k + |pat|][|n| + 1] == m[|n|];
          } else {
            assert s[1..|m| + 1] == m && pat[1..|n| + 1] == n;
          }
        }
        ReplaceAbsent(s, pat, "(.+?)");
      }
  }

  /** A placeholder segment's text starts with '%' or with the '(' of a group. */
  lemma RenderedVarHead(rest: seq<Segment>, done: set<string>)
    requires rest != [] && rest[0].Var?
    ensures Rendered(rest, done) != [] && Rendered(rest, done)[0] in "%("
  {
  }

  /** No token of a plain name straddles a segment and the text after it. */
  lemma NoStraddle(seg: Segment, rest: seq<Segment>, done: set<string>, n: string)
    requires Replaceable([seg] + rest, n)
    ensures forall k: nat :: k < |RenderedSeg(seg, done)| < k + |n| + 2 ==>
      !OccursAt(RenderedSeg(seg, done) + Rendered(rest, done), "%" + n + "%", k)
  {
    var x := RenderedSeg(seg, done);
    var y := Rendered(rest, done);
    var segs := [seg] + rest;
    assert segs[0] == seg;
    if seg.Lit? {
      EscapedKeepsOut(seg.text, Reserved, '%');
      PercentFreeNotStraddled(x, y, "%" + n + "%");
    } else if seg.name in done {
      PercentFreeNotStraddled(x, y, "%" + n + "%");
    } else {
      ReplaceableTail(segs, n);
      assert segs[1..] == rest;
      NoNameAhead(rest, done, n);
      TokenNotStraddled(seg.name, y, n);
    }
  }

  /** An occurrence of a token starts at a '%'. */
  lemma PercentFreeNotStraddled(x: string, y: string, pat: string)
    requires pat != [] && pat[0] == '%' && '%' !in x
    ensures forall k: nat :: k < |x| ==> !OccursAt(x + y, pat, k)
  {
    forall k: nat | k < |x|
      ensures !OccursAt(x + y, pat, k)
    {
      if k + |pat| <= |x + y| {
        assert (x + y)[k..k + |pat|][0] == x[k];
      }
    }
  }

  /** The token of `n` does not straddle the end of the token of another name `m`, when
      the text after it does not start with `n` and a '%'. */
  lemma TokenNotStraddled(m: string, y: string, n: string)
    requires '%' !in m && PlainName(n)
    requires !OccursAt(y, n + "%", 0)
    ensures forall k: nat :: k < |m| + 2 < k + |n| + 2 ==> !OccursAt("%" + m + "%" + y, "%" + n + "%", k)
  {
    var x := "%" + m + "%";
    var pat := "%" + n + "%";
    forall k: nat | k < |x| < k + |pat|
      ensures !OccursAt(x + y, pat, k)
    {
      if k + |pat| <= |x + y| {
        var w := (x + y)[k..k + |pat|];
        if 0 < k < |m| + 1 {
          assert w[0] == m[k - 1];
          assert w != pat;
        } else if k == 0 {
          assert w[|m| + 1] == x[|m| + 1] && pat[|m| + 1] == n[|m|];
          assert w != pat;
        } else {
          assert forall j :: 0 <= j < |n| + 1 ==> w[j + 1] == y[j];
          assert w[1..] == y[..|n| + 1];
          assert pat[1..] == n + "%";
          assert !OccursAt(y, n + "%", 0) && |n + "%"| == |n| + 1;
          assert y[..|n| + 1] != n + "%";
          assert w != pat;
        }
      }
    }
  }

  /** What follows a placeholder never starts with a plain name and a '%': it starts with
      a placeholder or a group, or with a literal that is not the name. */
  lemma NoNameAhead(rest: seq<Segment>, done: set<string>, n: string)
    requires Replaceable(rest, n)
    ensures !OccursAt(Rendered(rest, done), n + "%", 0)
  {
    var y := Rendered(rest, done);
    var q := n + "%";
    if rest != [] && |q| <= |y| {
      var v := y[..|q|];
      if rest[0].Var? {
        RenderedVarHead(rest, done);
        assert n[0] !in Reserved && '(' in Reserved;
        assert v[0] == y[0] && q[0] == n[0];
      } else {
        var l := rest[0].text;
        var e := Escaped(l);
        assert y == e + Rendered(rest[1..], done);
        EscapedKeepsOut(l, Reserved, '%');
        if |e| > |n| {
          assert v[|n|] == e[|n|];
        } else if |e| == |n| {
          EscapedIntoPlain(l, n);
          var j :| 0 <= j < |n| && e[j] != n[j];
          assert v[j] == e[j] && q[j] == n[j];
        } else {
          assert rest[1..][0] == rest[1];
          RenderedVarHead(rest[1..], done);
          assert n[|e|] !in Reserved && '(' in Reserved;
          assert v[|e|] == y[|e|] == Rendered(rest[1..], done)[0];
        }
      }
    }
  }

  lemma ReplaceableTail(segs: seq<Segment>, n: string)
    requires segs != [] && Replaceable(segs, n)
    ensures Replaceable(segs[1..], n)
  {
    assert forall i :: 0 <= i < |segs| - 1 ==> segs[1..][i] == segs[i + 1];
  }

  /** One pass of the replacement loop: every token of `n` in the text is exactly one of
      the placeholders named `n`. */
  lemma {:induction false} ReplaceRendered(segs: seq<Segment>, done: set<string>, n: string)
    requires Replaceable(segs, n)
    ensures ReplaceAll(Rendered(segs, done), "%" + n + "%", "(.+?)") == Rendered(segs, done + {n})
    decreases |segs|
  {
    if segs != [] {
      assert segs == [segs[0]] + segs[1..];
      NoStraddle(segs[0], segs[1..], done, n);
      assert |"%" + n + "%"| == |n| + 2;
      ReplaceConcat(RenderedSeg(segs[0], done), Rendered(segs[1..], done), "%" + n + "%", "(.+?)");
      ReplaceSeg(segs[0], done, n);
      ReplaceableTail(segs, n);
      ReplaceRendered(segs[1..], done, n);
    }
  }

  /** The whole replacement loop. */
  lemma {:induction false} ReplaceTokensRendered(segs: seq<Segment>, done: set<string>, names: seq<string>)
    requires forall i :: 0 <= i < |names| ==> Replaceable(segs, names[i])
    ensures ReplaceTokens(Rendered(segs, done), Tokens(names)) == Rendered(segs, done + set m | m in names)
    decreases |names|
  {
    if names != [] {
      var text := Rendered(segs, done);
      var tokens := Tokens(names);
      ReplaceRendered(segs, done, names[0]);
      assert tokens[0] == "%" + names[0] + "%";
      assert ReplaceTokens(text, tokens) == ReplaceTokens(Rendered(segs, done + {names[0]}), tokens[1..]);
      assert tokens[1..] == Tokens(names[1..]);
      assert forall i :: 0 <= i < |names[1..]| ==> names[1..][i] == names[i + 1];
      ReplaceTokensRendered(segs, done + {names[0]}, names[1..]);
      assert ReplaceTokens(text, tokens) == Rendered(segs, done + {names[0]} + (set m | m in names[1..]));
      assert done + {names[0]} + (set m | m in names[1..]) == done + (set m | m in names);
    } else {
      assert done + (set m | m in names) == done;
    }
  }

  /** Escaping a template whose names are plain leaves its tokens in place. */
  lemma {:induction false} EscapedUnparse(segs: seq<Segment>)
    requires forall i :: 0 <= i < |segs| && segs[i].Var? ==> PlainName(segs[i].name)
    ensures Escaped(Unparse(segs)) == Rendered(segs, {})
    decreases |segs|
  {
    if segs != [] {
      var piece := match segs[0] case Lit(l) => l case Var(m) => "%" + m + "%";
      EscapedByConcat(piece, Unparse(segs[1..]), Reserved);
      assert forall i :: 0 <= i < |segs| - 1 ==> segs[1..][i] == segs[i + 1];
      EscapedUnparse(segs[1..]);
      if segs[0].Var? {
        var m := segs[0].name;
        assert '%' !in Reserved;
        assert forall k :: 0 <= k < |m| ==> piece[k + 1] == m[k];
        EscapedUnreserved(piece);
      }
    }
  }

  lemma {:induction false} RenderedSnoc(segs: seq<Segment>, done: set<string>)
    requires segs != []
    ensures Rendered(segs, done) == Rendered(segs[..|segs| - 1], done) + RenderedSeg(segs[|segs| - 1], done)
    decreases |segs|
  {
    if |segs| > 1 {
      RenderedSnoc(segs[1..], done);
      assert segs[1..][..|segs| - 2] == segs[..|segs| - 1][1..];
    }
  }

  /** Once every name is replaced, the text is the regex of the lazy pattern. */
  lemma {:induction false} RenderedAllDone(segs: seq<Segment>, done: set<string>)
    requires forall i :: 0 <= i < |segs| && segs[i].Var? ==> segs[i].name in done
    ensures Rendered(segs, done) == RegexText(LazyItems(segs))
    decreases |segs|
  {
    if segs != [] {
      var n := |segs|;
      RenderedSnoc(segs, done);
      RenderedAllDone(segs[..n - 1], done);
      assert LazyItems(segs)[..n - 1] == LazyItems(segs[..n - 1]);
    }
  }

  /** The names listed are the names of the placeholder segments. */
  lemma {:induction false} NamesOfVars(segs: seq<Segment>)
    ensures forall m :: m in Names(segs) <==> exists j :: 0 <= j < |segs| && segs[j].Var? && segs[j].name == m
    decreases |segs|
  {
    if segs != [] {
      NamesOfVars(segs[1..]);
      assert forall j :: 0 <= j < |segs| - 1 ==> segs[1..][j] == segs[j + 1];
      forall m | exists j :: 0 <= j < |segs| && segs[j].Var? && segs[j].name == m
        ensures m in Names(segs)
      {
        var j :| 0 <= j < |segs| && segs[j].Var? && segs[j].name == m;
        if j > 0 {
          assert segs[1..][j - 1] == segs[j];
        }
      }
    }
  }

  /** On ordinary templates the source's str.replace loop builds exactly the regex of the
      corrected compilation. */
  lemma AsWrittenAgrees(t: string)
    requires Ordinary(Segments(t))
    ensures AsWrittenRegex(t) == RegexText(Pattern(Segments(t)))
  {
    var segs := Segments(t);
    var names := Names(segs);
    SegmentsWellFormed(t);
    SegmentsRoundTrip(t);
    NamesOfVars(segs);
    forall i | 0 <= i < |names|
      ensures Replaceable(segs, names[i])
    {
      assert names[i] in names;
    }
    EscapedUnparse(segs);
    ReplaceTokensRendered(segs, {}, names);
    RenderedAllDone(segs, {} + set m | m in names);
    GreedyStep(segs);
  }
}
