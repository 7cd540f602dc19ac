# simple-guardian: a verified model of the detection pipeline

simple-guardian is a small intrusion-prevention daemon. It reads service log files and
recognises attacks with *rules*: templates such as `%D:M% %D:D% %TIME% %IP% attacked on
user %USER%`. It groups the attacks by attacking address and finds the *habitual
offenders*, meaning addresses with enough attacks inside a time window. It then records
attacks and bans in an SQLite store and blocks offenders through an external blocker
executable.

This project models that pipeline in Dafny and proves its properties. The modules are:

- `Rules` (rules.dfy): the rule language of `log_manipulator.py` and its older twin in
  `guardian.py`.
  - A template is parsed into literal and placeholder segments, the way
    `re.findall("%.*?%")` finds them.
  - Compilation escapes the reserved regex characters `\+*?^$.[]{}()|/`. It turns each
    placeholder into a lazy group and makes a final group greedy.
  - Matching is anchored at the line start. It is specified as a search over the ways a
    line splits along the pattern, not as a regex engine.
  - `get_variables` builds the variable map: trimmed captures, an optional `SERVICE`, and
    a timestamp taken from the `D:M`/`D:D`/`TIME` variables.
- `LogManipulator` (log_manipulator.dfy): the per-line first-match-wins extraction, and
  the forward-window offender count.
  - It also holds the incremental `LogParser`, a class whose cursor fields are the size
    and modification time last read, the tail fingerprint and the attack cache.
  - `parse_attacks` is a method. It is proved against the function `Scan` of the cursor
    before the call.
- `LegacyGuardian` (legacy_guardian.dfy): `guardian.py`'s stateless parser and its
  `remove_whitespaces` loop.
- `SimpleGuardian` (simple_guardian.dfy): the daemon's bookkeeping.
  - The running flag and its chunked sleep.
  - The store: ban rows, attack rows and a commit count.
  - `IPBlocker`, with the blocker executable modelled as a log of calls.
  - One scanning cycle: timestamp de-duplication, insert-if-absent, blocking offenders,
    and one commit at the end.
  - The defaults-then-override merge of `load_profiles`.
- `WebApi` (web_api.dfy): the SQL text of `list_attacks`/`list_bans` and the row-to-object
  mapping of `Database.json`. It also covers the per-ban attack counts that `list_bans`
  attaches.
- `OldConfig` (old_config.dfy): the `--PROFILES--` interpreter of `parse_old_config.py`.
  It is a loop over the lines, proved against a step function.
- `Wrappers` (wrappers.dfy): `Option`, `Result`, a JSON value type and the error kinds the
  source raises.

Where the code does something a reader might not expect, the model follows the code:

- `block` inserts the ban row whatever the blocker's exit status.
- In the cache merge of `parse_attacks`, the cached list of an address replaces the one
  just found (`ScanAppended`).
- A template without placeholders matches every line that *starts* with it
  (`LiteralTemplateIsPrefixTest`).
- A line exception in `parse_attacks` stores the new fingerprint but not the new size.
  After one such failure on a read from the start of a non-empty file, every later call
  on a non-empty file raises `ValueError` from the seek (`ScanStuckAfterLineError`).

## Model

| member | source | states |
|---|---|---|
| Rules.TrimLeft | log_manipulator.py:205 | `str.strip`'s left half: the result is a suffix of the input, only whitespace is cut, and it starts with a non-whitespace character |
| Rules.TrimRight | log_manipulator.py:205 | the right half: a prefix of the input, only whitespace cut, ending with non-whitespace |
| Rules.StripIsSlice | log_manipulator.py:205 | a stripped capture is a contiguous slice `s[i..j]` with only whitespace outside it, and with non-whitespace at both ends when non-empty |
| Rules.StripEmptyIffBlank | log_manipulator.py:205 | strip yields the empty string exactly when the capture is all whitespace |
| Rules.EscapeReserved | log_manipulator.py:172-173 | the loop of `str.replace` calls over the reserved characters computes `Escaped` |
| Rules.EscapeStep | log_manipulator.py:172-173 | replacing the next reserved character in text already escaped for the earlier ones equals escaping for all of them: backslash goes first, so nothing is escaped twice |
| Rules.EscapedRoundTrip | log_manipulator.py:172-173 | escaping is undone by removing the backslashes, and every reserved character of the output is preceded by exactly one backslash |
| Rules.EscapedUnreserved | log_manipulator.py:172-173 | text without reserved characters is left unchanged by escaping |
| Rules.CloseAt | log_manipulator.py:168 | the lazy `.*?%` closes a placeholder at a position inside the text |
| Rules.CloseAtFacts | log_manipulator.py:168 | it closes at the first `%` with no line feed before it, and fails exactly when every later `%` follows a line feed |
| Rules.SegmentsRoundTrip | log_manipulator.py:168 | the segments findall cuts a template into concatenate back to the template |
| Rules.SegmentsWellFormed | log_manipulator.py:168 | no literal segment is empty, no two literal segments are adjacent, and no placeholder name holds a `%` or a line feed |
| Rules.LazyItems | log_manipulator.py:174-175 | one pattern item per segment |
| Rules.LastGroupTest | log_manipulator.py:176 | the regex ends with `?)` exactly when the template's last segment is a placeholder; escaped literal text never ends that way |
| Rules.GreedyStep | log_manipulator.py:176-177 | dropping `?` before the final `)` turns the last lazy group into the greedy one and changes nothing otherwise |
| Rules.Compile | log_manipulator.py:160-180 | the variables are the placeholder names in template order, the pattern is the segments with a greedy last group, the regex text is that pattern's rendering, and the service name is kept |
| Rules.Run | log_manipulator.py:188 | `.` consumes every character up to the first line feed and no further |
| Rules.SearchSound | log_manipulator.py:188 | the captures `Search` returns split the line the way the pattern demands |
| Rules.SearchComplete | log_manipulator.py:188 | if any split of the line fits the pattern, `Search` finds one |
| Rules.SearchIffMatches | log_manipulator.py:188 | `Search` succeeds exactly when the line matches |
| Rules.FitsFill | log_manipulator.py:200-205 | a fitting split has one capture per group, and the pattern filled with the captures is a prefix of the line |
| Rules.GreedyEndCoversLine | log_manipulator.py:176-177 | when the pattern ends with the greedy group and the line has no line feed, the match covers the whole line |
| Rules.TextOnlyPrefix | log_manipulator.py:182-188 | a pattern of literal text only matches exactly the lines that start with that text |
| Rules.NoNamesAllLiteral | log_manipulator.py:168-177 | when there are no placeholders every segment is literal and the pattern's text spells the segments back |
| Rules.LiteralTemplateIsPrefixTest | log_manipulator.py:182-188 | a template without placeholders matches a line if and only if the line starts with it |
| Rules.GroupCountConcat | log_manipulator.py:174-175 | group counts add up over concatenated patterns |
| Rules.LazyGroupCount | log_manipulator.py:174-175 | the lazy pattern has one group per placeholder |
| Rules.PatternGroupCount | log_manipulator.py:174-177 | the compiled pattern has one group per variable |
| Rules.Test | log_manipulator.py:182-188 | `test` holds exactly when the line matches the pattern at its start |
| Rules.DropLeadingIsTrimLeft | guardian.py:7-8 | the first loop of `remove_whitespaces` fails on a blank string and otherwise is the left trim |
| Rules.DropTrailingIsTrimRight | guardian.py:9-10 | the second loop fails on a blank string and otherwise is the right trim |
| Rules.RemoveWhitespacesIsStrip | guardian.py:6-11 | `remove_whitespaces` raises IndexError exactly on a blank string and otherwise equals `str.strip` |
| Rules.BindOkIff | log_manipulator.py:204-205 | storing the variables succeeds exactly when every name has a group whose cleaning succeeded (only the legacy trim can fail, on a blank capture) |
| Rules.BindErrors | log_manipulator.py:204-205 | storing can fail only with a missing group or a blank capture |
| Rules.BindKeys | log_manipulator.py:204-205 | the stored keys are exactly the variable names |
| Rules.BindValues | log_manipulator.py:204-205 | a repeated name keeps the capture of its last occurrence |
| Rules.BindErrorKinds | guardian.py:85-86 | for a compiled rule, storing fails only in the legacy class, on a blank capture |
| Rules.CleanedLegacyAgrees | guardian.py:86 | on non-blank captures the two trims agree |
| Rules.DateText | log_manipulator.py:210-219 | there is no date text exactly when neither `TIME` nor both `D:M` and `D:D` are present; each of the three cases builds the text with the clock's year or today's date |
| Rules.GetVariablesNoneIffNoMatch | log_manipulator.py:200-202 | `get_variables` returns None exactly when `test` fails |
| Rules.CompiledErrors | log_manipulator.py:197-222 | for a compiled rule, `get_variables` raises only on an unparsable date, or in the legacy class on a blank capture |
| Rules.DataContents | log_manipulator.py:204-208 | the data keys are the variable names plus `SERVICE` exactly when a service was given; each name holds its cleaned capture and `SERVICE` the service name |
| Rules.GetVariablesResult | log_manipulator.py:197-223 | a match returns the data map built from the captures; its timestamp is the parsed date text, or the current time when there is no date text |
| Rules.LegacyAgrees | guardian.py:77-104 | when no capture is blank, the legacy class returns what the newer one does |
| Rules.EscapedPlaceholderNeverReplaced | log_manipulator.py:172-175 | "%a.b%" declares variable "a.b", but the source's regex `%a\.b%` has no group; the corrected pattern `(.+)` has one |
| Rules.StraddlingPlaceholderReplaced | guardian.py:66-67 | "%b%%x%b%y%" declares b, x and y, but the source's replace loop yields `(.+?)%x(.+?)y%` with two groups; the corrected pattern has three |
| Rules.ReplaceRendered | log_manipulator.py:174-175 | one pass of the replace loop on a plain name turns exactly the placeholders of that name into lazy groups, provided no literal holds a `%` or is spelled like the name |
| Rules.ReplaceTokensRendered | log_manipulator.py:174-175 | the whole replace loop turns exactly the placeholders of the listed names into lazy groups |
| Rules.EscapedUnparse | log_manipulator.py:172-173 | escaping a template whose names hold no reserved character leaves every placeholder token in place and escapes only the literal text |
| Rules.AsWrittenAgrees | log_manipulator.py:168-177 | on an ordinary template (plain non-empty names; no literal holds a `%` or equals a name) the regex the source builds is exactly the corrected compilation's regex |
| LogManipulator.BreakAt | log_manipulator.py:81 | the first line ends at the first line break, or at the end of the text |
| LogManipulator.SplitLines | log_manipulator.py:81 | no line of `splitlines` holds a line break |
| LogManipulator.SplitLinesCons | log_manipulator.py:81 | a line followed by `\n` is the first element and the rest is split the same way |
| LogManipulator.FirstMatchDecides | log_manipulator.py:85-95 | the first rule whose `get_variables` is not None decides the line; later rules are not tried |
| LogManipulator.NoMatchNoAttack | log_manipulator.py:85-87 | a line no rule matches yields nothing |
| LogManipulator.AdmitResult | log_manipulator.py:88-94 | a match is kept exactly when it is not older than `now - max_age` and it has `IP`; the kept map is the match without `IP`, filed under that address |
| LogManipulator.LineAttackErrors | log_manipulator.py:85-95 | a line raises only a date error, a blank-capture error or a missing `IP` |
| LogManipulator.CollectErrors | log_manipulator.py:84-95 | the loop over lines raises only what a line raises |
| LogManipulator.CollectErrorSticks | log_manipulator.py:84-95 | the first exception ends the loop: later lines change nothing |
| LogManipulator.AttacksOfSnoc | log_manipulator.py:90-94 | one more line appends at most its own attack to its address's list |
| LogManipulator.CollectPerAddress | log_manipulator.py:90-94 | the result's addresses are exactly those with some kept line, and each maps to its attacks in line order |
| LogManipulator.MatchLine | log_manipulator.py:85-95 | the rule loop computes `LineAttack` |
| LogManipulator.CollectAttacks | log_manipulator.py:84-95 | the line loop computes `Collect` |
| LogManipulator.WindowCount | log_manipulator.py:127-131 | the forward window never counts more attacks than the list has |
| LogManipulator.WindowCountPrefix | log_manipulator.py:128-131 | counting over a prefix never gives more |
| LogManipulator.WindowCountAll | log_manipulator.py:127-131 | when every attack is within the window of `t`, all are counted |
| LogManipulator.CountInWindow | log_manipulator.py:127-133 | the inner loop with its early break yields the window count capped at `min_attack_attempts + 1` |
| LogManipulator.EarlyStopKeepsVerdict | log_manipulator.py:132-134 | the cap never changes whether the count reaches `min_attack_attempts` |
| LogManipulator.IsHabitual | log_manipulator.py:126-135 | an address is flagged exactly when some attack's forward window holds at least `min_attack_attempts` attacks |
| LogManipulator.FindOffenders | log_manipulator.py:123-137 | the nested loops compute `Offenders` |
| LogManipulator.OffendersFacts | log_manipulator.py:125-135 | offenders are a subset of the input, keep their full list, and a list that fits in one window and is long enough is flagged |
| LogManipulator.StartOf | log_manipulator.py:55-71 | the read starts within the file, and the fingerprint is untouched until the read |
| LogManipulator.ReadFromFacts | log_manipulator.py:73-109 | after the read the fingerprint covers the last `min(256, len(new_content))` characters of the file. On an exception the size, mtime and cache stay as they were. On success the size and mtime are the file's, and the result and the new cache are the fresh attacks merged with the cache |
| LogManipulator.ScanUnchangedFile | log_manipulator.py:49-51 | the same size and mtime return `{}` and leave the cursor as it is |
| LogManipulator.ScanMissingFile | log_manipulator.py:46-47 | a missing file raises and the cursor is unchanged |
| LogManipulator.ScanRescan | log_manipulator.py:55-71 | a smaller file, the same size with a new mtime, or a tail that no longer matches the fingerprint: the result is exactly what the whole file's lines yield |
| LogManipulator.ScanAppended | log_manipulator.py:73-107 | otherwise only the appended text is read. The result's addresses are the fresh ones and the cached ones, and a cached address keeps its cached list |
| LogManipulator.ScanFingerprint | log_manipulator.py:76-98 | after a read the fingerprint covers the file's last `min(256, read)` characters. Success records the size and mtime and sets the cache to the result. A line error keeps the start size |
| LogManipulator.ScanErrors | log_manipulator.py:46-95 | `parse_attacks` raises only on a missing file, a seek before the start, or a line exception |
| LogManipulator.ScanConsistent | log_manipulator.py:65-71 | from a cursor whose fingerprint lies inside the text read, the seek never fails, and success keeps that so |
| LogManipulator.ScanStuckAfterLineError | log_manipulator.py:68-98 | after a line exception on a read from the start, the size stays 0 with a non-empty fingerprint, and every later call on a non-empty file raises ValueError from the seek |
| LogManipulator.LogParser.constructor | log_manipulator.py:17-36 | compiles every template with the service name and starts from the rescanned cursor (size 0, no mtime, no fingerprint, empty cache) |
| LogManipulator.LogParser.ForceRescan | log_manipulator.py:139-151 | size 0, no mtime and an empty cache; the fingerprint is kept |
| LogManipulator.LogParser.ParseAttacks | log_manipulator.py:38-109 | the new cursor and the result are `Scan` of the old cursor and the file |
| LogManipulator.LogParser.ResetIfStale | log_manipulator.py:55-71 | seek raises exactly when the fingerprint is checked and is longer than the recorded size. Then nothing changes; otherwise the cursor is reset or kept as `StartOf` says |
| LogManipulator.LogParser.ReadAppended | log_manipulator.py:73-109 | reads from the cursor and updates it as `ReadFrom` says |
| LogManipulator.LogParser.GetHabitualOffenders | log_manipulator.py:111-137 | with given attacks the cursor is untouched and the result is their offenders; otherwise it parses first and passes on its exception |
| LegacyGuardian.RemoveWhitespacesLoop | guardian.py:6-11 | the two loops compute `RemoveWhitespaces`, with None for the IndexError |
| LegacyGuardian.RemoveWhitespacesSlice | guardian.py:6-11 | fails exactly on a blank string; otherwise returns a contiguous slice with non-whitespace ends and only whitespace cut |
| LegacyGuardian.RemoveWhitespacesIdempotent | guardian.py:6-11 | trimming the result again changes nothing |
| LegacyGuardian.LegacyLogParser.constructor | guardian.py:15-17 | every template is compiled, in order, by the legacy class with the service name |
| LegacyGuardian.LegacyLogParser.ParseAttacks | guardian.py:19-36 | a missing file raises; otherwise the result is `Collect` over the whole file's lines, so equal content and clock give equal results |
| LegacyGuardian.LegacyLogParser.GetHabitualOffenders | guardian.py:38-54 | always parses again, then returns the offenders of what it parsed, or the parse's exception |
| LegacyGuardian.LegacyLineErrors | guardian.py:23-34 | with legacy-compiled rules, a line raises only on a blank capture, a bad date or a missing `IP` |
| SimpleGuardian.Step | simple-guardian.py:199 | each sleep is `min(1, remaining)`: positive and at most both |
| SimpleGuardian.ChunksShape | simple-guardian.py:198-201 | the sleeps add up to the requested time (0 when it is not positive); every one is in (0, 1], and all but the last are exactly 1 |
| SimpleGuardian.AppRunning.constructor | simple-guardian.py:159 | the flag list starts as `[True]`, so the app is running |
| SimpleGuardian.AppRunning.SetRunning | simple-guardian.py:170-179 | True appends to the flag list and False clears it; afterwards `is_running` equals the argument |
| SimpleGuardian.AppRunning.SleepWhileRunning | simple-guardian.py:192-201 | sleeps the chunks in order while the flag holds; a stop after `k` chunks leaves exactly the first `k` slept |
| SimpleGuardian.Database.constructor | simple-guardian.py:85-95 | empty ban and attack tables, no commits |
| SimpleGuardian.Database.Commit | simple-guardian.py:143-152 | only the commit count changes |
| SimpleGuardian.BanCountPositiveIff | simple-guardian.py:225 | `COUNT(*) != 0` exactly when the address has a ban row |
| SimpleGuardian.WithoutFacts | simple-guardian.py:265 | the DELETE removes exactly the rows of that address |
| SimpleGuardian.IPBlocker.constructor | simple-guardian.py:204-208 | no blocker calls yet |
| SimpleGuardian.IPBlocker.ListBlockedIps | simple-guardian.py:211-216 | the set of addresses that have a ban row |
| SimpleGuardian.IPBlocker.IpIsBlocked | simple-guardian.py:219-225 | holds exactly when the address has a ban row |
| SimpleGuardian.IPBlocker.Block | simple-guardian.py:237-252 | with `use_db` and an existing ban: False, no call and no change. Otherwise one block call, one ban row iff `use_db` (whatever the blocker returns), and a commit iff both flags are set |
| SimpleGuardian.IPBlocker.Unblock | simple-guardian.py:255-268 | no ban: False, no call and no change. Otherwise one unblock call, every row of the address deleted, and a commit iff asked |
| SimpleGuardian.IPBlocker.BlockAllBanned | simple-guardian.py:228-234 | one block call per banned address, each once, and the store unchanged |
| SimpleGuardian.Unbanned | simple-guardian.py:245-246 | the addresses `block` lets through when it asks the ban table first: exactly those not already banned |
| SimpleGuardian.UnbannedDistinct | simple-guardian.py:324-325 | filtering distinct addresses keeps them distinct, so no address is banned twice in one pass |
| SimpleGuardian.BannedIpsAfter | simple-guardian.py:249 | after ban rows for some addresses are appended, the banned addresses are the old ones and those |
| SimpleGuardian.NextFree | simple-guardian.py:305-306 | the first value at or after the timestamp that is not yet taken |
| SimpleGuardian.FirstFree | simple-guardian.py:305-306 | the increment loop computes `NextFree` |
| SimpleGuardian.StampListFacts | simple-guardian.py:303-307 | de-duplicating one address's attacks keeps their data and order, never lowers a timestamp, records the new ones after the known ones, and keeps all recorded timestamps distinct |
| SimpleGuardian.StampAllFacts | simple-guardian.py:300-308 | over all addresses of a profile, every processed timestamp is at least its original value and all are pairwise distinct; data, list lengths and the unprocessed addresses are unchanged |
| SimpleGuardian.InsertListFresh | simple-guardian.py:312-317 | rows are only appended; each new row belongs to the address and profile and had no (ip, time, profile) duplicate before it |
| SimpleGuardian.InsertListCovers | simple-guardian.py:312-317 | afterwards every processed attack has its row |
| SimpleGuardian.InsertAllPrefix | simple-guardian.py:302-318 | a cycle only appends attack rows |
| SimpleGuardian.InsertAllCovers | simple-guardian.py:302-318 | afterwards every attack of every processed address has its row |
| SimpleGuardian.InsertAllFresh | simple-guardian.py:302-318 | every appended row was absent before it was inserted |
| SimpleGuardian.ListKeys | simple-guardian.py:302 | the iteration order lists each key of the dictionary exactly once |
| SimpleGuardian.ThreadScanner.constructor | simple-guardian.py:271-275 | the scanner works through the given blocker |
| SimpleGuardian.ThreadScanner.HasAttack | simple-guardian.py:312-313 | the COUNT query is non-zero exactly when an (ip, time, profile) row exists |
| SimpleGuardian.ThreadScanner.StampOne | simple-guardian.py:305-317 | one attack gets the next free timestamp, which is then recorded; its row is inserted exactly when absent; bans and commits are untouched |
| SimpleGuardian.ThreadScanner.StampAddress | simple-guardian.py:303-318 | one address's loop computes `StampList` and `InsertList`; it reports an insert exactly when the table grew |
| SimpleGuardian.ThreadScanner.StampAndStore | simple-guardian.py:300-318 | all addresses, in dictionary order: `StampAll` and `InsertAll`; an insert is reported exactly when the table grew |
| SimpleGuardian.ThreadScanner.BlockNext | simple-guardian.py:324-327 | one offender: blocked and banned, with one call and one row stamped `now`, exactly when the rows the pass started from do not list it |
| SimpleGuardian.ThreadScanner.BlockOffenders | simple-guardian.py:324-327 | the offenders not banned before are called and banned once each, in dict order, and no others; no attack row and no commit |
| SimpleGuardian.ThreadScanner.StoreAndBlock | simple-guardian.py:300-327 | the attacks are stamped (`StampAll`) and stored (`InsertAll`) in dict order; the offenders of the stamped attacks not banned before get one block call and one ban row each, so afterwards every offender is banned; nothing is committed, and the result says whether a row was added |
| SimpleGuardian.ThreadScanner.ScanProfile | simple-guardian.py:293-327 | one profile. The parser moves as `Scan` says. An exception changes no table and makes no call. Otherwise the attacks `Scan` returns are stored and their offenders blocked as `StoreAndBlock` states, nothing is committed, and the result says whether a row was added |
| SimpleGuardian.ThreadScanner.Cycle | simple-guardian.py:279-329 | all profiles: a missing file is skipped and any other exception ends the cycle without a commit. After a full pass there is exactly one commit iff an attack or ban row was added |
| SimpleGuardian.LoadedKeys | simple-guardian.py:445-458 | the loaded profiles are exactly those of the files that decode |
| SimpleGuardian.LastSettingLoaded | simple-guardian.py:455-458 | a profile some decoded file sets is loaded |
| SimpleGuardian.LoadedValue | simple-guardian.py:455-458 | a key's value comes from the last file that sets it, else from the defaults, and is absent otherwise |
| SimpleGuardian.MergeKeysIsMergeFile | simple-guardian.py:455-458 | merging a file profile by profile in its iteration order gives the order-free merge |
| SimpleGuardian.ProfileStore.constructor | simple-guardian.py:441 | no profiles |
| SimpleGuardian.ProfileStore.MergeKeysInto | simple-guardian.py:455-458 | the per-profile loop computes `MergeKeys`: a new profile starts from the defaults, then the file's keys override |
| SimpleGuardian.ProfileStore.MergeFileInto | simple-guardian.py:455-458 | merging one decoded file computes `MergeFile` |
| SimpleGuardian.ProfileStore.LoadProfiles | simple-guardian.py:434-459 | profiles are cleared; without the directory none are loaded, otherwise every decodable file is merged in order |
| WebApi.Digits | simple-guardian.py:409 | `str` of a natural number is a non-empty string of decimal digits |
| WebApi.DigitsRoundTrip | simple-guardian.py:409 | the digits read back as the number |
| WebApi.IntToStringRoundTrip | simple-guardian.py:409 | `str(max_limit)` reads back as `max_limit`, negative numbers included |
| WebApi.NegativeRoundTrip | simple-guardian.py:409 | a minus sign followed by the digits reads back as the negative number |
| WebApi.ListQueryPlaceholders | simple-guardian.py:404-410 | the statement has a `?` exactly when `before` is given, only in `WHERE id < ?`, and the parameters are `(before,)` or empty |
| WebApi.ListQueryHead | simple-guardian.py:404 | the statement reads all columns of the table |
| WebApi.ListQueryLimit | simple-guardian.py:407-409 | without `max_limit` it ends with `ORDER BY id DESC`; with it, the ordered select is followed by ` LIMIT ` and a number that reads back as `max_limit` |
| WebApi.RowObjectOk | simple-guardian.py:140 | a row becomes an object exactly when it has no more values than the table has columns; otherwise it raises IndexError |
| WebApi.RowObjectKeys | simple-guardian.py:140 | the object's keys are the first columns, one per value |
| WebApi.RowObjectValues | simple-guardian.py:140 | each column holds its value; a repeated column name keeps the last |
| WebApi.RowsToObjectsFacts | simple-guardian.py:138-140 | all rows convert exactly when each does, and then one object per row, in order |
| WebApi.AttachAttackCounts | simple-guardian.py:428-430 | every ban object gets `attacksCount`, the number of attack rows of its address; an object without `ip` raises KeyError |
| OldConfig.EqualsAt | parse_old_config.py:34 | `split('=', 1)` cuts at the first `=`; there is none exactly when it returns None |
| OldConfig.Step | parse_old_config.py:16-41 | one line keeps the invariant: the current profile exists and every profile has `filters` |
| OldConfig.RunFrom | parse_old_config.py:15-41 | the loop keeps that invariant |
| OldConfig.ConfigOldParse | parse_old_config.py:13-42 | the loop over the lines computes `Converted` |
| OldConfig.ErrorSticks | parse_old_config.py:15-41 | the first exception ends the conversion; later lines change nothing |
| OldConfig.SkippedLineIgnored | parse_old_config.py:16-17 | removing an empty line or a comment anywhere changes nothing |
| OldConfig.SectionLineOpens | parse_old_config.py:18-20 | a `--…--` line opens its section and changes nothing else |
| OldConfig.OutsideProfilesIgnored | parse_old_config.py:21 | outside `--PROFILES--`, and until it is opened, lines change neither the current profile nor the profiles |
| OldConfig.NoHeaderNoProfile | parse_old_config.py:27-28 | before any `[name]` line, no line creates or changes a profile |
| OldConfig.HeaderStartsProfile | parse_old_config.py:22-26 | `[name]` (re)creates the profile as `{filters: []}` and makes it current; other profiles are kept |
| OldConfig.FilterLineAppends | parse_old_config.py:29-31 | a `>>` line appends its text to the current profile's filters and changes nothing else |
| OldConfig.FiltersInFileOrder | parse_old_config.py:29-31 | consecutive `>>` lines append their texts in file order |
| OldConfig.PropertyLineSets | parse_old_config.py:32-40 | a line without `=` changes nothing. Otherwise the key is the text before the first `=` (LogFile renamed logFile), and the value is an int when `int()` accepts it, else the text |
| OldConfig.StoredName | parse_old_config.py:34-36 | a stored key is never `LogFile` and holds no `=` |
| OldConfig.StepKeys | parse_old_config.py:16-41 | one line keeps every stored key free of `LogFile` and `=` |
| OldConfig.KeysWellFormed | parse_old_config.py:15-41 | so does the loop |
| OldConfig.ConvertedProfiles | parse_old_config.py:24-25 | every converted profile has `filters` and no `LogFile` key |
| OldConfig.StepErrors | parse_old_config.py:29-30 | a line raises only AttributeError, from appending to a replaced `filters`; a line that does not assign `filters` keeps every filter entry a list |
| OldConfig.ConversionErrors | parse_old_config.py:29-41 | the conversion raises only that AttributeError, and succeeds when no line assigns `filters` |

## Left out

- Threads, locks and queues (the `Database` thread, `PROFILES_LOCK`, the cache-file lock) are left out. Each SQL statement is one atomic step on two tables of rows.
- SQL execution is not modelled. The listing queries are modelled as text; the rows they return are an input to `RowsToObjects`.
- The regex engine is not modelled. Matching is the split search `Search`/`Matches`, which covers the patterns compilation builds (literal text, `(.+?)`, one final `(.+)`).
- `datetime.strptime`/`mktime`, `time.time()` and the year and date strings are the fields of `Clock`. `parseDate` stands for `strptime` and returns None for a ValueError.
- `LogManipulator.Collect`: the clock is frozen for one scan. The source calls `time.time()` and `datetime.now()` again for every line (log_manipulator.py:88, 213-221), so a scan that crosses a second or a year boundary can see two clocks; the model uses one `Clock` per scan.
- `SimpleGuardian.ThreadScanner.Cycle`: every ban of one cycle is stamped with the same `now`. The source calls `time.time()` once per ban (simple-guardian.py:249).
- `SimpleGuardian.AppRunning.SleepWhileRunning`: another thread clearing the running flag is modelled by the method clearing it itself once `stopAfter` chunks have been slept. A clear at or after the last chunk is not observed: the result and the flags read as if no stop had come.
- `Rules.Compile`: the rule parsers use the corrected pattern, so on a template outside `Rules.Ordinary` they do not reproduce the source's behaviour (a missing group and the resulting IndexError, or a group swallowed by a straddling token; see Findings). On ordinary templates the two agree (`Rules.AsWrittenAgrees`).
- `md5` is the uninterpreted `digest` of each parser. `getsize` is the length of the file text.
- Byte offsets versus character offsets in the text-mode `seek` are not modelled: the file is a string and its size is its length.
- The JSON round trip of the cache file is an in-memory map.
- Timestamps are integers (the source's floats): `+= 1` on a float and on an integer behave the same here.
- Dictionary iteration order is arbitrary in the model. Where it matters (stamping addresses, blocking offenders, merging a file's profiles), it is an `order` sequence that lists each key once.
- `SimpleGuardian.ThreadScanner.Cycle`: which rows and calls each profile adds is stated by `ScanProfile`, profile by profile. The cycle's own contract covers errors, the append-only tables and the commit, and says nothing about the parsers' states or the rows of each profile.
- `SimpleGuardian.ThreadScanner.Cycle`: the lazy creation of a profile's parser (simple-guardian.py:286-291) is left out. The cycle receives one parser per profile.
- `SimpleGuardian.ThreadScanner.Cycle`: the sleep between cycles and the `while AppRunning.is_running()` loop around it are left out; the sleep is `SleepWhileRunning`.
- A `LogParser` built from `Rule` objects rather than template strings (`rule if type(rule) == Rule`) is not modelled. Only templates are compiled.
- The blocker executable's exit status is not modelled. The source ignores it too.
- `subprocess.run` itself is not modelled; the blocker is a log of calls.
- Decoding of a profile file (`json.load`) is the `decoded` field: None for a JSON syntax error, which `load_profiles` catches and skips. A text-decoding error (`UnicodeDecodeError`), which the source does not catch and which leaves `PROFILES_LOCK` held, is not modelled. A non-`.json` file is skipped by name and never decoded. A decoded value that is not an object of objects is not modelled.
- In `parse_old_config.py`, the existence check, `exit(1)` and the file read (lines 8-12) are not modelled. The input is the list of lines.
- In `parse_old_config.py`, the `__main__` JSON dump is not modelled.
- `OldConfig.PropertyValue`: Python's `int()` (signs, whitespace, underscores) is the parameter `parseInt`.
- `WebApi.ListQueryPlaceholders` requires a table name without `?`. Both callers pass the constants `attacks` and `bans`.
- The restart runner, the HTTP client and its handlers, the updater, the command line, install and packaging scripts, and blocker.c are not part of this model.

## Findings

| source | as written | input that shows it | evidently intended | confidence | as-written member | corrected member |
|---|---|---|---|---|---|---|
| log_manipulator.py:172-175 | reserved characters are escaped in the whole template before placeholders are replaced, so a placeholder whose name holds one (`%a.b%`) is escaped and never found; the regex has no group while `get_variables` reads group 1 | template `%a.b%` (same code at guardian.py:64-67) | each placeholder becomes a group whatever its name | not executed | Rules.EscapedPlaceholderNeverReplaced | Rules.Compile |
| guardian.py:66-67 | each token is replaced everywhere with `str.replace`, so a token can match across two placeholders and eat their `%` signs | template `%b%%x%b%y%` gives `(.+?)%x(.+?)y%`: two groups for three variables (same code at log_manipulator.py:174-175) | each placeholder findall found becomes its own group | not executed | Rules.StraddlingPlaceholderReplaced | Rules.Compile |
