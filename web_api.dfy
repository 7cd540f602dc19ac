/*
 * The web interface's listing endpoints (simple-guardian.py:396-431) and the
 * row-to-object mapping they use (Database.json, simple-guardian.py:129-140): the SQL
 * text each builds, how a result row becomes a JSON object, and the attack counts
 * list_bans attaches to each ban.
 */
module WebApi {
  import opened Wrappers
  import opened Rules
  import opened SimpleGuardian

  // ---------------------------------------------------------------------------
  // list_attacks and list_bans (simple-guardian.py:396-431)
  // ---------------------------------------------------------------------------

  /** The decimal digits of `n`. */
  function Digits(n: nat): (s: string)
    ensures |s| > 0 && forall k :: 0 <= k < |s| ==> '0' <= s[k] <= '9'
  {
    if n < 10 then [(n as char + '0' as char) as char]
    else Digits(n / 10) + [((n % 10) as char + '0' as char) as char]
  }

  /** str() of an integer. */
  function IntToString(n: int): string {
    if n < 0 then "-" + Digits(-n) else Digits(n)
  }

  /** The number a string of decimal digits denotes. */
  function DigitsValue(s: string): nat
    requires forall k :: 0 <= k < |s| ==> '0' <= s[k] <= '9'
  {
    if s == [] then 0 else DigitsValue(s[..|s| - 1]) * 10 + (s[|s| - 1] as int - '0' as int)
  }

  /** int() of a string in the form str() writes. */
  function ParseInt(s: string): Option<int> {
    if |s| > 1 && s[0] == '-' && (forall k :: 1 <= k < |s| ==> '0' <= s[k] <= '9') then
      var v: int := DigitsValue(s[1..]); Some(-v)
    else if s != [] && forall k :: 0 <= k < |s| ==> '0' <= s[k] <= '9' then Some(DigitsValue(s))
    else None
  }

  lemma {:induction false} DigitsRoundTrip(n: nat)
    ensures DigitsValue(Digits(n)) == n
  {
    if n >= 10 {
      DigitsRoundTrip(n / 10);
      var s := Digits(n);
      assert s[..|s| - 1] == Digits(n / 10);
    }
  }

  /** str() and int() are inverse on integers. */
  lemma IntToStringRoundTrip(n: int)
    ensures ParseInt(IntToString(n)) == Some(n)
  {
    if n < 0 {
      NegativeRoundTrip(-n);
    } else {
      var d := Digits(n);
      DigitsRoundTrip(n);
      assert d[0] != '-';
    }
  }

  lemma NegativeRoundTrip(m: int)
    requires m > 0
    ensures ParseInt("-" + Digits(m)) == Some(-m)
  {
    var d := Digits(m);
    DigitsRoundTrip(m);
    var s := "-" + d;
    assert s[1..] == d;
    assert forall k :: 1 <= k < |s| ==> s[k] == d[k - 1];
  }

  /** An SQL statement and the values bound to its `?` placeholders. */
  datatype Query = Query(sql: string, params: seq<int>)

  /** The statement before any LIMIT. */
  function OrderedSelect(table: string, before: Option<int>): string {
    "SELECT * FROM " + table + (if before.Some? then " WHERE id < ?" else "") + " ORDER BY id DESC"
  }

  /** The SELECT that list_attacks and list_bans build for `table`. */
  function ListQuery(table: string, before: Option<int>, maxLimit: Option<int>): Query {
    var sql := OrderedSelect(table, before);
    Query(if maxLimit.Some? then sql + " LIMIT " + IntToString(maxLimit.value) else sql,
          if before.Some? then [before.value] else [])
  }

  /** list_attacks' query (simple-guardian.py:404-410). */
  function ListAttacksQuery(before: Option<int>, maxLimit: Option<int>): Query {
    ListQuery("attacks", before, maxLimit)
  }

  /** list_bans' query (simple-guardian.py:421-427). */
  function ListBansQuery(before: Option<int>, maxLimit: Option<int>): Query {
    ListQuery("bans", before, maxLimit)
  }

  /** Where the id bound's `?` stands in the statement for `table`. */
  function BoundPosition(table: string): nat {
    |"SELECT * FROM "| + |table| + |" WHERE id < "|
  }

  /** The statement has a `?` placeholder exactly when `before` is given, and then only
      one, in the WHERE clause, bound to the one parameter `before`. */
  lemma ListQueryPlaceholders(table: string, before: Option<int>, maxLimit: Option<int>)
    requires '?' !in table
    ensures var q := ListQuery(table, before, maxLimit);
      (forall k :: 0 <= k < |q.sql| && q.sql[k] == '?' ==> before.Some? && k == BoundPosition(table)) &&
      (before.Some? ==> BoundPosition(table) < |q.sql| && q.sql[BoundPosition(table)] == '?') &&
      q.params == (if before.Some? then [before.value] else [])
  {
    var sql := OrderedSelect(table, before);
    assert forall k :: 0 <= k < |sql| && sql[k] == '?' ==> before.Some? && k == BoundPosition(table);
    if maxLimit.Some? {
      var digits := IntToString(maxLimit.value);
      var q := sql + " LIMIT " + digits;
      assert forall k :: 0 <= k < |digits| ==> digits[k] != '?';
      assert forall k :: |sql| <= k < |q| ==> q[k] != '?' by {
        forall k | |sql| <= k < |q| ensures q[k] != '?' {
          if k < |sql| + 7 {
            assert q[k] == " LIMIT "[k - |sql|];
          } else {
            assert q[k] == digits[k - |sql| - 7];
          }
        }
      }
      assert forall k :: 0 <= k < |sql| ==> q[k] == sql[k];
    }
  }

  /** The statement reads all columns of `table`. */
  lemma ListQueryHead(table: string, before: Option<int>, maxLimit: Option<int>)
    ensures var q := ListQuery(table, before, maxLimit);
      var head := "SELECT * FROM " + table;
      |head| <= |q.sql| && q.sql[..|head|] == head
  {
    var head := "SELECT * FROM " + table;
    var sql := OrderedSelect(table, before);
    assert sql[..|head|] == head;
    if maxLimit.Some? {
      var rest := " LIMIT " + IntToString(maxLimit.value);
      assert (sql + rest)[..|head|] == sql[..|head|];
    }
  }

  /** Without `maxLimit` the statement ends with the descending-id ordering; with it, the
      ordered select goes on with a LIMIT whose number reads back as `maxLimit`. */
  lemma ListQueryLimit(table: string, before: Option<int>, maxLimit: Option<int>)
    ensures var q := ListQuery(table, before, maxLimit);
      (maxLimit.None? ==> EndsWith(q.sql, " ORDER BY id DESC")) &&
      (maxLimit.Some? ==>
        var base := OrderedSelect(table, before) + " LIMIT ";
        |base| <= |q.sql| && q.sql[..|base|] == base && ParseInt(q.sql[|base|..]) == maxLimit)
  {
    var sql := OrderedSelect(table, before);
    if maxLimit.Some? {
      var base := sql + " LIMIT ";
      var digits := IntToString(maxLimit.value);
      IntToStringRoundTrip(maxLimit.value);
      assert (base + digits)[..|base|] == base && (base + digits)[|base|..] == digits;
    } else {
      assert sql[|sql| - |" ORDER BY id DESC"|..] == " ORDER BY id DESC";
    }
  }

  // ---------------------------------------------------------------------------
  // Database.json (simple-guardian.py:129-140)
  // ---------------------------------------------------------------------------

  /** A value SQLite returns. */
  datatype SqlValue = SInt(i: int) | SText(t: string) | SNull

  /** {columns[i]: value for i, value in enumerate(record)}: the i-th value under the i-th
      column name, later columns overwriting earlier ones of the same name. */
  function RowObject(columns: seq<string>, record: seq<SqlValue>): Result<map<string, SqlValue>>
    decreases |record|
  {
    if record == [] then Ok(map[])
    else
      var n := |record| - 1;
      match RowObject(columns, record[..n])
      case Err(e) => Err(e)
      case Ok(m) => if n >= |columns| then Err(ColumnIndexError) else Ok(m[columns[n] := record[n]])
  }

  /** Column `j` is the last of its name among the first `n`. */
  predicate LastColumn(columns: seq<string>, n: nat, j: nat) {
    j < |columns| && forall k :: j < k < n && k < |columns| ==> columns[k] != columns[j]
  }

  /** A row maps to an object exactly when it is no wider than the column list. */
  lemma {:induction false} RowObjectOk(columns: seq<string>, record: seq<SqlValue>)
    ensures RowObject(columns, record).Ok? <==> |record| <= |columns|
    ensures RowObject(columns, record).Err? ==> RowObject(columns, record).error == ColumnIndexError
    decreases |record|
  {
    if record != [] {
      RowObjectOk(columns, record[..|record| - 1]);
    }
  }

  /** The object has exactly the names of the row's columns. */
  lemma {:induction false} RowObjectKeys(columns: seq<string>, record: seq<SqlValue>)
    requires |record| <= |columns|
    ensures RowObject(columns, record).Ok?
    ensures forall x :: x in RowObject(columns, record).value <==> x in columns[..|record|]
    decreases |record|
  {
    RowObjectOk(columns, record);
    if record != [] {
      var n := |record| - 1;
      RowObjectKeys(columns, record[..n]);
      assert columns[..|record|] == columns[..n] + [columns[n]];
    }
  }

  /** Each name holds the value of the last column that has it. */
  lemma {:induction false} RowObjectValues(columns: seq<string>, record: seq<SqlValue>, j: nat)
    requires |record| <= |columns|
    requires j < |record| && LastColumn(columns, |record|, j)
    ensures RowObject(columns, record).Ok?
    ensures columns[j] in RowObject(columns, record).value
    ensures RowObject(columns, record).value[columns[j]] == record[j]
    decreases |record|
  {
    RowObjectOk(columns, record);
    var n := |record| - 1;
    if j < n {
      assert LastColumn(columns, n, j);
      RowObjectValues(columns, record[..n], j);
      assert record[..n][j] == record[j];
      assert columns[n] != columns[j];
    }
  }

  /** Database.json: every record as an object, in order; the first record wider than the
      column list raises. */
  function RowsToObjects(columns: seq<string>, records: seq<seq<SqlValue>>): Result<seq<map<string, SqlValue>>>
    decreases |records|
  {
    if records == [] then Ok([])
    else
      match RowObject(columns, records[0])
      case Err(e) => Err(e)
      case Ok(o) =>
        match RowsToObjects(columns, records[1..])
        case Err(e) => Err(e)
        case Ok(rest) => Ok([o] + rest)
  }

  lemma {:induction false} RowsToObjectsFacts(columns: seq<string>, records: seq<seq<SqlValue>>)
    ensures RowsToObjects(columns, records).Ok? <==> forall i :: 0 <= i < |records| ==> |records[i]| <= |columns|
    ensures RowsToObjects(columns, records).Ok? ==>
      |RowsToObjects(columns, records).value| == |records| &&
      forall i :: 0 <= i < |records| ==> Ok(RowsToObjects(columns, records).value[i]) == RowObject(columns, records[i])
    decreases |records|
  {
    if records != [] {
      RowsToObjectsFacts(columns, records[1..]);
      RowObjectOk(columns, records[0]);
      forall i | 0 <= i < |records| - 1 ensures records[1..][i] == records[i + 1] {
      }
      if RowsToObjects(columns, records).Ok? {
        forall i | 0 <= i < |records| ensures Ok(RowsToObjects(columns, records).value[i]) == RowObject(columns, records[i]) {
          if i > 0 {
            assert records[1..][i - 1] == records[i];
          }
        }
      }
    }
  }

  /** SELECT COUNT(*) FROM attacks WHERE ip = ? */
  function AttackCount(rows: seq<AttackRow>, ip: SqlValue): nat {
    if rows == [] then 0
    else AttackCount(rows[..|rows| - 1], ip) + (if SText(rows[|rows| - 1].ip) == ip then 1 else 0)
  }

  /** The loop of list_bans (simple-guardian.py:428-430): every ban object gets the number
      of attack rows of its address under `attacksCount`; an object without `ip` raises. */
  method AttachAttackCounts(db: Database, bans: seq<map<string, SqlValue>>) returns (r: Result<seq<map<string, SqlValue>>>)
    ensures r.Err? <==> exists i :: 0 <= i < |bans| && "ip" !in bans[i]
    ensures r.Err? ==> r.error == KeyError("ip")
    ensures r.Ok? ==> (|r.value| == |bans| &&
      forall i :: 0 <= i < |bans| ==> r.value[i] == bans[i]["attacksCount" := SInt(AttackCount(db.attacks, bans[i]["ip"]))])
  {
    var out := bans;
    for i := 0 to |bans|
      invariant |out| == |bans|
      invariant forall k :: 0 <= k < i ==> "ip" in bans[k] && out[k] == bans[k]["attacksCount" := SInt(AttackCount(db.attacks, bans[k]["ip"]))]
      invariant forall k :: i <= k < |bans| ==> out[k] == bans[k]
    {
      if "ip" !in out[i] {
        return Err(KeyError("ip"));
      }
      var count := 0;
      for j := 0 to |db.attacks|
        invariant count == AttackCount(db.attacks[..j], out[i]["ip"])
      {
        assert db.attacks[..j + 1][..j] == db.attacks[..j];
        if SText(db.attacks[j].ip) == out[i]["ip"] {
          count := count + 1;
        }
      }
      assert db.attacks[..|db.attacks|] == db.attacks;
      out := out[i := out[i]["attacksCount" := SInt(count)]];
    }
    r := Ok(out);
  }
}
