/*
 * The daemon's bookkeeping (simple-guardian.py): the running flag and its interruptible
 * sleep, the ban table and the external blocker, one scanning cycle and the loading of
 * profiles.
 *
 * The SQLite store is two tables of rows plus a count of commits; each statement is one
 * atomic step. The blocker executable is a log of the calls made to it. Clocks are
 * parameters.
 */
module SimpleGuardian {
  import opened Wrappers
  import opened Rules
  import opened LogManipulator

  // ---------------------------------------------------------------------------
  // AppRunning (simple-guardian.py:155-201)
  // ---------------------------------------------------------------------------

  /** One step of the interruptible sleep: a second, or what is left when less. */
  function Step(seconds: real): (d: real)
    ensures seconds > 0.0 ==> 0.0 < d <= 1.0 && d <= seconds
  {
    if seconds < 1.0 then seconds else 1.0
  }

  /** The sleeps sleep_while_running makes when nothing clears the flag. */
  function Chunks(seconds: real): seq<real>
    decreases if seconds <= 0.0 then 0 else seconds.Floor + 1
  {
    if seconds <= 0.0 then [] else [Step(seconds)] + Chunks(seconds - Step(seconds))
  }

  function Sum(s: seq<real>): real {
    if s == [] then 0.0 else s[0] + Sum(s[1..])
  }

  /** The sleeps add up to the time asked for; each lasts at most a second and all but the
      last last exactly one. */
  lemma {:induction false} ChunksShape(seconds: real)
    ensures Sum(Chunks(seconds)) == if seconds <= 0.0 then 0.0 else seconds
    ensures forall k :: 0 <= k < |Chunks(seconds)| ==> 0.0 < Chunks(seconds)[k] <= 1.0
    ensures forall k :: 0 <= k < |Chunks(seconds)| - 1 ==> Chunks(seconds)[k] == 1.0
    decreases if seconds <= 0.0 then 0 else seconds.Floor + 1
  {
    if seconds > 0.0 {
      var rest := seconds - Step(seconds);
      ChunksShape(rest);
      assert Chunks(seconds) == [Step(seconds)] + Chunks(rest);
      assert Chunks(seconds)[1..] == Chunks(rest);
      if seconds >= 1.0 && rest > 0.0 {
        assert Chunks(seconds)[0] == 1.0;
      }
    }
  }

  /** The process-wide running flag: running while the list is non-empty. */
  class AppRunning {
    var flags: seq<bool>

    /** The flag starts raised (simple-guardian.py:159). */
    constructor()
      ensures IsRunning()
    {
      flags := [true];
    }

    /** is_running (simple-guardian.py:162-167). */
    predicate IsRunning()
      reads this
    {
      |flags| > 0
    }

    /** set_running (simple-guardian.py:170-179): True appends to the list, False empties
        it; either way the flag then reads as `val`. */
    method SetRunning(val: bool)
      modifies this
      ensures flags == if val then old(flags) + [true] else []
      ensures IsRunning() == val
    {
      if val {
        flags := flags + [true];
      } else {
        flags := [];
      }
    }

    /** sleep_while_running (simple-guardian.py:192-201): sleeps in steps of at most one
        second until the time is used up or the flag is found cleared. `stopAfter` is when
        another thread clears the flag: after that many sleeps, if any. Returns the sleeps
        made. */
    method SleepWhileRunning(seconds: real, stopAfter: Option<nat>) returns (slept: seq<real>)
      modifies this
      ensures var n := |Chunks(seconds)|;
        var interrupted := old(IsRunning()) && stopAfter.Some? && stopAfter.value < n;
        slept == (if !old(IsRunning()) then [] else if interrupted then Chunks(seconds)[..stopAfter.value] else Chunks(seconds)) &&
        flags == if interrupted then [] else old(flags)
    {
      var remaining := seconds;
      slept := [];
      if IsRunning() && remaining > 0.0 && stopAfter == Some(0) {
        flags := [];
      }
      while IsRunning() && remaining > 0.0
        invariant slept + Chunks(remaining) == Chunks(seconds)
        invariant IsRunning() ==> old(IsRunning()) && flags == old(flags)
        invariant IsRunning() && stopAfter.Some? ==>
          |slept| <= stopAfter.value && (|slept| == stopAfter.value ==> remaining <= 0.0)
        invariant !IsRunning() ==>
          (!old(IsRunning()) && slept == [] && flags == old(flags)) ||
          (old(IsRunning()) && stopAfter == Some(|slept|) && flags == [] && remaining > 0.0)
        decreases if remaining <= 0.0 then 0 else remaining.Floor + 1
      {
        var sleep := Step(remaining);
        ChunksUnfold(remaining);
        assert slept + Chunks(remaining) == (slept + [sleep]) + Chunks(remaining - sleep);
        slept := slept + [sleep];
        remaining := remaining - sleep;
        if stopAfter == Some(|slept|) && remaining > 0.0 {
          flags := [];
        }
      }
      ChunksUnfold(remaining);
      if !IsRunning() && old(IsRunning()) {
        assert slept == Chunks(seconds)[..|slept|];
      }
    }
  }

  lemma ChunksUnfold(r: real)
    ensures r > 0.0 ==> Chunks(r) == [Step(r)] + Chunks(r - Step(r))
    ensures r <= 0.0 <==> Chunks(r) == []
  {
  }

  // ---------------------------------------------------------------------------
  // The store (simple-guardian.py:61-152, tables at 85-95)
  // ---------------------------------------------------------------------------

  /** A row of the `bans` table. */
  datatype BanRow = BanRow(time: int, ip: string)

  /** A row of the `attacks` table; `data` is the stored attack. */
  datatype AttackRow = AttackRow(time: int, ip: string, profile: string, user: Option<string>, data: Attack)

  /** The two tables and the number of commits made. */
  class Database {
    var bans: seq<BanRow>
    var attacks: seq<AttackRow>
    var commits: nat

    constructor()
      ensures bans == [] && attacks == [] && commits == 0
    {
      bans := [];
      attacks := [];
      commits := 0;
    }

    /** Database.commit (simple-guardian.py:143-152). */
    method Commit()
      modifies this
      ensures bans == old(bans) && attacks == old(attacks) && commits == old(commits) + 1
    {
      commits := commits + 1;
    }
  }

  /** The addresses with at least one ban row. */
  function BannedIps(bans: seq<BanRow>): set<string> {
    set r | r in bans :: r.ip
  }

  /** SELECT COUNT(*) FROM bans WHERE ip = ? */
  function BanCount(bans: seq<BanRow>, ip: string): nat {
    if bans == [] then 0
    else BanCount(bans[..|bans| - 1], ip) + (if bans[|bans| - 1].ip == ip then 1 else 0)
  }

  lemma {:induction false} BanCountPositiveIff(bans: seq<BanRow>, ip: string)
    ensures BanCount(bans, ip) != 0 <==> ip in BannedIps(bans)
  {
    if bans != [] {
      var front := bans[..|bans| - 1];
      BanCountPositiveIff(front, ip);
      assert bans == front + [bans[|bans| - 1]];
      assert BannedIps(bans) == BannedIps(front) + {bans[|bans| - 1].ip};
    }
  }

  /** DELETE FROM bans WHERE ip = ? */
  function Without(bans: seq<BanRow>, ip: string): seq<BanRow> {
    if bans == [] then []
    else (if bans[0].ip == ip then [] else [bans[0]]) + Without(bans[1..], ip)
  }

  /** The delete removes every row of the address and keeps every other row. */
  lemma {:induction false} WithoutFacts(bans: seq<BanRow>, ip: string)
    ensures forall r :: r in Without(bans, ip) <==> r in bans && r.ip != ip
    ensures BannedIps(Without(bans, ip)) == BannedIps(bans) - {ip}
  {
    if bans != [] {
      WithoutFacts(bans[1..], ip);
      assert bans == [bans[0]] + bans[1..];
      forall r ensures r in bans <==> r == bans[0] || r in bans[1..] {
      }
    }
  }

  /** A call to the blocker executable. */
  datatype BlockerCall = BlockCall(ip: string) | UnblockCall(ip: string)

  /** IPBlocker (simple-guardian.py:204-268): the ban table and the calls made to the
      blocker executable, whose exit status is never looked at. */
  class IPBlocker {
    const db: Database
    var calls: seq<BlockerCall>

    constructor(db: Database)
      ensures this.db == db && calls == []
    {
      this.db := db;
      calls := [];
    }

    /** list_blocked_ips (simple-guardian.py:211-216). */
    method ListBlockedIps() returns (ips: set<string>)
      ensures forall ip :: ip in ips <==> exists i :: 0 <= i < |db.bans| && db.bans[i].ip == ip
    {
      ips := {};
      for i := 0 to |db.bans|
        invariant forall ip :: ip in ips <==> exists k :: 0 <= k < i && db.bans[k].ip == ip
      {
        ips := ips + {db.bans[i].ip};
      }
    }

    /** ip_is_blocked (simple-guardian.py:219-225): a non-zero count of ban rows. */
    method IpIsBlocked(ip: string) returns (b: bool)
      ensures b <==> ip in BannedIps(db.bans)
    {
      var count := 0;
      for i := 0 to |db.bans|
        invariant count == BanCount(db.bans[..i], ip)
      {
        assert db.bans[..i + 1][..i] == db.bans[..i];
        if db.bans[i].ip == ip {
          count := count + 1;
        }
      }
      assert db.bans[..|db.bans|] == db.bans;
      BanCountPositiveIff(db.bans, ip);
      b := count != 0;
    }

    /** block (simple-guardian.py:237-252): with `useDb`, an address already banned is
        left alone; otherwise the blocker is called once and, with `useDb`, one ban row
        stamped `now` is added, whatever the blocker did. */
    method Block(ip: string, commitDb: bool, useDb: bool, now: int) returns (ok: bool)
      modifies this, db
      ensures db.attacks == old(db.attacks)
      ensures ok <==> !(useDb && ip in BannedIps(old(db.bans)))
      ensures !ok ==> calls == old(calls) && db.bans == old(db.bans) && db.commits == old(db.commits)
      ensures ok ==>
        calls == old(calls) + [BlockCall(ip)] &&
        db.bans == old(db.bans) + (if useDb then [BanRow(now, ip)] else []) &&
        db.commits == old(db.commits) + (if useDb && commitDb then 1 else 0)
    {
      if useDb {
        var blocked := IpIsBlocked(ip);
        if blocked {
          return false;
        }
      }
      calls := calls + [BlockCall(ip)];
      if useDb {
        db.bans := db.bans + [BanRow(now, ip)];
        if commitDb {
          db.Commit();
        }
      }
      ok := true;
    }

    /** unblock (simple-guardian.py:255-268): an address that is not banned is left alone;
        otherwise the blocker is called once and every ban row of the address is
        deleted. */
    method Unblock(ip: string, commitDb: bool) returns (ok: bool)
      modifies this, db
      ensures db.attacks == old(db.attacks)
      ensures ok <==> ip in BannedIps(old(db.bans))
      ensures !ok ==> calls == old(calls) && db.bans == old(db.bans) && db.commits == old(db.commits)
      ensures ok ==>
        calls == old(calls) + [UnblockCall(ip)] &&
        db.bans == Without(old(db.bans), ip) &&
        db.commits == old(db.commits) + (if commitDb then 1 else 0)
    {
      var blocked := IpIsBlocked(ip);
      if !blocked {
        return false;
      }
      calls := calls + [UnblockCall(ip)];
      db.bans := Without(db.bans, ip);
      if commitDb {
        db.Commit();
      }
      ok := true;
    }

    /** block_all_banned (simple-guardian.py:228-234): calls the blocker once for every
        banned address, in the order the set is walked (returned as `order`), without
        touching the store. */
    method BlockAllBanned(now: int) returns (order: seq<string>)
      modifies this, db
      ensures db.bans == old(db.bans) && db.attacks == old(db.attacks) && db.commits == old(db.commits)
      ensures calls == old(calls) + BlockCalls(order)
      ensures forall ip :: ip in order <==> ip in BannedIps(db.bans)
      ensures forall i, j :: 0 <= i < j < |order| ==> order[i] != order[j]
    {
      var ips := ListBlockedIps();
      assert ips == BannedIps(db.bans) by {
        forall ip ensures ip in ips <==> ip in BannedIps(db.bans) {
          if ip in BannedIps(db.bans) {
            var r :| r in db.bans && r.ip == ip;
            var i :| 0 <= i < |db.bans| && db.bans[i] == r;
          }
        }
      }
      var pending := ips;
      order := [];
      while pending != {}
        invariant pending <= ips
        invariant db.bans == old(db.bans) && db.attacks == old(db.attacks) && db.commits == old(db.commits)
        invariant calls == old(calls) + BlockCalls(order)
        invariant forall ip :: ip in order <==> ip in ips && ip !in pending
        invariant forall i, j :: 0 <= i < j < |order| ==> order[i] != order[j]
        decreases |pending|
      {
        var ip :| ip in pending;
        var _ := Block(ip, false, false, now);
        assert BlockCalls(order + [ip]) == BlockCalls(order) + [BlockCall(ip)];
        order := order + [ip];
        pending := pending - {ip};
      }
    }
  }

  /** The blocker calls for blocking each address of `ips` in turn. */
  function BlockCalls(ips: seq<string>): (calls: seq<BlockerCall>)
    ensures |calls| == |ips| && forall i :: 0 <= i < |ips| ==> calls[i] == BlockCall(ips[i])
  {
    seq(|ips|, i requires 0 <= i < |ips| => BlockCall(ips[i]))
  }

  /** The addresses of `ips` that are not in `banned`, in order: the ones block lets
      through when it asks the ban table first. */
  function Unbanned(ips: seq<string>, banned: set<string>): (r: seq<string>)
    ensures forall ip :: ip in r <==> ip in ips && ip !in banned
  {
    if ips == [] then []
    else Unbanned(ips[..|ips| - 1], banned) + (if ips[|ips| - 1] in banned then [] else [ips[|ips| - 1]])
  }

  /** Filtering keeps addresses distinct. */
  lemma {:induction false} UnbannedDistinct(ips: seq<string>, banned: set<string>)
    requires forall i, j :: 0 <= i < j < |ips| ==> ips[i] != ips[j]
    ensures forall i, j :: 0 <= i < j < |Unbanned(ips, banned)| ==> Unbanned(ips, banned)[i] != Unbanned(ips, banned)[j]
  {
    if ips != [] {
      var front := ips[..|ips| - 1];
      var last := ips[|ips| - 1];
      UnbannedDistinct(front, banned);
      var u := Unbanned(front, banned);
      assert last !in u by {
        assert last !in front;
      }
      var r := Unbanned(ips, banned);
      assert r == u + (if last in banned then [] else [last]);
      forall i, j | 0 <= i < j < |r|
        ensures r[i] != r[j]
      {
        if j < |u| {
          assert r[i] == u[i] && r[j] == u[j];
        } else {
          assert r[i] == u[i] && u[i] in u && r[j] == last;
        }
      }
    }
  }

  /** The ban rows, each stamped `now`, that blocking `ips` in turn adds. */
  function BanRows(ips: seq<string>, now: int): (rows: seq<BanRow>)
    ensures |rows| == |ips| && forall i :: 0 <= i < |ips| ==> rows[i] == BanRow(now, ips[i])
  {
    seq(|ips|, i requires 0 <= i < |ips| => BanRow(now, ips[i]))
  }

  /** After the rows of `ips` are added, the banned addresses are the old ones and `ips`. */
  lemma BannedIpsAfter(bans: seq<BanRow>, ips: seq<string>, now: int)
    ensures BannedIps(bans + BanRows(ips, now)) == BannedIps(bans) + set ip | ip in ips
  {
    var rows := BanRows(ips, now);
    forall ip | ip in ips
      ensures ip in BannedIps(bans + rows)
    {
      var i :| 0 <= i < |ips| && ips[i] == ip;
      assert (bans + rows)[|bans| + i] == BanRow(now, ip);
    }
    forall ip | ip in BannedIps(bans + rows)
      ensures ip in BannedIps(bans) || ip in ips
    {
      var r :| r in bans + rows && r.ip == ip;
      var i :| 0 <= i < |bans + rows| && (bans + rows)[i] == r;
      if i < |bans| {
        assert bans[i] == r;
      } else {
        assert ips[i - |bans|] == ip;
      }
    }
    forall ip | ip in BannedIps(bans)
      ensures ip in BannedIps(bans + rows)
    {
      var r :| r in bans && r.ip == ip;
      assert r in bans + rows;
    }
  }

  // ---------------------------------------------------------------------------
  // One cycle of ThreadScanner.run (simple-guardian.py:275-331)
  // ---------------------------------------------------------------------------

  /** A number at least `d` and at least every element of `s`. */
  function MaxOr(s: seq<int>, d: int): (m: int)
    ensures m >= d && forall x :: x in s ==> x <= m
  {
    if s == [] then d
    else
      assert s == [s[0]] + s[1..];
      var m := MaxOr(s[1..], d);
      if s[0] > m then s[0] else m
  }

  /** The while loop at simple-guardian.py:305-306: `t` goes up by one until it is not among
      the known timestamps. */
  function NextFree(known: seq<int>, t: int): (r: int)
    ensures r >= t && r !in known
    ensures forall u :: t <= u < r ==> u in known
    decreases if t in known then MaxOr(known, 0) - t + 1 else 0
  {
    if t in known then NextFree(known, t + 1) else t
  }

  /** The timestamps of a list of attacks. */
  function Stamps(list: seq<Attack>): (ts: seq<int>)
    ensures |ts| == |list| && forall i :: 0 <= i < |list| ==> ts[i] == list[i].timestamp
  {
    seq(|list|, i requires 0 <= i < |list| => list[i].timestamp)
  }

  predicate Distinct(s: seq<int>) {
    forall i, j :: 0 <= i < j < |s| ==> s[i] != s[j]
  }

  /** Re-stamping one address's attacks in order, against the timestamps already taken;
      each new timestamp is taken in turn. Returns the list and the taken timestamps. */
  function StampList(known: seq<int>, list: seq<Attack>): (seq<Attack>, seq<int>)
    decreases |list|
  {
    if list == [] then ([], known)
    else
      var (front, k) := StampList(known, list[..|list| - 1]);
      var a := list[|list| - 1];
      var t := NextFree(k, a.timestamp);
      (front + [a.(timestamp := t)], k + [t])
  }

  /** Re-stamping keeps each attack's variables, never moves a timestamp back, and takes
      each new timestamp only when it is still free, so distinct timestamps stay
      distinct. */
  lemma {:induction false} StampListFacts(known: seq<int>, list: seq<Attack>)
    ensures var (out, k) := StampList(known, list);
      |out| == |list| &&
      (forall i :: 0 <= i < |list| ==> out[i].vars == list[i].vars && out[i].timestamp >= list[i].timestamp) &&
      k == known + Stamps(out) &&
      (Distinct(known) ==> Distinct(k))
    decreases |list|
  {
    if list != [] {
      var front := list[..|list| - 1];
      StampListFacts(known, front);
      var (o, k) := StampList(known, front);
      var a := list[|list| - 1];
      var t := NextFree(k, a.timestamp);
      assert Stamps(o + [a.(timestamp := t)]) == Stamps(o) + [t];
      if Distinct(known) {
        assert Distinct(k + [t]) by {
          forall i, j | 0 <= i < j < |k| + 1 ensures (k + [t])[i] != (k + [t])[j] {
            if j == |k| {
              assert k[i] in k;
            }
          }
        }
      }
    }
  }

  /** Re-stamping every address in `order`, one list after another, with one set of taken
      timestamps for the whole profile (simple-guardian.py:300-308). */
  function StampAll(known: seq<int>, attacks: Attacks, order: seq<string>): (Attacks, seq<int>)
    requires forall ip :: ip in order ==> ip in attacks
    decreases |order|
  {
    if order == [] then (attacks, known)
    else
      var (m, k) := StampAll(known, attacks, order[..|order| - 1]);
      var ip := order[|order| - 1];
      var (l, k') := StampList(k, attacks[ip]);
      (m[ip := l], k')
  }

  lemma StampAllFlat(attacks: Attacks, order: seq<string>)
    requires forall ip :: ip in order ==> ip in attacks
    requires forall i, j :: 0 <= i < j < |order| ==> order[i] != order[j]
    ensures StampAll([], attacks, order).0.Keys == attacks.Keys
    ensures StampAll([], attacks, order).1 == Flat(StampAll([], attacks, order).0, order)
  {
    StampAllFacts(attacks, order);
  }

  /** Before its turn, an address still has the attacks it was parsed with. */
  lemma StampAllNext(attacks: Attacks, order: seq<string>, k: nat)
    requires forall ip :: ip in order ==> ip in attacks
    requires forall i, j :: 0 <= i < j < |order| ==> order[i] != order[j]
    requires k < |order|
    ensures StampAll([], attacks, order[..k]).0.Keys == attacks.Keys
    ensures StampAll([], attacks, order[..k]).0[order[k]] == attacks[order[k]]
  {
    var front := order[..k];
    assert forall i, j :: 0 <= i < j < |front| ==> front[i] != front[j];
    assert order[k] !in front;
    StampAllFacts(attacks, front);
  }

  lemma StampAllStep(attacks: Attacks, order: seq<string>, k: nat)
    requires forall ip :: ip in order ==> ip in attacks
    requires k < |order|
    ensures var (m, known) := StampAll([], attacks, order[..k]);
      var (l, known') := StampList(known, attacks[order[k]]);
      StampAll([], attacks, order[..k + 1]) == (m[order[k] := l], known')
  {
    assert order[..k + 1][..k] == order[..k];
  }

  /** The timestamps of the addresses in `order`, one list after another. */
  function Flat(m: Attacks, order: seq<string>): seq<int>
    requires forall ip :: ip in order ==> ip in m
  {
    if order == [] then [] else Flat(m, order[..|order| - 1]) + Stamps(m[order[|order| - 1]])
  }

  ghost predicate Enumerates<V>(order: seq<string>, m: map<string, V>) {
    (forall ip :: ip in order <==> ip in m) && forall i, j :: 0 <= i < j < |order| ==> order[i] != order[j]
  }

  lemma {:induction false} FlatFrame(m: Attacks, m': Attacks, order: seq<string>)
    requires forall ip :: ip in order ==> ip in m && ip in m' && m[ip] == m'[ip]
    ensures Flat(m, order) == Flat(m', order)
    decreases |order|
  {
    if order != [] {
      FlatFrame(m, m', order[..|order| - 1]);
    }
  }

  /** After a profile's attacks are re-stamped, every address keeps its attacks in order
      with the same variables and no earlier timestamps, and all timestamps of the profile
      are pairwise distinct, across addresses. */
  lemma {:induction false} StampAllFacts(attacks: Attacks, order: seq<string>)
    requires forall ip :: ip in order ==> ip in attacks
    requires forall i, j :: 0 <= i < j < |order| ==> order[i] != order[j]
    ensures var (m, k) := StampAll([], attacks, order);
      m.Keys == attacks.Keys &&
      (forall ip :: ip in attacks && ip !in order ==> m[ip] == attacks[ip]) &&
      (forall ip :: ip in order ==> (|m[ip]| == |attacks[ip]| &&
         forall i :: 0 <= i < |m[ip]| ==> m[ip][i].vars == attacks[ip][i].vars && m[ip][i].timestamp >= attacks[ip][i].timestamp)) &&
      k == Flat(m, order) && Distinct(k)
    decreases |order|
  {
    if order != [] {
      var front := order[..|order| - 1];
      StampAllFacts(attacks, front);
      var (m, k) := StampAll([], attacks, front);
      var ip := order[|order| - 1];
      StampListFacts(k, attacks[ip]);
      var (l, k') := StampList(k, attacks[ip]);
      assert ip !in front;
      FlatFrame(m, m[ip := l], front);
    }
  }

  /** The row stored for an attack of `ip` in `profile`. */
  function RowOf(ip: string, profile: string, a: Attack): AttackRow {
    AttackRow(a.timestamp, ip, profile, if "USER" in a.vars then Some(a.vars["USER"]) else None, a)
  }

  /** SELECT COUNT(*) FROM attacks WHERE ip = ? AND time = ? AND profile = ? is non-zero. */
  predicate Present(rows: seq<AttackRow>, ip: string, t: int, profile: string) {
    exists r :: r in rows && r.ip == ip && r.time == t && r.profile == profile
  }

  /** The rows after inserting each attack of `list` that has no row yet. */
  function InsertList(rows: seq<AttackRow>, profile: string, ip: string, list: seq<Attack>): seq<AttackRow>
    decreases |list|
  {
    if list == [] then rows
    else
      var before := InsertList(rows, profile, ip, list[..|list| - 1]);
      var a := list[|list| - 1];
      if Present(before, ip, a.timestamp, profile) then before else before + [RowOf(ip, profile, a)]
  }

  /** Inserting keeps every existing row, and adds rows only for `ip` and `profile`, each
      when no row with its address, time and profile existed yet. */
  lemma {:induction false} InsertListFresh(rows: seq<AttackRow>, profile: string, ip: string, list: seq<Attack>)
    ensures var out := InsertList(rows, profile, ip, list);
      |rows| <= |out| && out[..|rows|] == rows &&
      (forall j :: |rows| <= j < |out| ==> (out[j].ip == ip && out[j].profile == profile &&
         !Present(out[..j], out[j].ip, out[j].time, profile)))
    decreases |list|
  {
    if list != [] {
      var front := list[..|list| - 1];
      InsertListFresh(rows, profile, ip, front);
      var before := InsertList(rows, profile, ip, front);
      var a := list[|list| - 1];
      if !Present(before, ip, a.timestamp, profile) {
        var out := before + [RowOf(ip, profile, a)];
        assert out[..|rows|] == rows by { assert out[..|rows|] == before[..|rows|]; }
        forall j | |rows| <= j < |out|
          ensures out[j].ip == ip && out[j].profile == profile && !Present(out[..j], out[j].ip, out[j].time, profile)
        {
          if j < |before| {
            assert out[..j] == before[..j];
          } else {
            assert out[..j] == before;
          }
        }
      }
    }
  }

  /** After inserting, every attack of the list has a row. */
  lemma {:induction false} InsertListCovers(rows: seq<AttackRow>, profile: string, ip: string, list: seq<Attack>)
    ensures forall i :: 0 <= i < |list| ==> Present(InsertList(rows, profile, ip, list), ip, list[i].timestamp, profile)
    decreases |list|
  {
    if list != [] {
      var front := list[..|list| - 1];
      InsertListCovers(rows, profile, ip, front);
      var before := InsertList(rows, profile, ip, front);
      var out := InsertList(rows, profile, ip, list);
      assert forall r :: r in before ==> r in out;
      forall i | 0 <= i < |list| ensures Present(out, ip, list[i].timestamp, profile) {
        if i < |front| {
          assert front[i] == list[i];
          assert Present(before, ip, front[i].timestamp, profile);
          var r :| r in before && r.ip == ip && r.time == list[i].timestamp && r.profile == profile;
          assert r in out;
        } else if !Present(before, ip, list[i].timestamp, profile) {
          assert out[|before|] in out;
        }
      }
    }
  }

  /** The rows after inserting the attacks of every address in `order`, one list after
      another. */
  function InsertAll(rows: seq<AttackRow>, profile: string, m: Attacks, order: seq<string>): seq<AttackRow>
    requires forall ip :: ip in order ==> ip in m
    decreases |order|
  {
    if order == [] then rows
    else
      var ip := order[|order| - 1];
      InsertList(InsertAll(rows, profile, m, order[..|order| - 1]), profile, ip, m[ip])
  }

  lemma InsertAllStep(rows: seq<AttackRow>, profile: string, m: Attacks, order: seq<string>, k: nat)
    requires forall ip :: ip in order ==> ip in m
    requires k < |order|
    ensures InsertAll(rows, profile, m, order[..k + 1]) ==
      InsertList(InsertAll(rows, profile, m, order[..k]), profile, order[k], m[order[k]])
  {
    assert order[..k + 1][..k] == order[..k];
  }

  lemma {:induction false} InsertAllFrame(rows: seq<AttackRow>, profile: string, m: Attacks, m': Attacks, order: seq<string>)
    requires forall ip :: ip in order ==> ip in m && ip in m' && m[ip] == m'[ip]
    ensures InsertAll(rows, profile, m, order) == InsertAll(rows, profile, m', order)
    decreases |order|
  {
    if order != [] {
      InsertAllFrame(rows, profile, m, m', order[..|order| - 1]);
    }
  }

  /** A profile's inserts keep every existing row. */
  lemma {:induction false} InsertAllPrefix(rows: seq<AttackRow>, profile: string, m: Attacks, order: seq<string>)
    requires forall ip :: ip in order ==> ip in m
    ensures |rows| <= |InsertAll(rows, profile, m, order)| && InsertAll(rows, profile, m, order)[..|rows|] == rows
    decreases |order|
  {
    if order != [] {
      var front := order[..|order| - 1];
      var ip := order[|order| - 1];
      assert forall x :: x in front ==> x in order;
      InsertAllPrefix(rows, profile, m, front);
      var mid := InsertAll(rows, profile, m, front);
      var out := InsertList(mid, profile, ip, m[ip]);
      InsertListFresh(mid, profile, ip, m[ip]);
      assert out[..|rows|] == out[..|mid|][..|rows|];
    }
  }

  /** Every attack of every listed address has a row afterwards. */
  lemma {:induction false} InsertAllCovers(rows: seq<AttackRow>, profile: string, m: Attacks, order: seq<string>)
    requires forall ip :: ip in order ==> ip in m
    ensures forall ip, i :: ip in order && 0 <= i < |m[ip]| ==> Present(InsertAll(rows, profile, m, order), ip, m[ip][i].timestamp, profile)
    decreases |order|
  {
    if order != [] {
      var front := order[..|order| - 1];
      var ip := order[|order| - 1];
      assert order == front + [ip];
      InsertAllCovers(rows, profile, m, front);
      var mid := InsertAll(rows, profile, m, front);
      var out := InsertList(mid, profile, ip, m[ip]);
      InsertListFresh(mid, profile, ip, m[ip]);
      InsertListCovers(mid, profile, ip, m[ip]);
      forall x, i | x in order && 0 <= i < |m[x]| ensures Present(out, x, m[x][i].timestamp, profile) {
        if x != ip {
          assert x in front;
          assert Present(mid, x, m[x][i].timestamp, profile);
          var r :| r in mid && r.ip == x && r.time == m[x][i].timestamp && r.profile == profile;
          assert r in out[..|mid|];
        }
      }
    }
  }

  /** Row `j` carries the profile and repeats no row before it. */
  predicate Added(rows: seq<AttackRow>, j: nat, profile: string)
    requires j < |rows|
  {
    rows[j].profile == profile && !Present(rows[..j], rows[j].ip, rows[j].time, profile)
  }

  /** Every row added carries the profile and repeats no row before it. */
  lemma {:induction false} InsertAllFresh(rows: seq<AttackRow>, profile: string, m: Attacks, order: seq<string>)
    requires forall ip :: ip in order ==> ip in m
    ensures forall j :: |rows| <= j < |InsertAll(rows, profile, m, order)| ==>
      Added(InsertAll(rows, profile, m, order), j, profile)
    decreases |order|
  {
    if order != [] {
      var front := order[..|order| - 1];
      var ip := order[|order| - 1];
      assert forall x :: x in front ==> x in order;
      InsertAllFresh(rows, profile, m, front);
      var mid := InsertAll(rows, profile, m, front);
      var out := InsertList(mid, profile, ip, m[ip]);
      InsertListFresh(mid, profile, ip, m[ip]);
      forall j | |rows| <= j < |out| ensures Added(out, j, profile) {
        if j < |mid| {
          assert Added(mid, j, profile);
          assert out[..j] == mid[..j] by { assert out[..j] == out[..|mid|][..j]; }
          assert out[j] == mid[j] by { assert out[j] == out[..|mid|][j]; }
        }
      }
    }
  }

  /** The loop that moves a timestamp up while it is taken (simple-guardian.py:305-306). */
  method FirstFree(taken: seq<int>, t0: int) returns (t: int)
    ensures t == NextFree(taken, t0)
  {
    t := t0;
    while t in taken
      invariant t >= t0 && NextFree(taken, t) == NextFree(taken, t0)
      decreases if t in taken then MaxOr(taken, 0) - t + 1 else 0
    {
      t := t + 1;
    }
  }

  lemma StampListStep(known: seq<int>, list: seq<Attack>, j: nat)
    requires j < |list|
    ensures var (front, k) := StampList(known, list[..j]);
      var t := NextFree(k, list[j].timestamp);
      StampList(known, list[..j + 1]) == (front + [list[j].(timestamp := t)], k + [t])
  {
    assert list[..j + 1][..j] == list[..j];
  }

  lemma InsertListStep(rows: seq<AttackRow>, profile: string, ip: string, list: seq<Attack>, j: nat)
    requires j < |list|
    ensures var before := InsertList(rows, profile, ip, list[..j]);
      InsertList(rows, profile, ip, list[..j + 1]) ==
        if Present(before, ip, list[j].timestamp, profile) then before else before + [RowOf(ip, profile, list[j])]
  {
    assert list[..j + 1][..j] == list[..j];
  }

  /** A profile as the scanner uses it. */
  datatype Profile = Profile(name: string, scanRange: int, maxAttempts: int)

  /** Lists the keys of `m` in some order, each once (the order a dict is walked in). */
  method ListKeys<V>(m: map<string, V>) returns (order: seq<string>)
    ensures Enumerates(order, m)
  {
    var pending := m.Keys;
    order := [];
    while pending != {}
      invariant pending <= m.Keys
      invariant forall ip :: ip in order <==> ip in m && ip !in pending
      invariant forall i, j :: 0 <= i < j < |order| ==> order[i] != order[j]
      decreases |pending|
    {
      var ip :| ip in pending;
      order := order + [ip];
      pending := pending - {ip};
    }
  }

  /** The scanning thread: the blocker and through it the store. */
  class ThreadScanner {
    const blocker: IPBlocker

    constructor(blocker: IPBlocker)
      ensures this.blocker == blocker
    {
      this.blocker := blocker;
    }

    /** SELECT COUNT(*) FROM attacks WHERE ip = ? AND time = ? AND profile = ? is non-zero. */
    method HasAttack(ip: string, t: int, profile: string) returns (b: bool)
      ensures b <==> Present(blocker.db.attacks, ip, t, profile)
    {
      b := false;
      for i := 0 to |blocker.db.attacks|
        invariant b <==> Present(blocker.db.attacks[..i], ip, t, profile)
      {
        var r := blocker.db.attacks[i];
        assert blocker.db.attacks[..i + 1] == blocker.db.attacks[..i] + [r];
        if r.ip == ip && r.time == t && r.profile == profile {
          b := true;
        }
      }
      assert blocker.db.attacks[..|blocker.db.attacks|] == blocker.db.attacks;
    }

    /** One attack of the de-duplication (simple-guardian.py:305-317): its timestamp is
        moved up to the first one not yet taken and taken, and it is inserted unless a row
        with its address, time and profile exists. */
    method StampOne(profile: string, ip: string, list: seq<Attack>, j: nat, known: seq<int>)
      returns (out: seq<Attack>, taken: seq<int>, inserted: bool)
      requires j < |list|
      modifies blocker.db
      ensures var t := NextFree(known, list[j].timestamp);
        out == list[j := list[j].(timestamp := t)] && taken == known + [t] &&
        inserted == !Present(old(blocker.db.attacks), ip, t, profile) &&
        blocker.db.attacks == if inserted then old(blocker.db.attacks) + [RowOf(ip, profile, out[j])] else old(blocker.db.attacks)
      ensures blocker.db.bans == old(blocker.db.bans) && blocker.db.commits == old(blocker.db.commits)
    {
      var a := list[j];
      var t := FirstFree(known, a.timestamp);
      taken := known + [t];
      out := list[j := a.(timestamp := t)];
      var present := HasAttack(ip, t, profile);
      inserted := !present;
      if inserted {
        blocker.db.attacks := blocker.db.attacks + [RowOf(ip, profile, out[j])];
      }
    }

    /** The inner loop of the de-duplication (simple-guardian.py:303-318) for the attacks
        of one address: each timestamp is moved up to the first one not yet taken and
        taken; the attack is inserted unless a row with its address, time and profile
        exists. */
    method StampAddress(profile: string, ip: string, list: seq<Attack>, known: seq<int>)
      returns (out: seq<Attack>, taken: seq<int>, inserted: bool)
      modifies blocker.db
      ensures |old(blocker.db.attacks)| <= |blocker.db.attacks|
      ensures inserted <==> |blocker.db.attacks| > |old(blocker.db.attacks)|
      ensures (out, taken) == StampList(known, list)
      ensures blocker.db.attacks == InsertList(old(blocker.db.attacks), profile, ip, out)
      ensures blocker.db.bans == old(blocker.db.bans) && blocker.db.commits == old(blocker.db.commits)
    {
      out := list;
      taken := known;
      inserted := false;
      var j := 0;
      while j < |list|
        invariant 0 <= j <= |list| && |out| == |list|
        invariant inserted <==> |blocker.db.attacks| > |old(blocker.db.attacks)|
        invariant |old(blocker.db.attacks)| <= |blocker.db.attacks|
        invariant (out[..j], taken) == StampList(known, list[..j])
        invariant forall i :: j <= i < |list| ==> out[i] == list[i]
        invariant blocker.db.attacks == InsertList(old(blocker.db.attacks), profile, ip, out[..j])
        invariant blocker.db.bans == old(blocker.db.bans) && blocker.db.commits == old(blocker.db.commits)
      {
        StampListStep(known, list, j);
        ghost var prev := out;
        var added;
        out, taken, added := StampOne(profile, ip, out, j, taken);
        inserted := inserted || added;
        assert out[..j + 1] == prev[..j] + [out[j]];
        InsertListStep(old(blocker.db.attacks), profile, ip, out, j);
        j := j + 1;
      }
      assert out[..j] == out && list[..j] == list;
    }

    /** The de-duplication and insert loop of one profile (simple-guardian.py:300-318):
        walks the addresses in dict order (`order`) with one list of taken timestamps for
        the whole profile. */
    method StampAndStore(profile: string, attacks: Attacks) returns (stamped: Attacks, order: seq<string>, inserted: bool)
      modifies blocker.db
      ensures inserted <==> |blocker.db.attacks| > |old(blocker.db.attacks)|
      ensures Enumerates(order, attacks) && stamped.Keys == attacks.Keys
      ensures (stamped, Flat(stamped, order)) == StampAll([], attacks, order)
      ensures blocker.db.attacks == InsertAll(old(blocker.db.attacks), profile, stamped, order)
      ensures blocker.db.bans == old(blocker.db.bans) && blocker.db.commits == old(blocker.db.commits)
    {
      order := ListKeys(attacks);
      var known: seq<int> := [];
      stamped := attacks;
      inserted := false;
      for k := 0 to |order|
        invariant inserted <==> |blocker.db.attacks| > |old(blocker.db.attacks)|
        invariant |old(blocker.db.attacks)| <= |blocker.db.attacks|
        invariant (stamped, known) == StampAll([], attacks, order[..k])
        invariant stamped.Keys == attacks.Keys
        invariant blocker.db.attacks == InsertAll(old(blocker.db.attacks), profile, stamped, order[..k])
        invariant blocker.db.bans == old(blocker.db.bans) && blocker.db.commits == old(blocker.db.commits)
      {
        var ip := order[k];
        StampAllNext(attacks, order, k);
        StampAllStep(attacks, order, k);
        var out, added;
        out, known, added := StampAddress(profile, ip, attacks[ip], known);
        inserted := inserted || added;
        InsertAllStep(old(blocker.db.attacks), profile, stamped[ip := out], order, k);
        InsertAllFrame(old(blocker.db.attacks), profile, stamped, stamped[ip := out], order[..k]);
        stamped := stamped[ip := out];
      }
      assert order[..|order|] == order;
      StampAllFlat(attacks, order);
    }
  
    /** One offender of the blocking loop, after the offenders `done` were banned on top of
        the ban rows `bans` and the calls `calls`: it is blocked and banned exactly when the
        rows it started from do not list it. */
    method BlockNext(ip: string, now: int, ghost bans: seq<BanRow>, ghost calls: seq<BlockerCall>, ghost done: seq<string>)
      returns (ok: bool)
      requires ip !in done
      requires blocker.db.bans == bans + BanRows(done, now) && blocker.calls == calls + BlockCalls(done)
      modifies blocker, blocker.db
      ensures ok <==> ip !in BannedIps(bans)
      ensures var after := done + (if ok then [ip] else []);
        blocker.db.bans == bans + BanRows(after, now) && blocker.calls == calls + BlockCalls(after)
      ensures blocker.db.attacks == old(blocker.db.attacks) && blocker.db.commits == old(blocker.db.commits)
    {
      BannedIpsAfter(bans, done, now);
      ok := blocker.Block(ip, false, true, now);
      assert BanRows(done + [ip], now) == BanRows(done, now) + [BanRow(now, ip)];
      assert BlockCalls(done + [ip]) == BlockCalls(done) + [BlockCall(ip)];
    }

    /** The blocking loop of simple-guardian.py:324-327: each offender, in dict order, is
        blocked without committing unless the ban table already lists it. Returns whether
        a ban was added; `newlyBanned` are the offenders that were not banned before, and
        each gets one blocker call and one ban row stamped `now`. */
    method BlockOffenders(offenders: Attacks, now: int) returns (blockedAny: bool, ghost newlyBanned: seq<string>)
      modifies blocker, blocker.db
      ensures forall ip :: ip in newlyBanned <==> ip in offenders && ip !in BannedIps(old(blocker.db.bans))
      ensures forall i, j :: 0 <= i < j < |newlyBanned| ==> newlyBanned[i] != newlyBanned[j]
      ensures blocker.db.bans == old(blocker.db.bans) + BanRows(newlyBanned, now)
      ensures blocker.calls == old(blocker.calls) + BlockCalls(newlyBanned)
      ensures blocker.db.attacks == old(blocker.db.attacks) && blocker.db.commits == old(blocker.db.commits)
      ensures blockedAny <==> newlyBanned != []
    {
      var db := blocker.db;
      var toBlock := ListKeys(offenders);
      ghost var banned := BannedIps(old(db.bans));
      blockedAny := false;
      for k := 0 to |toBlock|
        modifies blocker, db
        invariant db.bans == old(db.bans) + BanRows(Unbanned(toBlock[..k], banned), now)
        invariant blocker.calls == old(blocker.calls) + BlockCalls(Unbanned(toBlock[..k], banned))
        invariant db.attacks == old(db.attacks) && db.commits == old(db.commits)
        invariant blockedAny <==> Unbanned(toBlock[..k], banned) != []
      {
        assert toBlock[..k + 1][..k] == toBlock[..k] && toBlock[..k + 1][k] == toBlock[k];
        assert toBlock[k] !in toBlock[..k];
        var ok := BlockNext(toBlock[k], now, old(db.bans), old(blocker.calls), Unbanned(toBlock[..k], banned));
        blockedAny := blockedAny || ok;
      }
      assert toBlock[..|toBlock|] == toBlock;
      newlyBanned := Unbanned(toBlock, banned);
      UnbannedDistinct(toBlock, banned);
    }

    /** What the scanning loop does with one profile's attacks (simple-guardian.py:300-327):
        they are de-duplicated and stored, and their habitual offenders blocked without
        committing. Returns whether a row was added; `stamped` and `order` are the
        de-duplicated attacks and the dict order they were walked in, and `newlyBanned`
        the offenders that were not banned before, which get one call and one row each. */
    method StoreAndBlock(p: Profile, attacks: Attacks, now: int)
      returns (changed: bool, ghost stamped: Attacks, ghost order: seq<string>, ghost newlyBanned: seq<string>)
      modifies blocker, blocker.db
      ensures Enumerates(order, attacks) && stamped.Keys == attacks.Keys
      ensures (stamped, Flat(stamped, order)) == StampAll([], attacks, order)
      ensures blocker.db.attacks == InsertAll(old(blocker.db.attacks), p.name, stamped, order)
      ensures forall ip :: ip in newlyBanned <==> ip in Offenders(stamped, p.maxAttempts, p.scanRange) && ip !in BannedIps(old(blocker.db.bans))
      ensures forall i, j :: 0 <= i < j < |newlyBanned| ==> newlyBanned[i] != newlyBanned[j]
      ensures blocker.db.bans == old(blocker.db.bans) + BanRows(newlyBanned, now)
      ensures blocker.calls == old(blocker.calls) + BlockCalls(newlyBanned)
      ensures BannedIps(blocker.db.bans) == BannedIps(old(blocker.db.bans)) + Offenders(stamped, p.maxAttempts, p.scanRange).Keys
      ensures |old(blocker.db.attacks)| <= |blocker.db.attacks| && blocker.db.attacks[..|old(blocker.db.attacks)|] == old(blocker.db.attacks)
      ensures |old(blocker.db.bans)| <= |blocker.db.bans| && blocker.db.bans[..|old(blocker.db.bans)|] == old(blocker.db.bans)
      ensures forall k :: |old(blocker.db.bans)| <= k < |blocker.db.bans| ==> blocker.db.bans[k].time == now
      ensures blocker.db.commits == old(blocker.db.commits)
      ensures changed <==> |blocker.db.attacks| > |old(blocker.db.attacks)| || |blocker.db.bans| > |old(blocker.db.bans)|
    {
      var db := blocker.db;
      var deduplicated, walked, inserted := StampAndStore(p.name, attacks);
      stamped, order := deduplicated, walked;
      InsertAllPrefix(old(db.attacks), p.name, stamped, order);
      // get_habitual_offenders on given attacks reads no file and leaves the parser as it is
      var offenders := FindOffenders(deduplicated, p.maxAttempts, p.scanRange);
      var blockedAny;
      blockedAny, newlyBanned := BlockOffenders(offenders, now);
      changed := inserted || blockedAny;
      ghost var rows := BanRows(newlyBanned, now);
      assert db.bans[..|old(db.bans)|] == old(db.bans);
      assert forall k :: |old(db.bans)| <= k < |db.bans| ==> db.bans[k] == rows[k - |old(db.bans)|];
      BannedIpsAfter(old(db.bans), newlyBanned, now);
    }

    /** The body of the scanning loop for one profile (simple-guardian.py:293-327): its
        parser reads the log, then the attacks are stored and their offenders blocked as
        StoreAndBlock says; a read that raises changes no table and makes no call. */
    method ScanProfile(p: Profile, parser: LogParser, file: Option<LogFile>, clock: Clock, now: int)
      returns (r: Result<bool>, ghost stamped: Attacks, ghost order: seq<string>, ghost newlyBanned: seq<string>)
      modifies blocker, blocker.db, parser
      ensures parser.State() == Scan(old(parser.State()), parser.rules, parser.digest, file, clock, Some(p.scanRange * 2)).cursor
      ensures r.Err? ==> Scan(old(parser.State()), parser.rules, parser.digest, file, clock, Some(p.scanRange * 2)).result == Err(r.error)
      ensures r.Err? ==> r.error == FileNotFoundError || r.error == SeekValueError || LineError(r.error)
      ensures r.Err? ==> blocker.db.attacks == old(blocker.db.attacks) && blocker.db.bans == old(blocker.db.bans)
      ensures r.Err? ==> blocker.calls == old(blocker.calls)
      ensures r.Ok? ==>
        var scanned := Scan(old(parser.State()), parser.rules, parser.digest, file, clock, Some(p.scanRange * 2)).result;
        scanned.Ok? && Enumerates(order, scanned.value) && stamped.Keys == scanned.value.Keys &&
        (stamped, Flat(stamped, order)) == StampAll([], scanned.value, order)
      ensures r.Ok? ==> blocker.db.attacks == InsertAll(old(blocker.db.attacks), p.name, stamped, order)
      ensures r.Ok? ==> forall ip :: ip in newlyBanned <==> ip in Offenders(stamped, p.maxAttempts, p.scanRange) && ip !in BannedIps(old(blocker.db.bans))
      ensures r.Ok? ==> forall i, j :: 0 <= i < j < |newlyBanned| ==> newlyBanned[i] != newlyBanned[j]
      ensures r.Ok? ==> blocker.db.bans == old(blocker.db.bans) + BanRows(newlyBanned, now)
      ensures r.Ok? ==> blocker.calls == old(blocker.calls) + BlockCalls(newlyBanned)
      ensures r.Ok? ==> BannedIps(blocker.db.bans) == BannedIps(old(blocker.db.bans)) + Offenders(stamped, p.maxAttempts, p.scanRange).Keys
      ensures |old(blocker.db.attacks)| <= |blocker.db.attacks| && blocker.db.attacks[..|old(blocker.db.attacks)|] == old(blocker.db.attacks)
      ensures |old(blocker.db.bans)| <= |blocker.db.bans| && blocker.db.bans[..|old(blocker.db.bans)|] == old(blocker.db.bans)
      ensures forall k :: |old(blocker.db.bans)| <= k < |blocker.db.bans| ==> blocker.db.bans[k].time == now
      ensures blocker.db.commits == old(blocker.db.commits)
      ensures r.Ok? ==> (r.value <==> |blocker.db.attacks| > |old(blocker.db.attacks)| || |blocker.db.bans| > |old(blocker.db.bans)|)
    {
      var parsed := parser.ParseAttacks(file, clock, Some(p.scanRange * 2));
      if parsed.Err? {
        ScanErrors(old(parser.State()), parser.rules, parser.digest, file, clock, Some(p.scanRange * 2));
        return Err(parsed.error), map[], [], [];
      }
      ghost var cursor := parser.State();
      var changed;
      changed, stamped, order, newlyBanned := StoreAndBlock(p, parsed.value, now);
      assert parser.State() == cursor;
      r := Ok(changed);
    }

    /** One pass of the scanning loop (simple-guardian.py:279-329) over the profiles, each
        with its parser and the state of its log file: a missing file skips the profile,
        any other exception ends the thread, and one commit follows the last profile,
        exactly when an attack row or a ban row was added. How each parser moves is
        ScanProfile's contract. */
    method Cycle(profiles: seq<Profile>, parsers: seq<LogParser>, files: seq<Option<LogFile>>, clock: Clock, now: int)
      returns (r: Result<()>)
      requires |parsers| == |profiles| == |files|
      requires forall i, j :: 0 <= i < j < |parsers| ==> parsers[i] != parsers[j]
      modifies blocker, blocker.db, set i | 0 <= i < |parsers| :: parsers[i]
      ensures r.Err? ==> r.error == SeekValueError || LineError(r.error)
      ensures r.Err? ==> blocker.db.commits == old(blocker.db.commits)
      ensures |old(blocker.db.attacks)| <= |blocker.db.attacks| && blocker.db.attacks[..|old(blocker.db.attacks)|] == old(blocker.db.attacks)
      ensures |old(blocker.db.bans)| <= |blocker.db.bans| && blocker.db.bans[..|old(blocker.db.bans)|] == old(blocker.db.bans)
      ensures forall k :: |old(blocker.db.bans)| <= k < |blocker.db.bans| ==> blocker.db.bans[k].time == now
      ensures r.Ok? ==> (blocker.db.commits == old(blocker.db.commits) +
        (if |blocker.db.attacks| > |old(blocker.db.attacks)| || |blocker.db.bans| > |old(blocker.db.bans)| then 1 else 0))
    {
      var db := blocker.db;
      var commitDb := false;
      for i := 0 to |profiles|
        invariant |old(db.attacks)| <= |db.attacks| && db.attacks[..|old(db.attacks)|] == old(db.attacks)
        invariant |old(db.bans)| <= |db.bans| && db.bans[..|old(db.bans)|] == old(db.bans)
        invariant forall k :: |old(db.bans)| <= k < |db.bans| ==> db.bans[k].time == now
        invariant db.commits == old(db.commits)
        invariant commitDb <==> |db.attacks| > |old(db.attacks)| || |db.bans| > |old(db.bans)|
      {
        ghost var attacksBefore := db.attacks;
        ghost var bansBefore := db.bans;
        var found;
        ghost var stamped, order, newlyBanned;
        found, stamped, order, newlyBanned := ScanProfile(profiles[i], parsers[i], files[i], clock, now);
        assert db.attacks[..|old(db.attacks)|] == old(db.attacks) by {
          assert db.attacks[..|old(db.attacks)|] == db.attacks[..|attacksBefore|][..|old(db.attacks)|];
        }
        assert db.bans[..|old(db.bans)|] == old(db.bans) by {
          assert db.bans[..|old(db.bans)|] == db.bans[..|bansBefore|][..|old(db.bans)|];
        }
        if found.Err? {
          if found.error != FileNotFoundError {
            return Err(found.error);
          }
        } else if found.value {
          commitDb := true;
        }
      }
      if commitDb {
        db.Commit();
      }
      r := Ok(());
    }
  }

  // ---------------------------------------------------------------------------
  // load_profiles (simple-guardian.py:434-459)
  // ---------------------------------------------------------------------------

  /** A file in the profiles directory: its name and, when it decodes, its profiles. */
  datatype ProfileFile = ProfileFile(name: string, decoded: Option<map<string, map<string, Json>>>)

  type Profiles = map<string, map<string, Json>>

  /** Whether a file is read at all: its name ends in .json and it decodes. */
  predicate Loads(f: ProfileFile) {
    EndsWith(f.name, ".json") && f.decoded.Some?
  }

  /** The profiles after one file's: a profile seen for the first time starts as a copy
      of the defaults; then the file's keys overwrite. */
  function MergeFile(acc: Profiles, file: map<string, map<string, Json>>, defaults: map<string, Json>): Profiles {
    map p | p in acc.Keys + file.Keys :: if p in file then (if p in acc then acc[p] else defaults) + file[p] else acc[p]
  }

  lemma UpdateTwice<V>(m: map<string, V>, k: string, a: V, b: V)
    ensures m[k := a][k := b] == m[k := b]
  {
  }

  /** The part of `m` under `keys`. */
  function Restrict<V>(m: map<string, V>, keys: set<string>): map<string, V> {
    map k | k in keys && k in m :: m[k]
  }

  /** Merging one more of a file's profiles: it starts from the defaults when it is new,
      then takes the file's keys. */
  lemma MergeStep(start: Profiles, loaded: map<string, map<string, Json>>, done: set<string>,
                  defaults: map<string, Json>, p: string)
    requires p in loaded && p !in done
    ensures var acc := MergeFile(start, Restrict(loaded, done), defaults);
      MergeFile(start, Restrict(loaded, done + {p}), defaults) ==
        acc[p := (if p in acc then acc[p] else defaults) + loaded[p]]
  {
    var r0 := Restrict(loaded, done);
    assert Restrict(loaded, done + {p}) == r0[p := loaded[p]];
    MergeFileUpdate(start, r0, defaults, p, loaded[p]);
  }

  /** Merging one more profile into a file that lacked it. */
  lemma MergeFileUpdate(start: Profiles, file: map<string, map<string, Json>>, defaults: map<string, Json>,
                        p: string, v: map<string, Json>)
    requires p !in file
    ensures var acc := MergeFile(start, file, defaults);
      MergeFile(start, file[p := v], defaults) == acc[p := (if p in acc then acc[p] else defaults) + v]
  {
    var acc := MergeFile(start, file, defaults);
    var next := MergeFile(start, file[p := v], defaults);
    var w := (if p in acc then acc[p] else defaults) + v;
    assert next.Keys == acc.Keys + {p};
    forall q | q in next ensures next[q] == acc[p := w][q] {
      MergeFileUpdateAt(start, file, defaults, p, v, q);
    }
  }

  lemma MergeFileUpdateAt(start: Profiles, file: map<string, map<string, Json>>, defaults: map<string, Json>,
                          p: string, v: map<string, Json>, q: string)
    requires p !in file && q in MergeFile(start, file[p := v], defaults)
    ensures var acc := MergeFile(start, file, defaults);
      var w := (if p in acc then acc[p] else defaults) + v;
      MergeFile(start, file[p := v], defaults)[q] == acc[p := w][q]
  {
    var acc := MergeFile(start, file, defaults);
    if q == p {
      assert p in acc ==> acc[p] == start[p];
    }
  }

  /** The profiles after merging a file's profiles in the order `keys` lists them. */
  function MergeKeys(acc: Profiles, loaded: map<string, map<string, Json>>, keys: seq<string>,
                     defaults: map<string, Json>): Profiles
    requires forall p :: p in keys ==> p in loaded
    decreases |keys|
  {
    if keys == [] then acc
    else
      var merged := MergeKeys(acc, loaded, keys[..|keys| - 1], defaults);
      var p := keys[|keys| - 1];
      merged[p := (if p in merged then merged[p] else defaults) + loaded[p]]
  }

  lemma MergeKeysStep(acc: Profiles, loaded: map<string, map<string, Json>>, keys: seq<string>, k: nat,
                      defaults: map<string, Json>)
    requires forall p :: p in keys ==> p in loaded
    requires k < |keys|
    ensures var merged := MergeKeys(acc, loaded, keys[..k], defaults);
      var p := keys[k];
      MergeKeys(acc, loaded, keys[..k + 1], defaults) == merged[p := (if p in merged then merged[p] else defaults) + loaded[p]]
  {
    assert keys[..k + 1][..k] == keys[..k];
  }

  /** Merging the distinct keys one at a time is merging the part of the file they name. */
  lemma {:induction false} MergeKeysRestrict(start: Profiles, loaded: map<string, map<string, Json>>, keys: seq<string>,
                                             defaults: map<string, Json>)
    requires forall p :: p in keys ==> p in loaded
    requires forall i, j :: 0 <= i < j < |keys| ==> keys[i] != keys[j]
    ensures MergeKeys(start, loaded, keys, defaults) == MergeFile(start, Restrict(loaded, set p | p in keys), defaults)
    decreases |keys|
  {
    if keys == [] {
      assert Restrict(loaded, set p | p in keys) == map[];
    } else {
      var front := keys[..|keys| - 1];
      var p := keys[|keys| - 1];
      MergeKeysRestrict(start, loaded, front, defaults);
      assert p !in front;
      MergeStep(start, loaded, (set q | q in front), defaults, p);
      assert (set q | q in keys) == (set q | q in front) + {p};
    }
  }

  /** Walking every key of the file once, in any order, merges the whole file. */
  lemma MergeKeysIsMergeFile(start: Profiles, loaded: map<string, map<string, Json>>, keys: seq<string>,
                             defaults: map<string, Json>)
    requires Enumerates(keys, loaded)
    ensures MergeKeys(start, loaded, keys, defaults) == MergeFile(start, loaded, defaults)
  {
    MergeKeysRestrict(start, loaded, keys, defaults);
    assert Restrict(loaded, set p | p in keys) == loaded;
  }

  /** The profiles after reading `files` in directory order. */
  function Loaded(files: seq<ProfileFile>, defaults: map<string, Json>): Profiles
    decreases |files|
  {
    if files == [] then map[]
    else
      var acc := Loaded(files[..|files| - 1], defaults);
      var f := files[|files| - 1];
      if Loads(f) then MergeFile(acc, f.decoded.value, defaults) else acc
  }

  /** The value the last loaded file that sets `key` of profile `p` gives it (a reference
      definition). */
  function LastSetting(files: seq<ProfileFile>, p: string, key: string): Option<Json>
    decreases |files|
  {
    if files == [] then None
    else
      var f := files[|files| - 1];
      if Loads(f) && p in f.decoded.value && key in f.decoded.value[p] then Some(f.decoded.value[p][key])
      else LastSetting(files[..|files| - 1], p, key)
  }

  /** The profiles are the ones some loaded file names. */
  lemma {:induction false} LoadedKeys(files: seq<ProfileFile>, defaults: map<string, Json>, p: string)
    ensures p in Loaded(files, defaults) <==> exists i :: 0 <= i < |files| && Loads(files[i]) && p in files[i].decoded.value
    decreases |files|
  {
    if files != [] {
      var front := files[..|files| - 1];
      LoadedKeys(front, defaults, p);
      assert forall i :: 0 <= i < |front| ==> front[i] == files[i];
      if (exists i :: 0 <= i < |files| && Loads(files[i]) && p in files[i].decoded.value) {
        var i :| 0 <= i < |files| && Loads(files[i]) && p in files[i].decoded.value;
        if i < |front| {
          assert Loads(front[i]) && p in front[i].decoded.value;
        }
      }
    }
  }

  lemma {:induction false} LastSettingLoaded(files: seq<ProfileFile>, defaults: map<string, Json>, p: string, key: string)
    requires LastSetting(files, p, key).Some?
    ensures p in Loaded(files, defaults)
    decreases |files|
  {
    var f := files[|files| - 1];
    if !(Loads(f) && p in f.decoded.value && key in f.decoded.value[p]) {
      LastSettingLoaded(files[..|files| - 1], defaults, p, key);
    }
  }

  /** Each profile holds every default key and every key a file sets for it; a key's value
      comes from the last file that sets it, else from the defaults. */
  lemma {:induction false} LoadedValue(files: seq<ProfileFile>, defaults: map<string, Json>, p: string, key: string)
    requires p in Loaded(files, defaults)
    ensures key in Loaded(files, defaults)[p] <==> LastSetting(files, p, key).Some? || key in defaults
    ensures LastSetting(files, p, key).Some? ==> Loaded(files, defaults)[p][key] == LastSetting(files, p, key).value
    ensures LastSetting(files, p, key).None? && key in defaults ==> Loaded(files, defaults)[p][key] == defaults[key]
    decreases |files|
  {
    var front := files[..|files| - 1];
    var f := files[|files| - 1];
    var acc := Loaded(front, defaults);
    if p in acc {
      LoadedValue(front, defaults, p, key);
    } else if LastSetting(front, p, key).Some? {
      LastSettingLoaded(front, defaults, p, key);
    }
  }

  /** The global PROFILES dictionary. */
  class ProfileStore {
    var profiles: Profiles

    constructor()
      ensures profiles == map[]
    {
      profiles := map[];
    }

    /** The loop over one file's profiles (simple-guardian.py:455-458): a profile not yet
        known starts as a copy of the defaults, then takes the file's keys. */
    method MergeFileInto(loaded: map<string, map<string, Json>>, defaults: map<string, Json>)
      modifies this
      ensures profiles == MergeFile(old(profiles), loaded, defaults)
    {
      var order := ListKeys(loaded);
      MergeKeysInto(loaded, order, defaults);
      MergeKeysIsMergeFile(old(profiles), loaded, order, defaults);
    }

    /** The loop over a decoded file's profiles (simple-guardian.py:455-458), in the order
        `order` walks them: a profile not loaded yet starts as a copy of the defaults, then
        takes the file's keys. */
    method MergeKeysInto(loaded: map<string, map<string, Json>>, order: seq<string>, defaults: map<string, Json>)
      requires forall p :: p in order ==> p in loaded
      modifies this
      ensures profiles == MergeKeys(old(profiles), loaded, order, defaults)
    {
      var acc := profiles;
      for k := 0 to |order|
        invariant acc == MergeKeys(old(profiles), loaded, order[..k], defaults)
      {
        MergeKeysStep(old(profiles), loaded, order, k, defaults);
        ghost var prev := acc;
        var p := order[k];
        if p !in acc {
          acc := acc[p := defaults];
        }
        acc := acc[p := acc[p] + loaded[p]];
        if p !in prev {
          UpdateTwice(prev, p, defaults, defaults + loaded[p]);
        }
      }
      assert order[..|order|] == order;
      profiles := acc;
    }

    /** load_profiles (simple-guardian.py:434-459): empties the profiles, then, when the
        directory exists, reads its files in order, skipping those not named *.json and
        those that do not decode. */
    method LoadProfiles(dirExists: bool, files: seq<ProfileFile>, defaults: map<string, Json>)
      modifies this
      ensures profiles == if dirExists then Loaded(files, defaults) else map[]
    {
      profiles := map[];
      if !dirExists {
        return;
      }
      for i := 0 to |files|
        invariant profiles == Loaded(files[..i], defaults)
      {
        assert files[..i + 1][..i] == files[..i];
        var f := files[i];
        if !EndsWith(f.name, ".json") || f.decoded.None? {
          continue;
        }
        MergeFileInto(f.decoded.value, defaults);
      }
      assert files[..|files|] == files;
    }
  }
}
