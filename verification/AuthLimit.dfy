/** The failed-login limiter of internal/proxy/auth_limit.go: a bounded LRU cache of
    fixed-window failure counters with block periods.

    CellAttempt is the limiter of one source IP with no eviction. TableAttempt is the cache around
    it, and AuthFailureLimiter is the program's object: a map and a list that share entries. */
module AuthLimit {
  import opened Prelude

  datatype Policy = Policy(maxAttempts: int, window: int, block: int, maxIPs: int) {
    /** The ranges that configuration validation enforces. */
    ghost predicate Valid() {
      maxAttempts >= 1 && window > 0 && block > 0 && maxIPs >= 1
    }
  }

  datatype Record = Record(count: int, windowStart: Time, blockedUntil: Option<Time>)

  type Cell = Option<Record>

  /** One login result of one IP when nothing is ever evicted: the new record and the wait. */
  function CellAttempt(p: Policy, cell: Cell, valid: bool, now: Time): (Cell, int) {
    if cell.Some? && Before(now, cell.value.blockedUntil) then
      (cell, cell.value.blockedUntil.value - now)
    else if valid then
      (None, 0)
    else
      var restart := cell.None? || cell.value.blockedUntil.Some? || now - cell.value.windowStart >= p.window;
      var r := Counted(p, if restart then Record(0, now, None) else cell.value, now);
      (Some(r), if r.blockedUntil.Some? then p.block else 0)
  }

  /** A record with one more failure, blocked once it reaches the limit. */
  function Counted(p: Policy, r: Record, now: Time): Record {
    Record(r.count + 1, r.windowStart, if r.count + 1 >= p.maxAttempts then Some(now + p.block) else r.blockedUntil)
  }

  /** The cache: a record for each tracked IP, and the tracked IPs with the least recent first. */
  datatype Table = Table(records: map<string, Record>, order: seq<string>) {
    ghost predicate Valid(p: Policy) {
      && Distinct(order)
      && (forall ip :: ip in order <==> ip in records)
      && |order| <= p.maxIPs
      && (forall ip :: ip in records ==> RecordValid(p, records[ip]))
    }

    function Lookup(ip: string): Cell {
      if ip in records then Some(records[ip]) else None
    }
  }

  ghost predicate RecordValid(p: Policy, r: Record) {
    1 <= r.count <= p.maxAttempts && (r.blockedUntil.Some? <==> r.count == p.maxAttempts)
  }

  const EMPTY := Table(map[], [])

  /** Makes room for one more IP by dropping the least recent when the cache is full. */
  function Evict(p: Policy, t: Table): Table
    requires |t.order| >= p.maxIPs ==> t.order != []
  {
    if |t.order| >= p.maxIPs then Table(t.records - {t.order[0]}, t.order[1..]) else t
  }

  /** One login result, given the IP's key. */
  function TableAttempt(p: Policy, t: Table, ip: string, valid: bool, now: Time): (Table, int)
    requires p.Valid()
  {
    var (cell, wait) := CellAttempt(p, t.Lookup(ip), valid, now);
    var table :=
      match cell
      case None => Table(t.records - {ip}, Without(t.order, ip))
      case Some(r) =>
        var room := if ip in t.records then Table(t.records, Without(t.order, ip)) else Evict(p, t);
        Table(room.records[ip := r], room.order + [ip]);
    (table, wait)
  }

  /** Every attempt keeps map and list in bijection, the size bound and the record invariant:
      1 <= count <= maxAttempts, with a block set exactly when count == maxAttempts. */
  lemma AttemptValid(p: Policy, t: Table, ip: string, valid: bool, now: Time)
    requires p.Valid() && t.Valid(p)
    ensures TableAttempt(p, t, ip, valid, now).0.Valid(p)
  {
    WithoutDistinct(t.order, ip);
    WithoutElements(t.order, ip);
    DistinctAppend(Without(t.order, ip), ip);
    var t' := TableAttempt(p, t, ip, valid, now).0;
    if ip !in t.records && |t.order| >= p.maxIPs {
      var rest := t.order[1..];
      assert t.order == [t.order[0]] + rest;
      assert forall q :: q in rest ==> q in t.order;
      DistinctAppend(rest, ip);
    } else if ip !in t.records {
      DistinctAppend(t.order, ip);
    }
    forall q ensures q in t'.order <==> q in t'.records { }
  }

  // ----- the object -----

  class AuthFailure {
    const ip: string
    var count: int
    var windowStart: Time
    var blockedUntil: Option<Time>

    constructor (ip: string, windowStart: Time)
      ensures this.ip == ip && this.count == 0 && this.windowStart == windowStart && this.blockedUntil == None
    {
      this.ip := ip;
      this.count := 0;
      this.windowStart := windowStart;
      this.blockedUntil := None;
    }

    ghost function Value(): Record
      reads this
    {
      Record(count, windowStart, blockedUntil)
    }
  }

  function Ips(entries: seq<AuthFailure>): (r: seq<string>)
    ensures |r| == |entries|
    ensures forall i :: 0 <= i < |entries| ==> r[i] == entries[i].ip
  {
    seq(|entries|, i requires 0 <= i < |entries| => entries[i].ip)
  }

  lemma {:induction false} IpsWithout(entries: seq<AuthFailure>, e: AuthFailure)
    requires e in entries && Distinct(Ips(entries))
    ensures Ips(Without(entries, e)) == Without(Ips(entries), e.ip)
  {
    assert Ips(entries)[0] == entries[0].ip;
    if entries[0] == e {
      assert Ips(entries[1..]) == Ips(entries)[1..];
    } else {
      var k :| 0 <= k < |entries| && entries[k] == e;
      DistinctIndices(Ips(entries), 0, k);
      assert e in entries[1..];
      assert Ips(entries[1..]) == Ips(entries)[1..];
      IpsWithout(entries[1..], e);
      assert Ips([entries[0]] + Without(entries[1..], e)) == [entries[0].ip] + Ips(Without(entries[1..], e));
    }
  }

  /** The records held by the entries of a map. */
  ghost function Snapshot(m: map<string, AuthFailure>): map<string, Record>
    reads m.Values
  {
    map ip | ip in m :: m[ip].Value()
  }

  lemma SnapshotRemove(m: map<string, AuthFailure>, k: string)
    ensures Snapshot(m - {k}) == Snapshot(m) - {k}
  {
  }

  twostate lemma SnapshotSame(m: map<string, AuthFailure>)
    requires forall e :: e in m.Values ==> unchanged(e)
    ensures Snapshot(m) == old(Snapshot(m))
  {
  }

  lemma SnapshotAdd(m: map<string, AuthFailure>, e: AuthFailure)
    ensures Snapshot(m[e.ip := e]) == Snapshot(m)[e.ip := e.Value()]
  {
  }

  lemma IpsSplit(entries: seq<AuthFailure>, e: AuthFailure)
    ensures Ips(entries + [e]) == Ips(entries) + [e.ip]
  {
  }

  class AuthFailureLimiter {
    const policy: Policy
    var byIP: map<string, AuthFailure>
    var oldestFirst: seq<AuthFailure>

    /** Map and list hold the same entries, each under its own IP. */
    ghost predicate Linked()
      reads this
    {
      && (forall e :: e in oldestFirst ==> e.ip in byIP && byIP[e.ip] == e)
      && (forall ip :: ip in byIP ==> byIP[ip].ip == ip && byIP[ip] in oldestFirst)
      && Distinct(Ips(oldestFirst))
    }

    ghost function Contents(): Table
      reads this, byIP.Values
    {
      Table(Snapshot(byIP), Ips(oldestFirst))
    }

    ghost predicate Valid()
      reads this, byIP.Values
    {
      policy.Valid() && Linked() && Contents().Valid(policy)
    }

    constructor (policy: Policy)
      requires policy.Valid()
      ensures Valid() && Contents() == EMPTY && this.policy == policy
    {
      this.policy := policy;
      byIP := map[];
      oldestFirst := [];
    }

    lemma Sizes()
      requires Linked()
      ensures |byIP| == |oldestFirst|
    {
      DistinctSize(Ips(oldestFirst));
      forall ip ensures ip in Elements(Ips(oldestFirst)) <==> ip in byIP.Keys {
        if ip in byIP {
          var k :| 0 <= k < |oldestFirst| && oldestFirst[k] == byIP[ip];
          assert Ips(oldestFirst)[k] == ip;
        }
      }
      assert Elements(Ips(oldestFirst)) == byIP.Keys;
    }

    method MoveToBack(e: AuthFailure)
      requires Linked() && e in oldestFirst
      modifies this`oldestFirst
      ensures Linked()
      ensures Ips(oldestFirst) == Without(old(Ips(oldestFirst)), e.ip) + [e.ip]
    {
      IpsWithout(oldestFirst, e);
      WithoutDistinct(Ips(oldestFirst), e.ip);
      WithoutElements(oldestFirst, e);
      DistinctAppend(Without(Ips(oldestFirst), e.ip), e.ip);
      IpsSplit(Without(oldestFirst, e), e);
      oldestFirst := Without(oldestFirst, e) + [e];
    }

    method Remove(e: AuthFailure)
      requires Linked() && e in oldestFirst
      modifies this`oldestFirst, this`byIP
      ensures Linked() && byIP == old(byIP) - {e.ip}
      ensures Ips(oldestFirst) == Without(old(Ips(oldestFirst)), e.ip)
    {
      IpsWithout(oldestFirst, e);
      WithoutDistinct(Ips(oldestFirst), e.ip);
      WithoutElements(oldestFirst, e);
      oldestFirst := Without(oldestFirst, e);
      forall x | x in oldestFirst ensures x.ip != e.ip {
        var k :| 0 <= k < |oldestFirst| && oldestFirst[k] == x;
        assert Ips(oldestFirst)[k] == x.ip;
      }
      byIP := byIP - {e.ip};
    }

    method PushBack(e: AuthFailure)
      requires Linked() && e.ip !in byIP
      modifies this`oldestFirst, this`byIP
      ensures Linked() && byIP == old(byIP)[e.ip := e]
      ensures Ips(oldestFirst) == old(Ips(oldestFirst)) + [e.ip]
    {
      forall k | 0 <= k < |oldestFirst| ensures Ips(oldestFirst)[k] != e.ip {
        assert oldestFirst[k] in oldestFirst;
      }
      DistinctAppend(Ips(oldestFirst), e.ip);
      IpsSplit(oldestFirst, e);
      oldestFirst := oldestFirst + [e];
      byIP := byIP[e.ip := e];
    }

    /** Starts a new counting window for a tracked entry. */
    method Restart(entry: AuthFailure, now: Time)
      requires entry.ip in byIP && byIP[entry.ip] == entry
      requires forall ip :: ip in byIP ==> byIP[ip].ip == ip
      modifies entry
      ensures entry.Value() == Record(0, now, None)
      ensures Snapshot(byIP) == old(Snapshot(byIP))[entry.ip := entry.Value()]
    {
      entry.count := 0;
      entry.windowStart := now;
      entry.blockedUntil := None;
    }

    /** Counts one failure and blocks the entry when it reaches the limit. */
    method Count(entry: AuthFailure, now: Time) returns (wait: int)
      requires entry.ip in byIP && byIP[entry.ip] == entry
      requires forall ip :: ip in byIP ==> byIP[ip].ip == ip
      modifies entry
      ensures entry.Value() == Counted(policy, old(entry.Value()), now)
      ensures wait == if old(entry.Value()).count + 1 >= policy.maxAttempts then policy.block else 0
      ensures Snapshot(byIP) == old(Snapshot(byIP))[entry.ip := entry.Value()]
    {
      entry.count := entry.count + 1;
      if entry.count >= policy.maxAttempts {
        entry.blockedUntil := Some(now + policy.block);
        wait := policy.block;
      } else {
        wait := 0;
      }
    }

    /** Drops the least recent IP. */
    method DropOldest()
      requires Linked() && oldestFirst != []
      modifies this`byIP, this`oldestFirst
      ensures Linked() && byIP == old(byIP) - {old(Ips(oldestFirst)[0])}
      ensures Snapshot(byIP) == old(Snapshot(byIP)) - {old(Ips(oldestFirst)[0])}
      ensures Ips(oldestFirst) == old(Ips(oldestFirst)[1..])
    {
      ghost var ips, m := Ips(oldestFirst), byIP - {oldestFirst[0].ip};
      var oldest := oldestFirst[0];
      SnapshotRemove(byIP, oldest.ip);
      Remove(oldest);
      SnapshotSame(m);
      assert byIP == m && Without(ips, ips[0]) == ips[1..];
    }

    /** Drops the least recent IP when the cache is full. */
    method MakeRoom()
      requires Linked() && policy.maxIPs >= 1
      modifies this`byIP, this`oldestFirst
      ensures Linked() && byIP.Keys <= old(byIP).Keys
      ensures Table(Snapshot(byIP), Ips(oldestFirst)) == Evict(policy, old(Contents()))
    {
      Sizes();
      if |byIP| >= policy.maxIPs {
        DropOldest();
      }
    }

    /** Adds a record for an untracked IP. */
    method Track(ip: string, now: Time) returns (entry: AuthFailure)
      requires Linked() && ip !in byIP
      modifies this`byIP, this`oldestFirst
      ensures Linked() && fresh(entry) && entry.ip == ip && entry.Value() == Record(0, now, None)
      ensures ip in byIP && byIP[ip] == entry
      ensures Snapshot(byIP) == old(Snapshot(byIP))[ip := entry.Value()]
      ensures Ips(oldestFirst) == old(Ips(oldestFirst)) + [ip]
    {
      ghost var m := byIP;
      entry := new AuthFailure(ip, now);
      assert Snapshot(m) == old(Snapshot(byIP));
      SnapshotAdd(m, entry);
      PushBack(entry);
    }

    /** Counts one failure of a tracked entry, in a new window when the old one is over. */
    method Fail(entry: AuthFailure, now: Time) returns (wait: int)
      requires Linked() && entry.ip in byIP && byIP[entry.ip] == entry
      requires !Before(now, entry.blockedUntil)
      modifies entry
      ensures var (cell, w) := CellAttempt(policy, Some(old(entry.Value())), false, now);
              cell == Some(entry.Value()) && wait == w
      ensures Snapshot(byIP) == old(Snapshot(byIP))[entry.ip := entry.Value()]
    {
      if entry.blockedUntil.Some? || now - entry.windowStart >= policy.window {
        Restart(entry, now);
      }
      ghost var restarted := entry.Value();
      wait := Count(entry, now);
      Overwrite(old(Snapshot(byIP)), entry.ip, restarted, entry.Value());
    }

    /** Drops the record of an IP after a valid login. */
    method Forget(entry: AuthFailure, ghost others: seq<string>)
      requires Linked() && entry.ip in byIP && byIP[entry.ip] == entry
      requires Ips(oldestFirst) == others + [entry.ip] && entry.ip !in others
      modifies this`oldestFirst, this`byIP
      ensures Linked() && Ips(oldestFirst) == others
      ensures Snapshot(byIP) == old(Snapshot(byIP)) - {entry.ip}
    {
      WithoutLast(others, entry.ip);
      SnapshotRemove(byIP, entry.ip);
      Remove(entry);
    }

    /** A login result of an IP that already has a record. */
    method Known(entry: AuthFailure, valid: bool, now: Time) returns (wait: int)
      requires Linked() && entry.ip in byIP && byIP[entry.ip] == entry
      modifies this`oldestFirst, this`byIP, entry
      ensures Linked()
      ensures var (cell, w) := CellAttempt(policy, Some(old(entry.Value())), valid, now);
              && wait == w
              && Ips(oldestFirst) == (var others := Without(old(Ips(oldestFirst)), entry.ip);
                                      if cell.Some? then others + [entry.ip] else others)
              && Snapshot(byIP) == if cell.Some? then old(Snapshot(byIP))[entry.ip := cell.value]
                                   else old(Snapshot(byIP)) - {entry.ip}
    {
      ghost var t := Contents();
      MoveToBack(entry);
      if Before(now, entry.blockedUntil) {
        assert t.records[entry.ip := entry.Value()] == t.records;
        wait := entry.blockedUntil.value - now;
      } else if valid {
        WithoutDistinct(t.order, entry.ip);
        Forget(entry, Without(t.order, entry.ip));
        wait := 0;
      } else {
        wait := Fail(entry, now);
      }
    }

    /** A failed login of an IP that has no record. */
    method Unknown(ip: string, now: Time) returns (wait: int)
      requires Linked() && policy.maxIPs >= 1 && ip !in byIP
      modifies this`byIP, this`oldestFirst
      ensures Linked()
      ensures var (cell, w) := CellAttempt(policy, None, false, now);
              && wait == w && cell.Some?
              && Snapshot(byIP) == Evict(policy, old(Contents())).records[ip := cell.value]
      ensures Ips(oldestFirst) == Evict(policy, old(Contents())).order + [ip]
    {
      MakeRoom();
      ghost var room := Snapshot(byIP);
      var entry := Track(ip, now);
      wait := Count(entry, now);
      Overwrite(room, ip, Record(0, now, None), entry.Value());
    }

    /** The attempt of a key, on the raw map and list. */
    method Register(ip: string, valid: bool, now: Time) returns (wait: int)
      requires policy.Valid() && Linked()
      modifies this, byIP.Values
      ensures Linked()
      ensures (Contents(), wait) == TableAttempt(policy, old(Contents()), ip, valid, now)
    {
      if ip in byIP {
        wait := Known(byIP[ip], valid, now);
      } else if valid {
        ghost var t := Contents();
        WithoutElements(t.order, ip);
        Untracked(ip);
        assert t.records - {ip} == t.records;
        wait := 0;
      } else {
        wait := Unknown(ip, now);
      }
    }

    lemma Untracked(ip: string)
      requires Linked() && ip !in byIP
      ensures ip !in Ips(oldestFirst)
    {
    }

    /** attempt: records a login result and returns the remaining block time. */
    method Attempt(address: string, valid: bool, now: Time) returns (wait: int)
      requires Valid()
      modifies this, byIP.Values
      ensures Valid()
      ensures (Contents(), wait) ==
              TableAttempt(policy, old(Contents()), if address == "" then "unknown" else address, valid, now)
    {
      AttemptValid(policy, Contents(), Key(address), valid, now);
      wait := Register(Key(address), valid, now);
    }
  }
}
