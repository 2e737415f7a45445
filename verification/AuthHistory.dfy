/** What the failed-login limiter guarantees over whole runs of login results from many IPs:
    the bounded cache refines the unbounded per-IP machine, few guesses pass unblocked, and
    every block is justified by the failures that precede it. */
module AuthHistory {
  import opened Prelude
  import opened Arithmetic
  import opened AuthLimit

  /** One login result of an IP, named by its key. */
  datatype Event = Event(ip: string, valid: bool, now: Time)

  /** The cache before event k. */
  ghost function TableAt(p: Policy, es: seq<Event>, k: nat): Table
    requires p.Valid() && k <= |es|
  {
    if k == 0 then EMPTY
    else TableAttempt(p, TableAt(p, es, k - 1), es[k - 1].ip, es[k - 1].valid, es[k - 1].now).0
  }

  /** The cache invariant holds in every run: map and list in bijection, at most maxIPs records,
      each with 1 <= count <= maxAttempts and a block set exactly when count == maxAttempts. */
  lemma {:induction false} TableAtValid(p: Policy, es: seq<Event>, k: nat)
    requires p.Valid() && k <= |es|
    ensures TableAt(p, es, k).Valid(p)
  {
    if k > 0 {
      TableAtValid(p, es, k - 1);
      AttemptValid(p, TableAt(p, es, k - 1), es[k - 1].ip, es[k - 1].valid, es[k - 1].now);
    }
  }

  /** The limiter's answer to event k. */
  ghost function Answer(p: Policy, es: seq<Event>, k: nat): int
    requires p.Valid() && k < |es|
  {
    TableAttempt(p, TableAt(p, es, k), es[k].ip, es[k].valid, es[k].now).1
  }

  /** The record of an IP before event k when nothing is ever evicted. */
  ghost function CellAt(p: Policy, es: seq<Event>, ip: string, k: nat): (c: Cell)
    requires p.Valid() && k <= |es|
    ensures c.Some? ==> RecordValid(p, c.value)
  {
    if k == 0 then None
    else if es[k - 1].ip != ip then CellAt(p, es, ip, k - 1)
    else CellAttempt(p, CellAt(p, es, ip, k - 1), es[k - 1].valid, es[k - 1].now).0
  }

  /** The answer of the limiter that never evicts. */
  ghost function Ideal(p: Policy, es: seq<Event>, k: nat): int
    requires p.Valid() && k < |es|
  {
    CellAttempt(p, CellAt(p, es, es[k].ip, k), es[k].valid, es[k].now).1
  }

  ghost predicate Seen(es: seq<Event>, ip: string, k: nat)
    requires k <= |es|
  {
    exists j :: 0 <= j < k && es[j].ip == ip
  }

  /** The distinct other IPs that attempted since the last attempt of this IP before event k. */
  ghost function Others(es: seq<Event>, ip: string, k: nat): set<string>
    requires k <= |es|
  {
    if k == 0 || es[k - 1].ip == ip then {} else Others(es, ip, k - 1) + {es[k - 1].ip}
  }

  /** Fewer than maxIPs other IPs attempt between consecutive attempts of this IP. */
  ghost predicate SmallWorkingSet(p: Policy, es: seq<Event>, ip: string) {
    forall k :: 0 <= k < |es| && es[k].ip == ip && Seen(es, ip, k) ==> |Others(es, ip, k)| < p.maxIPs
  }

  // ----- the list is in recency order -----

  /** The IPs more recent than ip. */
  ghost function After(order: seq<string>, ip: string): seq<string> {
    if order == [] then [] else if order[0] == ip then order[1..] else After(order[1..], ip)
  }

  lemma {:induction false} AfterTouched(order: seq<string>, ip: string, q: string)
    requires q != ip && Distinct(order) && ip in order
    ensures Elements(After(Without(order, q) + [q], ip)) == Elements(After(order, ip)) + {q}
    ensures Elements(After(Without(order, q), ip)) == Elements(After(order, ip)) - {q}
  {
    var rest := order[1..];
    assert order == [order[0]] + rest;
    if order[0] == ip {
      WithoutElements(rest, q);
      WithoutDistinct(rest, q);
      assert Without(order, q) == [ip] + Without(rest, q);
      assert (Without(order, q) + [q])[1..] == Without(rest, q) + [q];
    } else if order[0] == q {
      assert Without(order, q) == rest;
      AfterAppend(rest, ip, q);
      AfterElements(rest, ip);
    } else {
      AfterTouched(rest, ip, q);
      assert Without(order, q) == [order[0]] + Without(rest, q);
      assert (Without(order, q) + [q])[1..] == Without(rest, q) + [q];
      assert Without(order, q)[1..] == Without(rest, q);
    }
  }

  lemma {:induction false} AfterElements(order: seq<string>, ip: string)
    ensures forall q :: q in After(order, ip) ==> q in order
  {
    if order != [] && order[0] != ip {
      AfterElements(order[1..], ip);
    }
  }

  lemma {:induction false} AfterAppend(order: seq<string>, ip: string, q: string)
    requires ip in order
    ensures After(order + [q], ip) == After(order, ip) + [q]
  {
    assert (order + [q])[1..] == order[1..] + [q];
    if order[0] != ip {
      AfterAppend(order[1..], ip, q);
    }
  }

  lemma {:induction false} AfterSelf(order: seq<string>, ip: string)
    requires ip !in order
    ensures After(order + [ip], ip) == []
  {
    if order == [] {
      assert order + [ip] == [ip];
    } else {
      assert (order + [ip])[1..] == order[1..] + [ip];
      AfterSelf(order[1..], ip);
    }
  }

  /** How one attempt of another IP moves ip in the list. */
  lemma OtherStep(p: Policy, t: Table, ip: string, q: string, valid: bool, now: Time)
    requires p.Valid() && t.Valid(p) && q != ip && ip in t.records
    ensures var t' := TableAttempt(p, t, q, valid, now).0;
            var c := CellAttempt(p, t.Lookup(q), valid, now).0;
            if ip in t'.records then
              && t'.records[ip] == t.records[ip]
              && Elements(After(t'.order, ip)) ==
                 (if c.Some? then Elements(After(t.order, ip)) + {q} else Elements(After(t.order, ip)) - {q})
            else
              c.Some? && q !in t.records && |Elements(After(t.order, ip)) + {q}| == p.maxIPs
  {
    AfterTouched(t.order, ip, q);
    if q !in t.records {
      WithoutElements(t.order, q);
      if |t.order| >= p.maxIPs {
        var rest := t.order[1..];
        assert t.order == [t.order[0]] + rest;
        if t.order[0] == ip {
          DistinctSize(rest);
          assert After(t.order, ip) == rest;
          assert q !in rest;
        } else {
          AfterAppend(rest, ip, q);
        }
      }
    }
  }

  /** An attempt of ip itself leaves it last in the list, if it is tracked at all. */
  lemma OwnStep(p: Policy, t: Table, ip: string, valid: bool, now: Time)
    requires p.Valid() && t.Valid(p)
    ensures var t' := TableAttempt(p, t, ip, valid, now).0;
            && t'.Lookup(ip) == CellAttempt(p, t.Lookup(ip), valid, now).0
            && (ip in t'.records ==> After(t'.order, ip) == [])
  {
    WithoutDistinct(t.order, ip);
    AfterSelf(Without(t.order, ip), ip);
    if ip !in t.records {
      var room := Evict(p, t);
      if |t.order| >= p.maxIPs {
        assert t.order == [t.order[0]] + t.order[1..];
      }
      AfterSelf(room.order, ip);
    }
  }

  lemma {:induction false} OnlySeenTracked(p: Policy, es: seq<Event>, ip: string, k: nat)
    requires p.Valid() && k <= |es|
    ensures ip in TableAt(p, es, k).records || CellAt(p, es, ip, k).Some? ==> Seen(es, ip, k)
  {
    if k > 0 {
      OnlySeenTracked(p, es, ip, k - 1);
    }
  }

  /** The IPs more recent than ip are among others, and while these are few ip keeps its record. */
  ghost predicate Keeps(p: Policy, t: Table, ip: string, cell: Cell, others: set<string>) {
    && (ip in t.records ==> Elements(After(t.order, ip)) <= others)
    && (|others| < p.maxIPs ==> t.Lookup(ip) == cell)
  }

  lemma KeepsOwn(p: Policy, t: Table, e: Event, cell: Cell)
    requires p.Valid() && t.Valid(p) && t.Lookup(e.ip) == cell
    ensures Keeps(p, TableAttempt(p, t, e.ip, e.valid, e.now).0, e.ip, CellAttempt(p, cell, e.valid, e.now).0, {})
  {
    OwnStep(p, t, e.ip, e.valid, e.now);
  }

  lemma KeepsOther(p: Policy, t: Table, ip: string, e: Event, cell: Cell, others: set<string>)
    requires p.Valid() && t.Valid(p) && e.ip != ip && Keeps(p, t, ip, cell, others)
    ensures Keeps(p, TableAttempt(p, t, e.ip, e.valid, e.now).0, ip, cell, others + {e.ip})
  {
    SubsetSize(others, others + {e.ip});
    if ip in t.records {
      OtherStep(p, t, ip, e.ip, e.valid, e.now);
      SubsetSize(Elements(After(t.order, ip)) + {e.ip}, others + {e.ip});
    }
  }

  /** While its working set is small, an IP keeps exactly the record it would have without eviction. */
  lemma {:induction false} Retained(p: Policy, es: seq<Event>, ip: string, k: nat)
    requires p.Valid() && k <= |es| && SmallWorkingSet(p, es, ip)
    ensures Keeps(p, TableAt(p, es, k), ip, CellAt(p, es, ip, k), Others(es, ip, k))
  {
    if k > 0 {
      Retained(p, es, ip, k - 1);
      TableAtValid(p, es, k - 1);
      var t, e, cell := TableAt(p, es, k - 1), es[k - 1], CellAt(p, es, ip, k - 1);
      if e.ip == ip {
        OnlySeenTracked(p, es, ip, k - 1);
        KeepsOwn(p, t, e, cell);
      } else {
        KeepsOther(p, t, ip, e, cell, Others(es, ip, k - 1));
      }
    }
  }

  /** Main result: the bounded cache refines the unbounded per-IP limiter. Whenever fewer than
      maxIPs distinct other IPs attempt between consecutive attempts of an IP, every answer it
      gets is the answer of a limiter that never evicts. */
  lemma BoundedRefinesUnbounded(p: Policy, es: seq<Event>, ip: string, k: nat)
    requires p.Valid() && SmallWorkingSet(p, es, ip)
    requires k < |es| && es[k].ip == ip
    ensures Answer(p, es, k) == Ideal(p, es, k)
  {
    Retained(p, es, ip, k);
    OnlySeenTracked(p, es, ip, k);
  }

  /** The IP is tracked exactly while few others have attempted, and those are the ones after it. */
  ghost predicate Exact(p: Policy, t: Table, ip: string, seen: bool, others: set<string>) {
    && (ip in t.records <==> seen && |others| < p.maxIPs)
    && (ip in t.records ==> Elements(After(t.order, ip)) == others)
  }

  lemma ExactOwn(p: Policy, t: Table, ip: string, now: Time)
    requires p.Valid() && t.Valid(p)
    ensures Exact(p, TableAttempt(p, t, ip, false, now).0, ip, true, {})
  {
    OwnStep(p, t, ip, false, now);
  }

  lemma ExactOther(p: Policy, t: Table, ip: string, e: Event, seen: bool, others: set<string>)
    requires p.Valid() && t.Valid(p) && e.ip != ip && !e.valid && Exact(p, t, ip, seen, others)
    ensures Exact(p, TableAttempt(p, t, e.ip, e.valid, e.now).0, ip, seen, others + {e.ip})
  {
    SubsetSize(others, others + {e.ip});
    OtherFailure(p, t, ip, e);
  }

  lemma SeenNext(es: seq<Event>, ip: string, k: nat)
    requires k < |es|
    ensures Seen(es, ip, k + 1) <==> Seen(es, ip, k) || es[k].ip == ip
  {
  }

  /** In a run of failures only, an IP is tracked exactly while fewer than maxIPs other IPs
      have attempted since its last attempt: the working-set bound cannot be relaxed. */
  lemma {:induction false} TrackedExactly(p: Policy, es: seq<Event>, ip: string, k: nat)
    requires p.Valid() && k <= |es| && forall j :: 0 <= j < k ==> !es[j].valid
    ensures Exact(p, TableAt(p, es, k), ip, Seen(es, ip, k), Others(es, ip, k))
  {
    if k > 0 {
      TrackedExactly(p, es, ip, k - 1);
      TableAtValid(p, es, k - 1);
      SeenNext(es, ip, k - 1);
      var t, e := TableAt(p, es, k - 1), es[k - 1];
      if e.ip == ip {
        ExactOwn(p, t, ip, e.now);
      } else {
        ExactOther(p, t, ip, e, Seen(es, ip, k - 1), Others(es, ip, k - 1));
      }
    }
  }

  lemma OtherFailure(p: Policy, t: Table, ip: string, e: Event)
    requires p.Valid() && t.Valid(p) && e.ip != ip && !e.valid
    ensures var t' := TableAttempt(p, t, e.ip, e.valid, e.now).0;
            && (ip !in t.records ==> ip !in t'.records)
            && (ip in t.records ==>
                 var others := Elements(After(t.order, ip)) + {e.ip};
                 && (ip in t'.records <==> |others| < p.maxIPs)
                 && (ip in t'.records ==> Elements(After(t'.order, ip)) == others))
  {
    if ip in t.records {
      OtherStep(p, t, ip, e.ip, e.valid, e.now);
      AttemptValid(p, t, e.ip, e.valid, e.now);
      AfterSize(p, TableAttempt(p, t, e.ip, e.valid, e.now).0, ip);
    }
  }

  lemma AfterSize(p: Policy, t: Table, ip: string)
    requires t.Valid(p)
    ensures ip in t.records ==> |Elements(After(t.order, ip))| < p.maxIPs
  {
    if ip in t.records {
      AfterDistinct(t.order, ip);
      DistinctSize(After(t.order, ip));
    }
  }

  lemma {:induction false} AfterDistinct(order: seq<string>, ip: string)
    requires Distinct(order) && ip in order
    ensures Distinct(After(order, ip)) && |After(order, ip)| < |order|
  {
    if order[0] != ip {
      AfterDistinct(order[1..], ip);
    }
  }

  /** What a larger working set costs: once maxIPs others have failed since, the failure that
      should start a block is answered 0. */
  lemma {:induction false} EvictionForgets(p: Policy, es: seq<Event>, k: nat)
    requires p.Valid() && p.maxAttempts >= 2 && k < |es| && forall j :: 0 <= j <= k ==> !es[j].valid
    requires |Others(es, es[k].ip, k)| >= p.maxIPs
    requires var c := CellAt(p, es, es[k].ip, k);
             c.Some? && c.value.count == p.maxAttempts - 1 && es[k].now - c.value.windowStart < p.window
    ensures Ideal(p, es, k) == p.block && Answer(p, es, k) == 0
  {
    TrackedExactly(p, es, es[k].ip, k);
  }

  // ----- the guess bound -----

  ghost function Sum(s: seq<int>, a: nat, b: nat): int
    requires a <= b <= |s|
  {
    if a == b then 0 else Sum(s, a, b - 1) + s[b - 1]
  }

  /** 1 for each event of an IP that the unbounded limiter answers 0. */
  ghost function Passes(p: Policy, es: seq<Event>, ip: string): (r: seq<int>)
    requires p.Valid()
    ensures |r| == |es|
  {
    seq(|es|, k requires 0 <= k < |es| => if es[k].ip == ip && Ideal(p, es, k) == 0 then 1 else 0)
  }

  /** The events of an IP in [a, b) that the unbounded limiter answers 0. */
  ghost function Passed(p: Policy, es: seq<Event>, ip: string, a: nat, b: nat): int
    requires p.Valid() && a <= b <= |es|
  {
    Sum(Passes(p, es, ip), a, b)
  }

  /** Event k is one of this IP that the bounded limiter answers 0. */
  ghost predicate IsUnblocked(p: Policy, es: seq<Event>, ip: string, k: nat)
    requires p.Valid() && k < |es|
  {
    es[k].ip == ip && Answer(p, es, k) == 0
  }

  ghost function Unblocks(p: Policy, es: seq<Event>, ip: string): (r: seq<int>)
    requires p.Valid()
    ensures |r| == |es|
  {
    seq(|es|, k requires 0 <= k < |es| => if IsUnblocked(p, es, ip, k) then 1 else 0)
  }

  /** The events of an IP in [a, b) that the bounded limiter answers 0. */
  ghost function Unblocked(p: Policy, es: seq<Event>, ip: string, a: nat, b: nat): int
    requires p.Valid() && a <= b <= |es|
  {
    Sum(Unblocks(p, es, ip), a, b)
  }

  /** The failures of an IP with times in [start, start + window) and no valid login among them. */
  ghost predicate GuessSpan(p: Policy, es: seq<Event>, ip: string, a: nat, b: nat, start: Time)
    requires a <= b <= |es|
  {
    forall k :: a <= k < b && es[k].ip == ip ==> !es[k].valid && start <= es[k].now < start + p.window
  }

  /** How many more failures may be answered 0 before start + window. */
  ghost function Allowance(p: Policy, c: Cell, start: Time): int {
    if c.None? then p.maxAttempts - 1
    else if c.value.blockedUntil.Some? then (if c.value.blockedUntil.value >= start + p.window then 0 else p.maxAttempts - 1)
    else if c.value.windowStart >= start then p.maxAttempts - 1 - c.value.count
    else 2 * p.maxAttempts - 2 - c.value.count
  }

  ghost function GuessLimit(p: Policy): int {
    if p.maxAttempts == 1 then 0 else 2 * p.maxAttempts - 3
  }

  /** What is gained in a stretch comes out of the level at its start and what is put back meanwhile. */
  lemma {:induction false} Telescopes(gain: seq<int>, back: seq<int>, level: seq<int>, a: nat, b: nat)
    requires a <= b <= |gain| == |back| && |level| == |gain| + 1
    requires forall k :: a <= k < b ==> gain[k] + level[k + 1] <= level[k] + back[k]
    ensures Sum(gain, a, b) + level[b] <= level[a] + Sum(back, a, b)
  {
    if a < b {
      Telescopes(gain, back, level, a, b - 1);
      assert gain[b - 1] + level[b - 1 + 1] <= level[b - 1] + back[b - 1];
    }
  }

  lemma {:induction false} SumOfZeros(s: seq<int>, a: nat, b: nat)
    requires a <= b <= |s| && forall k :: a <= k < b ==> s[k] == 0
    ensures Sum(s, a, b) == 0
  {
    if a < b {
      SumOfZeros(s, a, b - 1);
    }
  }

  lemma {:induction false} SumOfNats(s: seq<int>, a: nat, b: nat)
    requires a <= b <= |s| && forall k :: a <= k < b ==> s[k] >= 0
    ensures Sum(s, a, b) >= 0
  {
    if a < b {
      SumOfNats(s, a, b - 1);
    }
  }

  lemma {:induction false} SumAtMost(s: seq<int>, t: seq<int>, a: nat, b: nat)
    requires a <= b <= |s| == |t| && forall k :: a <= k < b ==> s[k] <= t[k]
    ensures Sum(s, a, b) <= Sum(t, a, b)
  {
    if a < b {
      SumAtMost(s, t, a, b - 1);
    }
  }

  lemma IdealAllowanceStep(p: Policy, es: seq<Event>, ip: string, k: nat, start: Time)
    requires p.Valid() && p.block >= p.window && k < |es|
    requires es[k].ip == ip ==> !es[k].valid && start <= es[k].now < start + p.window
    ensures Passes(p, es, ip)[k] + Allowance(p, CellAt(p, es, ip, k + 1), start) <= Allowance(p, CellAt(p, es, ip, k), start)
  {
  }

  lemma AllowanceSpent(p: Policy, es: seq<Event>, ip: string, a: nat, b: nat, start: Time)
    requires p.Valid() && p.block >= p.window && a <= b <= |es| && GuessSpan(p, es, ip, a, b, start)
    ensures Passed(p, es, ip, a, b) + Allowance(p, CellAt(p, es, ip, b), start) <= Allowance(p, CellAt(p, es, ip, a), start)
  {
    var gain, back := Passes(p, es, ip), seq(|es|, _ => 0);
    var level := seq(|es| + 1, k requires 0 <= k <= |es| => Allowance(p, CellAt(p, es, ip, k), start));
    forall k | a <= k < b ensures gain[k] + level[k + 1] <= level[k] + back[k] {
      IdealAllowanceStep(p, es, ip, k, start);
    }
    Telescopes(gain, back, level, a, b);
    SumOfZeros(back, a, b);
  }

  /** At most two counting windows overlap the span, and the first has already used an attempt:
      2 * maxAttempts - 3 guesses, one better than counting both windows in full. */
  lemma GuessBoundUnbounded(p: Policy, es: seq<Event>, ip: string, a: nat, b: nat, start: Time)
    requires p.Valid() && p.block >= p.window && a <= b <= |es| && GuessSpan(p, es, ip, a, b, start)
    ensures Passed(p, es, ip, a, b) <= if p.maxAttempts == 1 then 0 else 2 * p.maxAttempts - 3
  {
    AllowanceSpent(p, es, ip, a, b, start);
  }

  /** Event k makes room by dropping the record of this IP. */
  ghost predicate Evicts(p: Policy, es: seq<Event>, ip: string, k: nat)
    requires p.Valid() && k < |es|
  {
    es[k].ip != ip && ip in TableAt(p, es, k).records && ip !in TableAt(p, es, k + 1).records
  }

  /** Others evict the record of this IP in [a, b). */
  ghost predicate Evicted(p: Policy, es: seq<Event>, ip: string, a: nat, b: nat)
    requires p.Valid() && a <= b <= |es|
  {
    exists k :: a <= k < b && Evicts(p, es, ip, k)
  }

  ghost function Forgives(p: Policy, es: seq<Event>, ip: string): (r: seq<int>)
    requires p.Valid()
    ensures |r| == |es|
  {
    seq(|es|, k requires 0 <= k < |es| => if Evicts(p, es, ip, k) then p.maxAttempts - 1 else 0)
  }

  /** What evictions of an IP in [a, b) forgive: up to maxAttempts - 1 failures each. */
  ghost function Forgiven(p: Policy, es: seq<Event>, ip: string, a: nat, b: nat): int
    requires p.Valid() && a <= b <= |es|
  {
    Sum(Forgives(p, es, ip), a, b)
  }

  /** One attempt of the IP itself that passes spends the allowance of its record. */
  lemma OwnAllowance(p: Policy, t: Table, ip: string, now: Time, start: Time)
    requires p.Valid() && p.block >= p.window && t.Valid(p) && start <= now < start + p.window
    ensures var (t', wait) := TableAttempt(p, t, ip, false, now);
            (if wait == 0 then 1 else 0) + Allowance(p, t'.Lookup(ip), start) <= Allowance(p, t.Lookup(ip), start)
  {
    OwnStep(p, t, ip, false, now);
  }

  /** An attempt of another IP leaves the allowance alone or, when it evicts, restores some of it. */
  lemma OtherAllowance(p: Policy, t: Table, ip: string, e: Event, start: Time)
    requires p.Valid() && t.Valid(p) && e.ip != ip
    ensures var t' := TableAttempt(p, t, e.ip, e.valid, e.now).0;
            var evicted := ip in t.records && ip !in t'.records;
            Allowance(p, t'.Lookup(ip), start) <= Allowance(p, t.Lookup(ip), start) + if evicted then p.maxAttempts - 1 else 0
  {
    OtherKeeps(p, t, ip, e);
  }

  /** The allowance of the record that the bounded limiter has before event k. */
  ghost function AllowanceAt(p: Policy, es: seq<Event>, ip: string, k: nat, start: Time): int
    requires p.Valid() && k <= |es|
  {
    Allowance(p, TableAt(p, es, k).Lookup(ip), start)
  }

  lemma AllowanceStep(p: Policy, es: seq<Event>, ip: string, k: nat, start: Time)
    requires p.Valid() && p.block >= p.window && k < |es|
    requires es[k].ip == ip ==> !es[k].valid && start <= es[k].now < start + p.window
    ensures (if IsUnblocked(p, es, ip, k) then 1 else 0) + AllowanceAt(p, es, ip, k + 1, start) <=
            AllowanceAt(p, es, ip, k, start) + if Evicts(p, es, ip, k) then p.maxAttempts - 1 else 0
  {
    TableAtValid(p, es, k);
    if es[k].ip == ip {
      OwnAllowance(p, TableAt(p, es, k), ip, es[k].now, start);
    } else {
      OtherAllowance(p, TableAt(p, es, k), ip, es[k], start);
    }
  }

  lemma UnblockedSpend(p: Policy, es: seq<Event>, ip: string, a: nat, b: nat, start: Time)
    requires p.Valid() && p.block >= p.window && a <= b <= |es| && GuessSpan(p, es, ip, a, b, start)
    ensures Unblocked(p, es, ip, a, b) + AllowanceAt(p, es, ip, b, start) <=
            AllowanceAt(p, es, ip, a, start) + Forgiven(p, es, ip, a, b)
  {
    var gain, back := Unblocks(p, es, ip), Forgives(p, es, ip);
    var level := seq(|es| + 1, k requires 0 <= k <= |es| => AllowanceAt(p, es, ip, k, start));
    forall k | a <= k < b ensures gain[k] + level[k + 1] <= level[k] + back[k] {
      AllowanceStep(p, es, ip, k, start);
    }
    Telescopes(gain, back, level, a, b);
  }

  lemma AllowanceRange(p: Policy, es: seq<Event>, ip: string, k: nat, start: Time)
    requires p.Valid() && k <= |es|
    ensures 0 <= AllowanceAt(p, es, ip, k, start) <= GuessLimit(p)
  {
    TableAtValid(p, es, k);
  }

  /** Main result, for every run: with block >= window, attempts of one IP that span less than a
      window contain at most 2 * maxAttempts - 3 failures that pass unblocked (none when maxAttempts
      is 1), and maxAttempts - 1 more for each time that others evict its record meanwhile. */
  lemma GuessBound(p: Policy, es: seq<Event>, ip: string, a: nat, b: nat, start: Time)
    requires p.Valid() && p.block >= p.window && a <= b <= |es| && GuessSpan(p, es, ip, a, b, start)
    ensures Unblocked(p, es, ip, a, b) <= (if p.maxAttempts == 1 then 0 else 2 * p.maxAttempts - 3) + Forgiven(p, es, ip, a, b)
  {
    UnblockedSpend(p, es, ip, a, b, start);
    AllowanceRange(p, es, ip, a, start);
    AllowanceRange(p, es, ip, b, start);
  }

  /** The plain bound needs only that the record is not evicted within the stretch. */
  lemma GuessBoundUnevicted(p: Policy, es: seq<Event>, ip: string, a: nat, b: nat, start: Time)
    requires p.Valid() && p.block >= p.window && a <= b <= |es| && GuessSpan(p, es, ip, a, b, start)
    requires !Evicted(p, es, ip, a, b)
    ensures Unblocked(p, es, ip, a, b) <= if p.maxAttempts == 1 then 0 else 2 * p.maxAttempts - 3
  {
    GuessBound(p, es, ip, a, b, start);
    SumOfZeros(Forgives(p, es, ip), a, b);
  }

  lemma {:induction false} AfterAreOthers(p: Policy, es: seq<Event>, ip: string, k: nat)
    requires p.Valid() && k <= |es|
    ensures ip in TableAt(p, es, k).records ==> Elements(After(TableAt(p, es, k).order, ip)) <= Others(es, ip, k)
  {
    if k > 0 {
      AfterAreOthers(p, es, ip, k - 1);
      TableAtValid(p, es, k - 1);
      var t, e := TableAt(p, es, k - 1), es[k - 1];
      if e.ip == ip {
        OwnStep(p, t, ip, e.valid, e.now);
      } else if ip in t.records {
        OtherStep(p, t, ip, e.ip, e.valid, e.now);
      }
    }
  }

  /** A record is evicted only once maxIPs distinct others have attempted since its last attempt. */
  lemma EvictionTakesOthers(p: Policy, es: seq<Event>, ip: string, k: nat)
    requires p.Valid() && k < |es| && Evicts(p, es, ip, k)
    ensures |Others(es, ip, k + 1)| >= p.maxIPs
  {
    AfterAreOthers(p, es, ip, k);
    TableAtValid(p, es, k);
    var t, e := TableAt(p, es, k), es[k];
    OtherStep(p, t, ip, e.ip, e.valid, e.now);
    SubsetSize(Elements(After(t.order, ip)) + {e.ip}, Others(es, ip, k + 1));
  }

  // ----- the same bound in terms of what others send -----

  ghost function OtherFlags(es: seq<Event>, ip: string): (r: seq<int>)
    ensures |r| == |es|
  {
    seq(|es|, k requires 0 <= k < |es| => if es[k].ip != ip then 1 else 0)
  }

  /** The attempts of other IPs in [a, b). */
  ghost function OtherAttempts(es: seq<Event>, ip: string, a: nat, b: nat): nat
    requires a <= b <= |es|
  {
    SumOfNats(OtherFlags(es, ip), a, b);
    Sum(OtherFlags(es, ip), a, b)
  }

  ghost function EvictFlags(p: Policy, es: seq<Event>, ip: string): (r: seq<int>)
    requires p.Valid()
    ensures |r| == |es|
  {
    seq(|es|, k requires 0 <= k < |es| => if Evicts(p, es, ip, k) then 1 else 0)
  }

  /** How often the record of an IP is evicted in [a, b). */
  ghost function Evictions(p: Policy, es: seq<Event>, ip: string, a: nat, b: nat): nat
    requires p.Valid() && a <= b <= |es|
  {
    SumOfNats(EvictFlags(p, es, ip), a, b);
    Sum(EvictFlags(p, es, ip), a, b)
  }

  /** The distinct others since the last attempt of an IP that is tracked before event k. */
  ghost function Pressure(p: Policy, es: seq<Event>, ip: string, k: nat): nat
    requires p.Valid() && k <= |es|
  {
    if ip in TableAt(p, es, k).records then |Others(es, ip, k)| else 0
  }

  lemma OneMoreOther(es: seq<Event>, ip: string, k: nat)
    requires k < |es| && es[k].ip != ip
    ensures |Others(es, ip, k + 1)| <= |Others(es, ip, k)| + 1
  {
    assert Others(es, ip, k + 1) == Others(es, ip, k) + {es[k].ip};
  }

  lemma OthersDoNotTrack(p: Policy, es: seq<Event>, ip: string, k: nat)
    requires p.Valid() && k < |es| && es[k].ip != ip && ip !in TableAt(p, es, k).records
    ensures ip !in TableAt(p, es, k + 1).records
  {
    OtherKeeps(p, TableAt(p, es, k), ip, es[k]);
  }

  /** One event raises the pressure by at most its own attempt; an eviction releases maxIPs of it. */
  lemma PressureStep(p: Policy, es: seq<Event>, ip: string, k: nat)
    requires p.Valid() && k < |es|
    ensures var more := if es[k].ip != ip then 1 else 0;
            if Evicts(p, es, ip, k) then
              Pressure(p, es, ip, k + 1) == 0 && p.maxIPs <= Pressure(p, es, ip, k) + more
            else
              Pressure(p, es, ip, k + 1) <= Pressure(p, es, ip, k) + more
  {
    if es[k].ip != ip {
      OneMoreOther(es, ip, k);
      if Evicts(p, es, ip, k) {
        EvictionTakesOthers(p, es, ip, k);
      } else if ip !in TableAt(p, es, k).records {
        OthersDoNotTrack(p, es, ip, k);
      }
    }
  }

  /** Step k raises the level by at most what it takes in, or empties one that reaches m with it. */
  ghost predicate Releases(released: int, taken: int, level: int, next: int, m: nat) {
    if released == 1 then next == 0 && m <= level + taken else released == 0 && next <= level + taken
  }

  /** What is released m at a time, after the first time, was taken in before. */
  lemma {:induction false} Released(released: seq<int>, taken: seq<int>, level: seq<int>, m: nat, a: nat, b: nat)
    requires a <= b <= |released| == |taken| && |level| == |taken| + 1
    requires forall k :: 0 <= k < |taken| ==> 0 <= taken[k] && 0 <= level[k]
    requires forall k :: a <= k < b ==> Releases(released[k], taken[k], level[k], level[k + 1], m)
    ensures Sum(released, a, b) >= 0 && Sum(taken, a, b) >= 0
    ensures Sum(released, a, b) >= 1 ==> m * (Sum(released, a, b) - 1) + level[b] <= Sum(taken, a, b)
  {
    if a < b {
      Released(released, taken, level, m, a, b - 1);
      var k, n := b - 1, Sum(released, a, b - 1);
      assert Releases(released[k], taken[k], level[k], level[k + 1], m);
      if n >= 1 {
        OneMore(m, n - 1);
      }
    }
  }

  ghost function Pressures(p: Policy, es: seq<Event>, ip: string): (r: seq<int>)
    requires p.Valid()
    ensures |r| == |es| + 1 && forall k :: 0 <= k <= |es| ==> r[k] == Pressure(p, es, ip, k)
  {
    seq(|es| + 1, k requires 0 <= k <= |es| => Pressure(p, es, ip, k))
  }

  lemma PressureReleases(p: Policy, es: seq<Event>, ip: string, k: nat)
    requires p.Valid() && k < |es|
    ensures Releases(EvictFlags(p, es, ip)[k], OtherFlags(es, ip)[k], Pressure(p, es, ip, k), Pressure(p, es, ip, k + 1), p.maxIPs)
  {
    PressureStep(p, es, ip, k);
  }

  /** After the first eviction, each further one takes maxIPs attempts of others. */
  lemma EvictionsCost(p: Policy, es: seq<Event>, ip: string, a: nat, b: nat)
    requires p.Valid() && a <= b <= |es|
    ensures var n := Evictions(p, es, ip, a, b);
            n >= 1 ==> p.maxIPs * (n - 1) <= OtherAttempts(es, ip, a, b)
  {
    var evicted, sent, level := EvictFlags(p, es, ip), OtherFlags(es, ip), Pressures(p, es, ip);
    forall k | a <= k < b ensures Releases(evicted[k], sent[k], level[k], level[k + 1], p.maxIPs) {
      PressureReleases(p, es, ip, k);
    }
    Released(evicted, sent, level, p.maxIPs, a, b);
  }

  lemma ForgivenIsProduct(p: Policy, es: seq<Event>, ip: string, a: nat, b: nat)
    requires p.Valid() && a <= b <= |es|
    ensures Forgiven(p, es, ip, a, b) == (p.maxAttempts - 1) * Evictions(p, es, ip, a, b)
  {
    SumOfMultiples(Forgives(p, es, ip), EvictFlags(p, es, ip), p.maxAttempts - 1, a, b);
  }

  lemma {:induction false} SumOfMultiples(s: seq<int>, flags: seq<int>, h: nat, a: nat, b: nat)
    requires a <= b <= |s| == |flags|
    requires forall k :: 0 <= k < |s| ==> flags[k] in {0, 1} && s[k] == if flags[k] == 1 then h else 0
    ensures Sum(flags, a, b) >= 0 && Sum(s, a, b) == h * Sum(flags, a, b)
  {
    if a < b {
      SumOfMultiples(s, flags, h, a, b - 1);
      OneMore(h, Sum(flags, a, b - 1));
    }
  }

  lemma Rounded(u: int, g: int, h: nat, n: nat, m: nat, others: nat)
    requires m > 0 && u <= g + h * n && (n >= 1 ==> m * (n - 1) <= others)
    ensures n <= 1 + others / m && u <= g + h * (1 + others / m)
  {
    if n >= 1 {
      AtMostQuotient(m, n - 1, others);
    }
    Monotonous(h, n, 1 + others / m);
  }

  /** The guess bound by what a caller can count: others, too, have to attempt maxIPs times for each
      eviction but the first. */
  lemma GuessBoundByAttempts(p: Policy, es: seq<Event>, ip: string, a: nat, b: nat, start: Time)
    requires p.Valid() && p.block >= p.window && a <= b <= |es| && GuessSpan(p, es, ip, a, b, start)
    ensures Evictions(p, es, ip, a, b) <= 1 + OtherAttempts(es, ip, a, b) / p.maxIPs
    ensures Unblocked(p, es, ip, a, b) <=
            (if p.maxAttempts == 1 then 0 else 2 * p.maxAttempts - 3) + (p.maxAttempts - 1) * (1 + OtherAttempts(es, ip, a, b) / p.maxIPs)
  {
    GuessBound(p, es, ip, a, b, start);
    ForgivenIsProduct(p, es, ip, a, b);
    EvictionsCost(p, es, ip, a, b);
    Rounded(Unblocked(p, es, ip, a, b), GuessLimit(p), p.maxAttempts - 1, Evictions(p, es, ip, a, b), p.maxIPs,
            OtherAttempts(es, ip, a, b));
  }

  /** A run that reaches the bound: one early failure, then a burst on each side of the moment the
      first window ends. */
  ghost function Burst(p: Policy, ip: string): seq<Event>
    requires p.maxAttempts >= 2
  {
    seq(2 * p.maxAttempts - 2,
        k => Event(ip, false, if k == 0 then 0 else if k < p.maxAttempts - 1 then p.window - 1 else p.window))
  }

  /** The record after k events of the burst. */
  ghost function BurstRecord(p: Policy, k: nat): Cell {
    if k == 0 then None
    else if k < p.maxAttempts then Some(Record(k, 0, None))
    else Some(Record(k - (p.maxAttempts - 1), p.window, None))
  }

  lemma BurstStep(p: Policy, ip: string, k: nat)
    requires p.Valid() && p.maxAttempts >= 2 && p.window >= 2 && k < |Burst(p, ip)|
    ensures CellAttempt(p, BurstRecord(p, k), false, Burst(p, ip)[k].now) == (BurstRecord(p, k + 1), 0)
  {
  }

  lemma {:induction false} BurstCell(p: Policy, ip: string, k: nat)
    requires p.Valid() && p.maxAttempts >= 2 && p.window >= 2 && k <= |Burst(p, ip)|
    ensures CellAt(p, Burst(p, ip), ip, k) == BurstRecord(p, k)
    ensures k > 0 ==> Passed(p, Burst(p, ip), ip, 1, k) == k - 1
  {
    if k > 0 {
      BurstCell(p, ip, k - 1);
      BurstStep(p, ip, k - 1);
    }
  }

  lemma PassedIsUnblocked(p: Policy, es: seq<Event>, ip: string)
    requires p.Valid() && SmallWorkingSet(p, es, ip)
    ensures Passes(p, es, ip) == Unblocks(p, es, ip)
  {
    forall k | 0 <= k < |es| ensures Passes(p, es, ip)[k] == Unblocks(p, es, ip)[k] {
      if es[k].ip == ip {
        BoundedRefinesUnbounded(p, es, ip, k);
      }
    }
  }

  lemma {:induction false} NoOthers(es: seq<Event>, ip: string, k: nat)
    requires k <= |es| && forall j :: 0 <= j < |es| ==> es[j].ip == ip
    ensures Others(es, ip, k) == {}
  {
  }

  /** The bound is reached, without any eviction, for every policy that allows a failure and has a
      window of more than one tick of the clock: it cannot be improved. */
  lemma GuessBoundIsTight(p: Policy, ip: string)
    requires p.Valid() && p.maxAttempts >= 2 && p.window >= 2
    ensures GuessSpan(p, Burst(p, ip), ip, 1, |Burst(p, ip)|, p.window - 1)
    ensures Unblocked(p, Burst(p, ip), ip, 1, |Burst(p, ip)|) == 2 * p.maxAttempts - 3
  {
    var es := Burst(p, ip);
    BurstCell(p, ip, |es|);
    forall k | 0 <= k <= |es| ensures Others(es, ip, k) == {} {
      NoOthers(es, ip, k);
    }
    PassedIsUnblocked(p, es, ip);
  }

  // ----- every block is justified -----

  ghost function Failures(es: seq<Event>, ip: string, a: nat, b: nat): nat
    requires a <= b <= |es|
  {
    if a == b then 0 else Failures(es, ip, a, b - 1) + if es[b - 1].ip == ip && !es[b - 1].valid then 1 else 0
  }

  /** A counting window of this IP: it opens with the failure at a, and no login succeeds before b. */
  ghost predicate CountingWindow(es: seq<Event>, ip: string, a: nat, b: nat)
    requires a <= b <= |es|
  {
    a < b && es[a].ip == ip && forall k :: a <= k < b && es[k].ip == ip ==> !es[k].valid
  }

  /** The failures in [a, b) are the ones a record stands for; b is where counting stopped. */
  ghost predicate Backs(p: Policy, es: seq<Event>, ip: string, r: Record, k: nat, a: nat, b: nat)
    requires k <= |es|
  {
    && a < b <= k && CountingWindow(es, ip, a, b)
    && r.windowStart == es[a].now
    && Failures(es, ip, a, b) == r.count
    && (r.blockedUntil.None? ==> b == k)
    && (r.blockedUntil.Some? ==> es[b - 1].ip == ip && es[b - 1].now - es[a].now < p.window
                                 && r.blockedUntil.value == es[b - 1].now + p.block)
  }

  /** A failure of ip at k - 1 that counts in the window [a, k - 1), or opens one when a == k - 1. */
  lemma BacksCounted(p: Policy, es: seq<Event>, ip: string, r: Record, k: nat, a: nat)
    requires p.Valid() && 0 < k <= |es| && es[k - 1].ip == ip && !es[k - 1].valid
    requires r.blockedUntil.None? && es[k - 1].now - r.windowStart < p.window
    requires a < k && if a == k - 1 then r == Record(0, es[a].now, None) else Backs(p, es, ip, r, k - 1, a, k - 1)
    ensures Backs(p, es, ip, Counted(p, r, es[k - 1].now), k, a, k)
  {
    assert Failures(es, ip, k - 1, k - 1) == 0;
  }

  lemma BacksLater(p: Policy, es: seq<Event>, ip: string, r: Record, k: nat, a: nat, b: nat) returns (b': nat)
    requires k < |es| && es[k].ip != ip && Backs(p, es, ip, r, k, a, b)
    ensures Backs(p, es, ip, r, k + 1, a, b')
  {
    b' := if r.blockedUntil.None? then k + 1 else b;
  }

  /** How an attempt of ip itself, event k, carries the evidence on. */
  lemma BacksOwn(p: Policy, es: seq<Event>, c: Cell, k: nat, a: nat, b: nat) returns (a': nat, b': nat)
    requires p.Valid() && k < |es| && (c.Some? ==> Backs(p, es, es[k].ip, c.value, k, a, b))
    ensures var c' := CellAttempt(p, c, es[k].valid, es[k].now).0;
            c'.Some? ==> Backs(p, es, es[k].ip, c'.value, k + 1, a', b')
  {
    var e := es[k];
    a', b' := a, b;
    if !(c.Some? && Before(e.now, c.value.blockedUntil)) && !e.valid {
      b' := k + 1;
      if c.None? || c.value.blockedUntil.Some? || e.now - c.value.windowStart >= p.window {
        a' := k;
        BacksCounted(p, es, e.ip, Record(0, e.now, None), k + 1, k);
      } else {
        BacksCounted(p, es, e.ip, c.value, k + 1, a);
      }
    }
  }

  lemma EvidenceStep(p: Policy, es: seq<Event>, t: Table, ip: string, k: nat, a: nat, b: nat) returns (a': nat, b': nat)
    requires p.Valid() && t.Valid(p) && k < |es|
    requires ip in t.records ==> Backs(p, es, ip, t.records[ip], k, a, b)
    ensures var t' := TableAttempt(p, t, es[k].ip, es[k].valid, es[k].now).0;
            ip in t'.records ==> Backs(p, es, ip, t'.records[ip], k + 1, a', b')
  {
    a', b' := a, b;
    if ip == es[k].ip {
      OwnStep(p, t, ip, es[k].valid, es[k].now);
      a', b' := BacksOwn(p, es, t.Lookup(ip), k, a, b);
    } else {
      OtherKeeps(p, t, ip, es[k]);
      if ip in t.records {
        b' := BacksLater(p, es, ip, t.records[ip], k, a, b);
      }
    }
  }

  lemma {:induction false} Evidence(p: Policy, es: seq<Event>, ip: string, k: nat) returns (a: nat, b: nat)
    requires p.Valid() && k <= |es|
    ensures ip in TableAt(p, es, k).records ==> Backs(p, es, ip, TableAt(p, es, k).records[ip], k, a, b)
  {
    a, b := 0, 0;
    if k > 0 {
      a, b := Evidence(p, es, ip, k - 1);
      TableAtValid(p, es, k - 1);
      a, b := EvidenceStep(p, es, TableAt(p, es, k - 1), ip, k - 1, a, b);
    }
  }

  /** An attempt of another IP leaves a record alone or evicts it. */
  lemma OtherKeeps(p: Policy, t: Table, ip: string, e: Event)
    requires p.Valid() && e.ip != ip
    ensures var t' := TableAttempt(p, t, e.ip, e.valid, e.now).0;
            t'.Lookup(ip) == t.Lookup(ip) || t'.Lookup(ip) == None
  {
  }

  /** Addresses are counted apart: an attempt of one leaves the record of another alone, or evicts it,
      unless both are the empty address or its stand-in. */
  lemma AddressesApart(p: Policy, t: Table, a: string, b: string, valid: bool, now: Time)
    requires p.Valid() && a != b && (Proper(a) || Proper(b))
    ensures var t' := TableAttempt(p, t, Key(a), valid, now).0;
            t'.Lookup(Key(b)) == t.Lookup(Key(b)) || t'.Lookup(Key(b)) == None
  {
    KeyExactly(a, b);
    OtherKeeps(p, t, Key(b), Event(Key(a), valid, now));
  }

  /** Main result: over every run, evictions included, a positive answer means that exactly
      maxAttempts failures of this IP fell within less than one window with no valid login
      between, and it is what remains of the block that the last of them started. */
  lemma BlockIsJustified(p: Policy, es: seq<Event>, k: nat) returns (a: nat, b: nat)
    requires p.Valid() && k < |es| && Answer(p, es, k) > 0
    ensures a < b <= k + 1 && CountingWindow(es, es[k].ip, a, b) && es[b - 1].ip == es[k].ip
    ensures Failures(es, es[k].ip, a, b) == p.maxAttempts
    ensures es[b - 1].now - es[a].now < p.window
    ensures Answer(p, es, k) == es[b - 1].now + p.block - es[k].now
  {
    TableAtValid(p, es, k);
    OwnStep(p, TableAt(p, es, k), es[k].ip, es[k].valid, es[k].now);
    WaitSuffices(p, TableAt(p, es, k).Lookup(es[k].ip), es[k].valid, es[k].now);
    TableAtValid(p, es, k + 1);
    a, b := Evidence(p, es, es[k].ip, k + 1);
  }

  ghost predicate Monotone(es: seq<Event>) {
    forall i, j :: 0 <= i <= j < |es| ==> es[i].now <= es[j].now
  }

  lemma AnswerAtMostBlock(p: Policy, es: seq<Event>, k: nat)
    requires p.Valid() && k < |es| && Monotone(es)
    ensures 0 <= Answer(p, es, k) <= p.block
  {
    if Answer(p, es, k) > 0 {
      var a, b := BlockIsJustified(p, es, k);
    }
  }

  // ----- Retry-After -----

  const SECOND := 1_000_000_000

  /** The Retry-After header of internal/proxy/server.go: whole seconds, rounded up. */
  function RetryAfter(wait: int): (seconds: int)
    requires wait > 0
    ensures (seconds - 1) * 1_000_000_000 < wait <= seconds * 1_000_000_000
  {
    wait / SECOND + if wait % SECOND != 0 then 1 else 0
  }

  /** Main result: a client that was told to wait and returns with valid credentials after
      Retry-After seconds, not having tried in between, is let in; evictions do not matter. */
  lemma RetryAfterSuffices(p: Policy, es: seq<Event>, k: nat, n: nat)
    requires p.Valid() && k < n < |es| && Answer(p, es, k) > 0
    requires es[n].ip == es[k].ip && es[n].valid && forall j :: k < j < n ==> es[j].ip != es[k].ip
    requires es[n].now >= es[k].now + RetryAfter(Answer(p, es, k)) * 1_000_000_000
    ensures Answer(p, es, n) == 0
  {
    WaitIsExact(p, es, k, n);
  }

  /** A positive answer is the time left of the block in the new record. */
  lemma WaitSuffices(p: Policy, c: Cell, valid: bool, now: Time)
    requires p.Valid() && (c.Some? ==> RecordValid(p, c.value)) && CellAttempt(p, c, valid, now).1 > 0
    ensures var (c', wait) := CellAttempt(p, c, valid, now);
            c'.Some? && c'.value.blockedUntil == Some(now + wait)
  {
  }

  /** The wait is exact: valid credentials are refused before it ends, unless the record is evicted
      meanwhile, and accepted from then on. */
  lemma WaitIsExact(p: Policy, es: seq<Event>, k: nat, n: nat)
    requires p.Valid() && k < n < |es| && Answer(p, es, k) > 0
    requires es[n].ip == es[k].ip && es[n].valid && forall j :: k < j < n ==> es[j].ip != es[k].ip
    ensures Answer(p, es, n) == 0 <==>
            es[n].now >= es[k].now + Answer(p, es, k) || Evicted(p, es, es[k].ip, k + 1, n)
  {
    BlockedAfter(p, es, k);
    GoneIfEvicted(p, es, es[k].ip, k + 1, n);
    ValidAnswer(p, TableAt(p, es, n), es[n].ip, es[n].now);
  }

  /** After a positive answer the record says until when. */
  lemma BlockedAfter(p: Policy, es: seq<Event>, k: nat)
    requires p.Valid() && k < |es| && Answer(p, es, k) > 0
    ensures var c := TableAt(p, es, k + 1).Lookup(es[k].ip);
            c.Some? && c.value.blockedUntil == Some(es[k].now + Answer(p, es, k))
  {
    TableAtValid(p, es, k);
    OwnStep(p, TableAt(p, es, k), es[k].ip, es[k].valid, es[k].now);
    WaitSuffices(p, TableAt(p, es, k).Lookup(es[k].ip), es[k].valid, es[k].now);
  }

  /** Valid credentials are refused exactly while the record is blocked. */
  lemma ValidAnswer(p: Policy, t: Table, ip: string, now: Time)
    requires p.Valid()
    ensures TableAttempt(p, t, ip, true, now).1 == 0 <==>
            !(t.Lookup(ip).Some? && Before(now, t.Lookup(ip).value.blockedUntil))
  {
  }

  lemma OtherEvicts(p: Policy, es: seq<Event>, ip: string, k: nat)
    requires p.Valid() && k < |es| && es[k].ip != ip
    ensures TableAt(p, es, k + 1).Lookup(ip) == if Evicts(p, es, ip, k) then None else TableAt(p, es, k).Lookup(ip)
  {
    OtherKeeps(p, TableAt(p, es, k), ip, es[k]);
  }

  lemma EvictedNext(p: Policy, es: seq<Event>, ip: string, a: nat, b: nat)
    requires p.Valid() && a <= b < |es|
    ensures Evicted(p, es, ip, a, b + 1) <==> Evicted(p, es, ip, a, b) || Evicts(p, es, ip, b)
  {
  }

  /** While only others attempt, a record is as it was until it is evicted, and then stays away. */
  lemma {:induction false} GoneIfEvicted(p: Policy, es: seq<Event>, ip: string, k: nat, n: nat)
    requires p.Valid() && k <= n <= |es| && forall j :: k <= j < n ==> es[j].ip != ip
    ensures TableAt(p, es, n).Lookup(ip) == if Evicted(p, es, ip, k, n) then None else TableAt(p, es, k).Lookup(ip)
    decreases n - k
  {
    if k < n {
      GoneIfEvicted(p, es, ip, k, n - 1);
      OtherEvicts(p, es, ip, n - 1);
      EvictedNext(p, es, ip, k, n - 1);
    }
  }
}
