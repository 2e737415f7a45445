/** The concurrency limiter of internal/proxy/limits.go and the listener built on it.

    Acquired and Freed are the two critical sections of the limiter's mutex. ConcurrentLimiter and
    Slot are the program's objects, and Do is every interleaving of their critical sections. */
module Limits {
  import opened Prelude

  datatype Caps = Caps(maxTotal: int, maxPerKey: int)

  datatype Counts = Counts(total: int, perKey: map<string, int>) {
    /** perKey[key], where Go reads a missing key as zero. */
    function Of(key: string): int {
      if key in perKey then perKey[key] else 0
    }
  }

  /** The critical section of tryAcquire; None when a limit is reached. */
  function Acquired(caps: Caps, c: Counts, key: string): Option<Counts> {
    if c.total >= caps.maxTotal || c.Of(key) >= caps.maxPerKey then
      None
    else
      Some(Counts(c.total + 1, c.perKey[key := c.Of(key) + 1]))
  }

  /** The critical section of the release closure. */
  function Freed(c: Counts, key: string): Counts {
    var n := c.Of(key) - 1;
    Counts(c.total - 1, if n == 0 then c.perKey - {key} else c.perKey[key := n])
  }

  // ----- the objects -----

  class ConcurrentLimiter {
    const caps: Caps
    var total: int
    var perKey: map<string, int>

    ghost function Contents(): Counts
      reads this
    {
      Counts(total, perKey)
    }

    constructor (maxTotal: int, maxPerKey: int)
      ensures Contents() == Counts(0, map[]) && caps == Caps(maxTotal, maxPerKey)
    {
      caps := Caps(maxTotal, maxPerKey);
      total := 0;
      perKey := map[];
    }

    method TryAcquire(key: string) returns (slot: Slot?)
      modifies this
      ensures slot == null <==> Acquired(caps, old(Contents()), Key(key)).None?
      ensures slot == null ==> Contents() == old(Contents())
      ensures slot != null ==> Contents() == Acquired(caps, old(Contents()), Key(key)).value
      ensures slot != null ==> fresh(slot) && slot.limiter == this && !slot.done
      ensures slot != null ==> slot.key == if key == "" then "unknown" else key
    {
      var key := Key(key);
      var held := if key in perKey then perKey[key] else 0;
      if total >= caps.maxTotal || held >= caps.maxPerKey {
        return null;
      }
      total := total + 1;
      perKey := perKey[key := held + 1];
      slot := new Slot(this, key);
    }
  }

  /** The release closure of one grant, with its sync.Once. */
  class Slot {
    const limiter: ConcurrentLimiter
    const key: string
    var done: bool

    constructor (limiter: ConcurrentLimiter, key: string)
      ensures this.limiter == limiter && this.key == key && !done
    {
      this.limiter := limiter;
      this.key := key;
      done := false;
    }

    method Release()
      modifies this, limiter
      ensures done
      ensures limiter.Contents() == if old(done) then old(limiter.Contents()) else Freed(old(limiter.Contents()), key)
    {
      if !done {
        done := true;
        limiter.total := limiter.total - 1;
        var held := if key in limiter.perKey then limiter.perKey[key] else 0;
        limiter.perKey := limiter.perKey[key := held - 1];
        if limiter.perKey[key] == 0 {
          limiter.perKey := limiter.perKey - {key};
        }
      }
    }
  }

  /** A network connection, as far as the limiter is concerned. */
  class Connection {
    const host: string
    var open: bool

    constructor (host: string)
      ensures this.host == host && open
    {
      this.host := host;
      open := true;
    }
  }

  /** A connection that gives its slot back on the first Close. */
  class LimitedConnection {
    const inner: Connection
    const slot: Slot
    var once: bool

    constructor (inner: Connection, slot: Slot)
      ensures this.inner == inner && this.slot == slot && !once
    {
      this.inner := inner;
      this.slot := slot;
      once := false;
    }

    /** `once` runs the release only together with the slot's own flag. */
    ghost predicate Valid()
      reads this, slot
    {
      once ==> slot.done
    }

    method Close()
      requires Valid()
      modifies this, inner, slot, slot.limiter
      ensures Valid() && once && slot.done && !inner.open
      ensures slot.limiter.Contents() ==
              if old(slot.done) then old(slot.limiter.Contents()) else Freed(old(slot.limiter.Contents()), slot.key)
    {
      inner.open := false;
      if !once {
        once := true;
        slot.Release();
      }
    }
  }

  /** The counts after a number of slots have been given back. */
  ghost function FreedAll(c: Counts, keys: seq<string>): Counts {
    if keys == [] then c else Freed(FreedAll(c, keys[..|keys| - 1]), keys[|keys| - 1])
  }

  /** One arriving connection, and the keys of the slots that were freed since the one before. */
  datatype Arrival = Arrival(connection: Connection, freed: seq<string>)

  /** The counts that the arrival at `i` finds when every earlier one was turned away. */
  ghost function Found(c: Counts, arrivals: seq<Arrival>, i: nat): Counts
    requires i < |arrivals|
  {
    FreedAll(if i == 0 then c else Found(c, arrivals, i - 1), arrivals[i].freed)
  }

  ghost predicate TurnedAway(caps: Caps, c: Counts, arrivals: seq<Arrival>, i: nat)
    requires i < |arrivals|
  {
    Acquired(caps, Found(c, arrivals, i), Key(arrivals[i].connection.host)).None?
  }

  class LimitedListener {
    const limiter: ConcurrentLimiter

    constructor (maxTotal: int, maxPerIP: int)
      ensures limiter.Contents() == Counts(0, map[]) && limiter.caps == Caps(maxTotal, maxPerIP)
    {
      limiter := new ConcurrentLimiter(maxTotal, maxPerIP);
    }

    /** Slots that other goroutines give back while Accept waits. */
    method Depart(keys: seq<string>)
      modifies limiter
      ensures limiter.Contents() == FreedAll(old(limiter.Contents()), keys)
    {
      for i := 0 to |keys|
        invariant limiter.Contents() == FreedAll(old(limiter.Contents()), keys[..i])
      {
        assert keys[..i + 1][..i] == keys[..i];
        var other := new Slot(limiter, keys[i]);
        other.Release();
      }
      assert keys[..|keys|] == keys;
    }

    /** One round of Accept's loop: admits the arrival or closes it. */
    method Admit(arrival: Arrival) returns (accepted: LimitedConnection?)
      modifies limiter, arrival.connection
      ensures var c := FreedAll(old(limiter.Contents()), arrival.freed);
              var k := Key(arrival.connection.host);
              && (accepted == null <==> Acquired(limiter.caps, c, k).None?)
              && limiter.Contents() == if accepted == null then c else Acquired(limiter.caps, c, k).value
      ensures arrival.connection.open == (accepted != null && old(arrival.connection.open))
      ensures accepted != null ==>
                && fresh(accepted) && accepted.inner == arrival.connection && accepted.Valid()
                && fresh(accepted.slot) && accepted.slot.limiter == limiter && !accepted.slot.done
                && accepted.slot.key == Key(arrival.connection.host)
    {
      Depart(arrival.freed);
      var slot := limiter.TryAcquire(arrival.connection.host);
      if slot == null {
        arrival.connection.open := false;
        return null;
      }
      accepted := new LimitedConnection(arrival.connection, slot);
    }

    /** Accepts the first arrival that the limits admit and closes those before it; an error, here
        null, once the listener has no more arrivals. */
    method Accept(arrivals: seq<Arrival>) returns (accepted: LimitedConnection?, ghost at: nat)
      requires forall i, j :: 0 <= i < j < |arrivals| ==> arrivals[i].connection != arrivals[j].connection
      modifies limiter, set a <- arrivals :: a.connection
      ensures at <= |arrivals| && (accepted == null <==> at == |arrivals|)
      ensures forall i :: 0 <= i < at ==> TurnedAway(limiter.caps, old(limiter.Contents()), arrivals, i)
      ensures forall i :: 0 <= i < at ==> !arrivals[i].connection.open
      ensures forall i :: at <= i < |arrivals| ==> arrivals[i].connection.open == old(arrivals[i].connection.open)
      ensures accepted != null ==>
                && !TurnedAway(limiter.caps, old(limiter.Contents()), arrivals, at)
                && accepted.inner == arrivals[at].connection && accepted.Valid()
                && accepted.slot.limiter == limiter && !accepted.slot.done
                && accepted.slot.key == Key(arrivals[at].connection.host)
                && Some(limiter.Contents()) ==
                   Acquired(limiter.caps, Found(old(limiter.Contents()), arrivals, at), accepted.slot.key)
    {
      ghost var c := limiter.Contents();
      at := 0;
      for next := 0 to |arrivals|
        invariant at == next
        invariant limiter.Contents() == if next == 0 then c else Found(c, arrivals, next - 1)
        invariant forall i :: 0 <= i < next ==> TurnedAway(limiter.caps, c, arrivals, i)
        invariant forall i :: 0 <= i < next ==> !arrivals[i].connection.open
        invariant forall i :: next <= i < |arrivals| ==> arrivals[i].connection.open == old(arrivals[i].connection.open)
      {
        accepted := Admit(arrivals[next]);
        if accepted != null {
          return accepted, next;
        }
        at := next + 1;
      }
      accepted := null;
    }
  }

  // ----- every interleaving -----

  /** A grant is held until its once runs, and given back when its critical section has run. */
  datatype Phase = Held | Releasing | Released

  datatype Grant = Grant(host: string, key: string, phase: Phase)

  /** The counters and every grant made so far. */
  datatype System = System(counts: Counts, grants: seq<Grant>)

  datatype Step =
    | Acquire(host: string) // tryAcquire on some goroutine
    | Begin(grant: nat)     // a call of a release closure reaches its once
    | Finish(grant: nat)    // the critical section inside the once

  const START := System(Counts(0, map[]), [])

  /** One step of some goroutine; a release call after the first changes nothing. */
  function Do(caps: Caps, s: System, step: Step): System {
    match step
    case Acquire(host) =>
      var c := Acquired(caps, s.counts, Key(host));
      if c.Some? then System(c.value, s.grants + [Grant(host, Key(host), Held)]) else s
    case Begin(i) =>
      if i < |s.grants| && s.grants[i].phase == Held then s.(grants := s.grants[i := s.grants[i].(phase := Releasing)])
      else s
    case Finish(i) =>
      if i < |s.grants| && s.grants[i].phase == Releasing then
        System(Freed(s.counts, s.grants[i].key), s.grants[i := s.grants[i].(phase := Released)])
      else
        s
  }

  function Run(caps: Caps, s: System, steps: seq<Step>): System {
    if steps == [] then s else Do(caps, Run(caps, s, steps[..|steps| - 1]), steps[|steps| - 1])
  }

  /** The number of grants not yet given back. */
  function Live(grants: seq<Grant>): nat {
    if grants == [] then 0
    else Live(grants[..|grants| - 1]) + if grants[|grants| - 1].phase == Released then 0 else 1
  }

  /** The number of a key's grants not yet given back. */
  function LiveOf(grants: seq<Grant>, key: string): nat {
    if grants == [] then 0
    else
      var last := grants[|grants| - 1];
      LiveOf(grants[..|grants| - 1], key) + if last.phase == Released || last.key != key then 0 else 1
  }

  /** The number of grants to a host that are not yet given back. */
  function LiveTo(grants: seq<Grant>, host: string): nat {
    if grants == [] then 0
    else
      var last := grants[|grants| - 1];
      LiveTo(grants[..|grants| - 1], host) + if last.phase != Released && Together(last.host, host) then 1 else 0
  }

  /** Each grant is counted under the key of its host. */
  ghost predicate Labelled(grants: seq<Grant>) {
    forall i :: 0 <= i < |grants| ==> grants[i].key == Key(grants[i].host)
  }

  lemma {:induction false} LiveByHost(grants: seq<Grant>, host: string)
    requires Labelled(grants)
    ensures LiveTo(grants, host) == LiveOf(grants, Key(host))
  {
    if grants != [] {
      LiveByHost(grants[..|grants| - 1], host);
      KeyExactly(grants[|grants| - 1].host, host);
    }
  }

  lemma DoLabels(caps: Caps, s: System, step: Step)
    requires Labelled(s.grants)
    ensures Labelled(Do(caps, s, step).grants)
  {
  }

  lemma {:induction false} AlwaysLabelled(caps: Caps, steps: seq<Step>)
    ensures Labelled(Run(caps, START, steps).grants)
  {
    if steps != [] {
      AlwaysLabelled(caps, steps[..|steps| - 1]);
      DoLabels(caps, Run(caps, START, steps[..|steps| - 1]), steps[|steps| - 1]);
    }
  }

  ghost function Sum(m: map<string, int>): int {
    if m == map[] then 0 else var k :| k in m; m[k] + Sum(m - {k})
  }

  lemma {:induction false} SumSplit(m: map<string, int>, k: string)
    requires k in m
    ensures Sum(m) == m[k] + Sum(m - {k})
  {
    var c :| c in m && Sum(m) == m[c] + Sum(m - {c});
    if c != k {
      SumSplit(m - {c}, k);
      SumSplit(m - {k}, c);
      assert m - {c} - {k} == m - {k} - {c};
    }
  }

  /** The counters say exactly which grants are out: this is slot conservation. */
  ghost predicate Conserved(caps: Caps, s: System) {
    && s.counts.total == Live(s.grants) == Sum(s.counts.perKey)
    && (forall k :: s.counts.Of(k) == LiveOf(s.grants, k))
    && (forall k :: k in s.counts.perKey ==> 1 <= s.counts.perKey[k] <= caps.maxPerKey)
    && (s.grants != [] ==> s.counts.total <= caps.maxTotal)
  }

  lemma {:induction false} LiveAfter(grants: seq<Grant>, i: nat, phase: Phase)
    requires i < |grants| && grants[i].phase != Released
    ensures var after := grants[i := grants[i].(phase := phase)];
            var less := if phase == Released then 1 else 0;
            && Live(after) == Live(grants) - less
            && (forall k :: LiveOf(after, k) == LiveOf(grants, k) - if k == grants[i].key then less else 0)
  {
    var after := grants[i := grants[i].(phase := phase)];
    if i < |grants| - 1 {
      LiveAfter(grants[..|grants| - 1], i, phase);
      assert after[..|grants| - 1] == grants[..|grants| - 1][i := grants[i].(phase := phase)];
    } else {
      assert after[..i] == grants[..i];
    }
  }

  lemma {:induction false} LiveOfAtMost(grants: seq<Grant>, key: string)
    ensures LiveOf(grants, key) <= Live(grants)
  {
    if grants != [] {
      LiveOfAtMost(grants[..|grants| - 1], key);
    }
  }

  lemma AcquireConserves(caps: Caps, s: System, key: string)
    requires Conserved(caps, s)
    ensures Conserved(caps, Do(caps, s, Acquire(key)))
  {
    var k, m := Key(key), s.counts.perKey;
    var s' := Do(caps, s, Acquire(key));
    if Acquired(caps, s.counts, k).Some? {
      assert s'.grants[..|s.grants|] == s.grants;
      var m' := m[k := s.counts.Of(k) + 1];
      SumSplit(m', k);
      assert m' - {k} == m - {k};
      if k in m {
        SumSplit(m, k);
      } else {
        assert m - {k} == m;
      }
    }
  }

  lemma FinishConserves(caps: Caps, s: System, i: nat)
    requires Conserved(caps, s)
    ensures Conserved(caps, Do(caps, s, Finish(i)))
  {
    if i < |s.grants| && s.grants[i].phase == Releasing {
      LiveAfter(s.grants, i, Released);
      var k, m := s.grants[i].key, s.counts.perKey;
      LiveOfPositive(s.grants, i);
      SumSplit(m, k);
      var n := m[k] - 1;
      if n != 0 {
        SumSplit(m[k := n], k);
        assert m[k := n] - {k} == m - {k};
      }
    }
  }

  lemma {:induction false} LiveOfPositive(grants: seq<Grant>, i: nat)
    requires i < |grants| && grants[i].phase != Released
    ensures LiveOf(grants, grants[i].key) >= 1
  {
    if i < |grants| - 1 {
      LiveOfPositive(grants[..|grants| - 1], i);
    }
  }

  lemma DoConserves(caps: Caps, s: System, step: Step)
    requires Conserved(caps, s)
    ensures Conserved(caps, Do(caps, s, step))
  {
    match step
    case Acquire(key) => AcquireConserves(caps, s, key);
    case Begin(i) =>
      if i < |s.grants| && s.grants[i].phase == Held {
        LiveAfter(s.grants, i, Releasing);
      }
    case Finish(i) => FinishConserves(caps, s, i);
  }

  /** Slot conservation over every interleaving: the total is the number of grants not yet given
      back and the sum of the keys' counts, each key's count is the number of its own grants, no key
      is kept at zero, and both limits hold. */
  lemma {:induction false} SlotConservation(caps: Caps, steps: seq<Step>)
    ensures Conserved(caps, Run(caps, START, steps))
  {
    if steps != [] {
      SlotConservation(caps, steps[..|steps| - 1]);
      DoConserves(caps, Run(caps, START, steps[..|steps| - 1]), steps[|steps| - 1]);
    }
  }

  /** An acquire is refused exactly when that many grants are out, in all or to its own host: no slot is
      ever lost, none is counted twice, and none is counted for another host. */
  lemma RefusedExactly(caps: Caps, steps: seq<Step>, host: string)
    ensures var s := Run(caps, START, steps);
            Do(caps, s, Acquire(host)).grants == s.grants <==>
            Live(s.grants) >= caps.maxTotal || LiveTo(s.grants, host) >= caps.maxPerKey
  {
    SlotConservation(caps, steps);
    AlwaysLabelled(caps, steps);
    LiveByHost(Run(caps, START, steps).grants, host);
  }

  lemma {:induction false} NoneLive(grants: seq<Grant>)
    requires Live(grants) == 0
    ensures forall k :: LiveOf(grants, k) == 0
  {
    forall k ensures LiveOf(grants, k) == 0 {
      LiveOfAtMost(grants, k);
    }
  }

  /** Once every grant is given back the limiter is as new: even its map is empty. */
  lemma AllGivenBack(caps: Caps, steps: seq<Step>)
    requires Live(Run(caps, START, steps).grants) == 0
    ensures Run(caps, START, steps).counts == START.counts
  {
    var s := Run(caps, START, steps);
    SlotConservation(caps, steps);
    NoneLive(s.grants);
    forall k ensures k !in s.counts.perKey {
      assert s.counts.Of(k) == 0;
    }
    assert s.counts.perKey == map[];
  }

  /** A grant that was given back stays so, and no later release call of it changes anything. */
  lemma {:induction false} ReleaseIsIdempotent(caps: Caps, s: System, steps: seq<Step>, i: nat)
    requires i < |s.grants| && s.grants[i].phase == Released
    ensures var s' := Run(caps, s, steps);
            && i < |s'.grants| && s'.grants[i] == s.grants[i]
            && Do(caps, s', Begin(i)) == s' && Do(caps, s', Finish(i)) == s'
  {
    if steps != [] {
      ReleaseIsIdempotent(caps, s, steps[..|steps| - 1], i);
    }
  }
}
