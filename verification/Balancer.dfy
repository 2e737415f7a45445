/** The upstream selector of internal/balancer/balancer.go. */
module Balancer {
  import opened Prelude
  import opened Arithmetic

  datatype Settings = Settings(upstreams: seq<string>, random: bool, cooldown: int)

  datatype Selection = Selection(index: nat, upstream: string)

  /** The mutable part of a balancer: end of each cooldown, and where round-robin goes on. */
  datatype State = State(unhealthyUntil: seq<Option<Time>>, current: nat) {
    ghost predicate Valid(s: Settings) {
      |unhealthyUntil| == |s.upstreams| && (current < |s.upstreams| || current == 0)
    }

    predicate Eligible(i: int, exclude: int, now: Time) {
      0 <= i < |unhealthyUntil| && i != exclude && (unhealthyUntil[i].Some? ==> now >= unhealthyUntil[i].value)
    }
  }

  /** Upstream `offset` places after `from`, cyclically: (from + offset) % n without the division. */
  function Ahead(from: nat, offset: nat, n: nat): (i: nat)
    requires from < n && offset <= n
    ensures i < n
  {
    if from + offset < n then from + offset else from + offset - n
  }

  lemma AheadIsModulo(from: nat, offset: nat, n: nat)
    requires from < n && offset <= n
    ensures Ahead(from, offset, n) == (from + offset) % n
  {
    if from + offset < n {
      DivisionUnique(from + offset, n, 0, from + offset);
    } else {
      DivisionUnique(from + offset, n, 1, from + offset - n);
    }
  }

  /** How many places ahead of `from` upstream i lies. */
  function Distance(from: nat, i: nat, n: nat): (d: nat)
    requires from < n && i < n
    ensures d < n
  {
    if i >= from then i - from else i - from + n
  }

  lemma AheadDistance(from: nat, offset: nat, n: nat)
    requires from < n && offset < n
    ensures Distance(from, Ahead(from, offset, n), n) == offset
  {
  }

  lemma DistanceAhead(from: nat, i: nat, n: nat)
    requires from < n && i < n
    ensures Ahead(from, Distance(from, i, n), n) == i
  {
  }

  /** The eligible upstreams in index order. */
  function Available(st: State, exclude: int, now: Time, k: nat): (r: seq<nat>)
    requires k <= |st.unhealthyUntil|
    ensures forall i :: i in r <==> i < k && st.Eligible(i, exclude, now)
  {
    if k == 0 then []
    else if st.Eligible(k - 1, exclude, now) then Available(st, exclude, now, k - 1) + [k - 1]
    else Available(st, exclude, now, k - 1)
  }

  /** i is the first eligible upstream at or after current, cyclically. */
  ghost predicate IsFirst(st: State, exclude: int, now: Time, i: nat)
    requires st.current < |st.unhealthyUntil|
  {
    && st.Eligible(i, exclude, now)
    && forall j: nat :: st.Eligible(j, exclude, now) ==>
         Distance(st.current, i, |st.unhealthyUntil|) <= Distance(st.current, j, |st.unhealthyUntil|)
  }

  lemma FirstIsUnique(st: State, exclude: int, now: Time, i: nat, j: nat)
    requires st.current < |st.unhealthyUntil|
    requires IsFirst(st, exclude, now, i) && IsFirst(st, exclude, now, j)
    ensures i == j
  {
  }

  /** What Next may choose in a state; draw stands for the random generator. */
  ghost predicate IsChoice(s: Settings, st: State, exclude: int, now: Time, draw: nat, i: nat)
    requires st.Valid(s)
  {
    var available := Available(st, exclude, now, |st.unhealthyUntil|);
    && i in available
    && if s.random then i == available[draw % |available|] else IsFirst(st, exclude, now, i)
  }

  // ----- the operations on values -----

  function New(s: Settings): (st: State)
    ensures st.Valid(s) && st.current == 0 && forall i :: st.Eligible(i, -1, 0) <==> 0 <= i < |s.upstreams|
  {
    State(seq(|s.upstreams|, _ => None), 0)
  }

  function Failed(s: Settings, st: State, index: int, now: Time): State {
    if 0 <= index < |st.unhealthyUntil| then st.(unhealthyUntil := st.unhealthyUntil[index := Some(now + s.cooldown)]) else st
  }

  function Succeeded(st: State, index: int): State {
    if 0 <= index < |st.unhealthyUntil| then st.(unhealthyUntil := st.unhealthyUntil[index := None]) else st
  }

  lemma ChoiceExists(s: Settings, st: State, exclude: int, now: Time, draw: nat, i: nat)
    requires st.Valid(s) && st.Eligible(i, exclude, now)
    ensures exists j: nat :: IsChoice(s, st, exclude, now, draw, j)
  {
    var available := Available(st, exclude, now, |st.unhealthyUntil|);
    assert i in available;
    if s.random {
      assert IsChoice(s, st, exclude, now, draw, available[draw % |available|]);
    } else {
      var j := FirstExists(st, exclude, now, i);
      assert IsChoice(s, st, exclude, now, draw, j);
    }
  }

  lemma {:induction false} FirstExists(st: State, exclude: int, now: Time, i: nat) returns (j: nat)
    requires st.current < |st.unhealthyUntil| && st.Eligible(i, exclude, now)
    ensures IsFirst(st, exclude, now, j)
    decreases Distance(st.current, i, |st.unhealthyUntil|)
  {
    if IsFirst(st, exclude, now, i) {
      j := i;
    } else {
      var n := |st.unhealthyUntil|;
      var k: nat :| st.Eligible(k, exclude, now) && Distance(st.current, k, n) < Distance(st.current, i, n);
      j := FirstExists(st, exclude, now, k);
    }
  }

  /** Next on values: the index chosen. */
  ghost function Chosen(s: Settings, st: State, exclude: int, now: Time, draw: nat): (r: Option<nat>)
    requires st.Valid(s)
    ensures r.Some? ==> r.value < |s.upstreams|
  {
    if i: nat :| IsChoice(s, st, exclude, now, draw, i) then Some(i) else None
  }

  lemma ChosenMeaning(s: Settings, st: State, exclude: int, now: Time, draw: nat)
    requires st.Valid(s)
    ensures Chosen(s, st, exclude, now, draw).None? <==> forall i :: !st.Eligible(i, exclude, now)
    ensures forall i: nat :: Chosen(s, st, exclude, now, draw) == Some(i) <==> IsChoice(s, st, exclude, now, draw, i)
  {
    if i: nat :| st.Eligible(i, exclude, now) {
      ChoiceExists(s, st, exclude, now, draw, i);
    }
    forall i: nat, j: nat | IsChoice(s, st, exclude, now, draw, i) && IsChoice(s, st, exclude, now, draw, j)
      ensures i == j
    {
      if !s.random {
        FirstIsUnique(st, exclude, now, i, j);
      }
    }
  }

  ghost function EligibleBelow(st: State, exclude: int, now: Time, k: nat): set<nat>
    requires k <= |st.unhealthyUntil|
  {
    set i: nat | i < k && st.Eligible(i, exclude, now)
  }

  lemma EligibleStep(st: State, exclude: int, now: Time, k: nat)
    requires k < |st.unhealthyUntil|
    ensures |EligibleBelow(st, exclude, now, k + 1)| ==
            |EligibleBelow(st, exclude, now, k)| + if st.Eligible(k, exclude, now) then 1 else 0
  {
    assert EligibleBelow(st, exclude, now, k + 1) ==
           EligibleBelow(st, exclude, now, k) + if st.Eligible(k, exclude, now) then {k} else {};
  }

  ghost predicate Increasing(a: seq<nat>) {
    forall x, y :: 0 <= x < y < |a| ==> a[x] < a[y]
  }

  lemma IncreasingAppend(a: seq<nat>, k: nat)
    requires Increasing(a) && forall i :: i in a ==> i < k
    ensures Increasing(a + [k])
  {
    assert forall x :: 0 <= x < |a| ==> a[x] in a;
  }

  lemma {:induction false} AvailableIncreases(st: State, exclude: int, now: Time, k: nat)
    requires k <= |st.unhealthyUntil|
    ensures Increasing(Available(st, exclude, now, k))
    ensures |Available(st, exclude, now, k)| == |EligibleBelow(st, exclude, now, k)|
  {
    if k > 0 {
      AvailableIncreases(st, exclude, now, k - 1);
      IncreasingAppend(Available(st, exclude, now, k - 1), k - 1);
      EligibleStep(st, exclude, now, k - 1);
    } else {
      assert EligibleBelow(st, exclude, now, 0) == {};
    }
  }

  /** With random selection the draws below the number of eligible upstreams choose each of them once. */
  lemma RandomIsFair(s: Settings, st: State, exclude: int, now: Time)
    requires st.Valid(s) && s.random
    ensures var n := |EligibleBelow(st, exclude, now, |s.upstreams|)|;
            && (forall i: nat :: st.Eligible(i, exclude, now) ==>
                  exists draw :: 0 <= draw < n && IsChoice(s, st, exclude, now, draw, i))
            && forall draw: nat, other: nat, i: nat :: draw < n && other < n ==>
                 IsChoice(s, st, exclude, now, draw, i) && IsChoice(s, st, exclude, now, other, i) ==> draw == other
  {
    var a := Available(st, exclude, now, |s.upstreams|);
    AvailableIncreases(st, exclude, now, |s.upstreams|);
    forall draw: nat, i: nat | draw < |a|
      ensures IsChoice(s, st, exclude, now, draw, i) <==> a[draw] == i
    {
      DivisionUnique(draw, |a|, 0, draw);
      assert a[draw] in a;
    }
    forall i: nat | st.Eligible(i, exclude, now)
      ensures exists draw :: 0 <= draw < |a| && IsChoice(s, st, exclude, now, draw, i)
    {
      assert i in a;
      var draw: nat :| draw < |a| && a[draw] == i;
      assert IsChoice(s, st, exclude, now, draw, i);
    }
  }

  ghost function Advanced(s: Settings, st: State, chosen: Option<nat>): (st': State)
    requires st.Valid(s) && (chosen.Some? ==> chosen.value < |s.upstreams|)
    ensures st'.Valid(s)
  {
    if s.random || chosen.None? then st else st.(current := Ahead(chosen.value, 1, |s.upstreams|))
  }

  // ----- the object -----

  class Balancer {
    const settings: Settings
    const unhealthyUntil: array<Option<Time>>
    var current: nat

    ghost predicate Valid()
      reads this, unhealthyUntil
    {
      Contents().Valid(settings)
    }

    ghost function Contents(): State
      reads this, unhealthyUntil
    {
      State(unhealthyUntil[..], current)
    }

    constructor (settings: Settings)
      ensures Valid() && this.settings == settings && fresh(unhealthyUntil)
      ensures Contents() == New(settings) && current == 0 && forall i :: 0 <= i < |unhealthyUntil[..]| ==> unhealthyUntil[i].None?
    {
      this.settings := settings;
      unhealthyUntil := new Option<Time>[|settings.upstreams|](_ => None);
      current := 0;
    }

    /** The round-robin scan from current; `known` is some eligible upstream. */
    method Scan(exclude: int, now: Time, known: nat) returns (index: nat)
      requires Valid() && Contents().Eligible(known, exclude, now)
      ensures current < |unhealthyUntil[..]| && IsFirst(Contents(), exclude, now, index)
    {
      ghost var st := Contents();
      var n := unhealthyUntil.Length;
      DistanceAhead(current, known, n);
      var offset := 0;
      while Ahead(current, offset, n) == exclude || Before(now, unhealthyUntil[Ahead(current, offset, n)])
        invariant offset <= Distance(current, known, n)
        invariant forall k :: 0 <= k < offset ==> !st.Eligible(Ahead(current, k, n), exclude, now)
        decreases n - offset
      {
        offset := offset + 1;
      }
      index := Ahead(current, offset, n);
      AheadDistance(current, offset, n);
      forall j: nat | st.Eligible(j, exclude, now)
        ensures Distance(current, index, n) <= Distance(current, j, n)
      {
        DistanceAhead(current, j, n);
      }
    }

    /** Next: a healthy upstream other than the one already tried, if there is any. */
    method Next(exclude: int, now: Time, draw: nat) returns (selection: Option<Selection>)
      requires Valid()
      modifies this`current
      ensures Valid() && unhealthyUntil[..] == old(unhealthyUntil[..])
      ensures selection.None? <==> forall i :: !old(Contents()).Eligible(i, exclude, now)
      ensures selection.None? ==> current == old(current)
      ensures selection.Some? ==>
                var i := selection.value.index;
                && IsChoice(settings, old(Contents()), exclude, now, draw, i)
                && old(Contents()).Eligible(i, exclude, now)
                && selection.value.upstream == settings.upstreams[i]
                && current == if settings.random then old(current) else Ahead(i, 1, |settings.upstreams|)
      ensures var chosen := Chosen(settings, old(Contents()), exclude, now, draw);
              && Contents() == Advanced(settings, old(Contents()), chosen)
              && (selection.Some? <==> chosen.Some?) && (selection.Some? ==> selection.value.index == chosen.value)
    {
      ghost var st := Contents();
      ChosenMeaning(settings, st, exclude, now, draw);
      var n := |settings.upstreams|;
      var available: seq<nat> := [];
      for i := 0 to n
        invariant available == Available(st, exclude, now, i)
      {
        if i != exclude && !Before(now, unhealthyUntil[i]) {
          available := available + [i];
        }
      }
      if available == [] {
        forall i ensures !st.Eligible(i, exclude, now) {
          assert i !in available;
        }
        return None;
      }
      var index := available[0];
      assert index in available;
      if settings.random {
        index := available[draw % |available|];
      } else {
        index := Scan(exclude, now, index);
        current := Ahead(index, 1, n);
      }
      assert st.Eligible(index, exclude, now);
      selection := Some(Selection(index, settings.upstreams[index]));
    }

    /** MarkFailure: an upstream is out for one cooldown; other indices are ignored. */
    method MarkFailure(index: int, now: Time)
      requires Valid()
      modifies unhealthyUntil
      ensures Valid() && Contents() == Failed(settings, old(Contents()), index, now)
    {
      if 0 <= index < unhealthyUntil.Length {
        unhealthyUntil[index] := Some(now + settings.cooldown);
      }
    }

    /** MarkSuccess: clears an earlier failure. */
    method MarkSuccess(index: int)
      requires Valid()
      modifies unhealthyUntil
      ensures Valid() && Contents() == Succeeded(old(Contents()), index)
    {
      if 0 <= index < unhealthyUntil.Length {
        unhealthyUntil[index] := None;
      }
    }
  }
}
