/** What the upstream selector guarantees over whole runs: no starvation, an exact round-robin
    lap, and health that follows the history of marks. */
module Fairness {
  import opened Prelude
  import opened Arithmetic
  import opened Balancer

  datatype Op =
    | Next(exclude: int, now: Time, draw: nat)
    | Fail(index: int, now: Time)
    | Succeed(index: int)

  ghost function Apply(s: Settings, st: State, op: Op): (st': State)
    requires st.Valid(s)
    ensures st'.Valid(s)
  {
    match op
    case Next(exclude, now, draw) => Advanced(s, st, Chosen(s, st, exclude, now, draw))
    case Fail(index, now) => Failed(s, st, index, now)
    case Succeed(index) => Succeeded(st, index)
  }

  /** The state before operation k of a run that starts with a new balancer. */
  ghost function At(s: Settings, ops: seq<Op>, k: nat): (st: State)
    requires k <= |ops|
    ensures st.Valid(s)
  {
    if k == 0 then New(s) else Apply(s, At(s, ops, k - 1), ops[k - 1])
  }

  /** The upstream that operation k selects, if it is a Next that succeeds. */
  ghost function Pick(s: Settings, ops: seq<Op>, k: nat): Option<nat>
    requires k < |ops|
  {
    if ops[k].Next? then Chosen(s, At(s, ops, k), ops[k].exclude, ops[k].now, ops[k].draw) else None
  }

  ghost predicate EligibleAt(s: Settings, ops: seq<Op>, k: nat, i: int)
    requires k < |ops| && ops[k].Next?
  {
    At(s, ops, k).Eligible(i, ops[k].exclude, ops[k].now)
  }

  /** How many operations in [a, b) are Next. */
  ghost function Nexts(ops: seq<Op>, a: nat, b: nat): nat
    requires a <= b <= |ops|
  {
    if a == b then 0 else Nexts(ops, a, b - 1) + if ops[b - 1].Next? then 1 else 0
  }

  /** How many operations in [a, b) select upstream i. */
  ghost function Times(s: Settings, ops: seq<Op>, i: nat, a: nat, b: nat): nat
    requires a <= b <= |ops|
  {
    if a == b then 0 else Times(s, ops, i, a, b - 1) + if Pick(s, ops, b - 1) == Some(i) then 1 else 0
  }

  // ----- health follows history -----

  datatype Mark = Unmarked | Good | Bad(at: Time)

  /** The last mark that the operations before k put on upstream i. */
  ghost function LastMark(ops: seq<Op>, i: int, k: nat): Mark
    requires k <= |ops|
  {
    if k == 0 then Unmarked
    else match ops[k - 1]
      case Fail(index, now) => if index == i then Bad(now) else LastMark(ops, i, k - 1)
      case Succeed(index) => if index == i then Good else LastMark(ops, i, k - 1)
      case Next(_, _, _) => LastMark(ops, i, k - 1)
  }

  ghost predicate Healthy(s: Settings, ops: seq<Op>, i: int, k: nat, now: Time)
    requires k <= |ops|
  {
    var m := LastMark(ops, i, k);
    m.Bad? ==> now >= m.at + s.cooldown
  }

  ghost function CooldownEnd(s: Settings, ops: seq<Op>, i: nat, k: nat): Option<Time>
    requires k <= |ops| && i < |s.upstreams|
  {
    At(s, ops, k).unhealthyUntil[i]
  }

  lemma CooldownEndStep(s: Settings, ops: seq<Op>, i: nat, k: nat)
    requires 0 < k <= |ops| && i < |s.upstreams|
    ensures CooldownEnd(s, ops, i, k) ==
            match ops[k - 1]
            case Fail(index, now) => if index == i then Some(now + s.cooldown) else CooldownEnd(s, ops, i, k - 1)
            case Succeed(index) => if index == i then None else CooldownEnd(s, ops, i, k - 1)
            case Next(_, _, _) => CooldownEnd(s, ops, i, k - 1)
  {
  }

  lemma {:induction false} UntilIsLastMark(s: Settings, ops: seq<Op>, i: nat, k: nat)
    requires k <= |ops| && i < |s.upstreams|
    ensures var m := LastMark(ops, i, k);
            CooldownEnd(s, ops, i, k) == if m.Bad? then Some(m.at + s.cooldown) else None
  {
    if k > 0 {
      UntilIsLastMark(s, ops, i, k - 1);
      CooldownEndStep(s, ops, i, k);
    }
  }

  /** Main result: after any run, Next fails exactly when every upstream is the excluded one or
      had its last mark a failure less than a cooldown ago; otherwise it returns one that did not. */
  lemma NextFollowsHistory(s: Settings, ops: seq<Op>, k: nat)
    requires k < |ops| && ops[k].Next?
    ensures Pick(s, ops, k).None? <==>
            forall i :: 0 <= i < |s.upstreams| && i != ops[k].exclude ==> !Healthy(s, ops, i, k, ops[k].now)
    ensures Pick(s, ops, k).Some? ==>
            var i := Pick(s, ops, k).value;
            i < |s.upstreams| && i != ops[k].exclude && Healthy(s, ops, i, k, ops[k].now)
  {
    ChosenMeaning(s, At(s, ops, k), ops[k].exclude, ops[k].now, ops[k].draw);
    forall i | 0 <= i < |s.upstreams|
      ensures EligibleAt(s, ops, k, i) <==> i != ops[k].exclude && Healthy(s, ops, i, k, ops[k].now)
    {
      UntilIsLastMark(s, ops, i, k);
    }
    if Pick(s, ops, k).None? {
      forall i | 0 <= i < |s.upstreams| && i != ops[k].exclude ensures !Healthy(s, ops, i, k, ops[k].now) {
        assert !EligibleAt(s, ops, k, i);
      }
    } else {
      assert EligibleAt(s, ops, k, Pick(s, ops, k).value);
    }
  }

  // ----- no starvation -----

  /** Moving current just past the selected upstream j turns distances by Distance(from, j) + 1. */
  lemma DistanceTurns(from: nat, j: nat, i: nat, n: nat)
    requires from < n && j < n && i < n && Distance(from, j, n) <= Distance(from, i, n)
    ensures Ahead(j, 1, n) < n
    ensures i != j ==> Distance(Ahead(j, 1, n), i, n) == Distance(from, i, n) - Distance(from, j, n) - 1
    ensures Distance(Ahead(j, 1, n), j, n) == n - 1
  {
  }

  /** A round-robin Next that finds someone eligible selects the first and goes on after it. */
  lemma TurnTo(s: Settings, ops: seq<Op>, k: nat)
    requires k < |ops| && ops[k].Next? && !s.random && exists i :: EligibleAt(s, ops, k, i)
    ensures Pick(s, ops, k).Some? && Pick(s, ops, k).value < |s.upstreams|
    ensures EligibleAt(s, ops, k, Pick(s, ops, k).value)
    ensures At(s, ops, k).current < |s.upstreams|
    ensures IsFirst(At(s, ops, k), ops[k].exclude, ops[k].now, Pick(s, ops, k).value)
    ensures At(s, ops, k + 1).current == Ahead(Pick(s, ops, k).value, 1, |s.upstreams|)
  {
    ChosenMeaning(s, At(s, ops, k), ops[k].exclude, ops[k].now, ops[k].draw);
  }

  lemma OtherOpKeepsTurn(s: Settings, ops: seq<Op>, k: nat)
    requires k < |ops| && !ops[k].Next?
    ensures At(s, ops, k + 1).current == At(s, ops, k).current && Pick(s, ops, k) == None
  {
  }

  ghost function Place(s: Settings, ops: seq<Op>, i: nat, k: nat): (d: nat)
    requires k <= |ops| && i < |s.upstreams|
    ensures d < |s.upstreams|
  {
    Distance(At(s, ops, k).current, i, |s.upstreams|)
  }

  lemma ApproachStep(s: Settings, ops: seq<Op>, i: nat, k: nat)
    requires 0 < k <= |ops| && i < |s.upstreams| && !s.random
    requires ops[k - 1].Next? ==> EligibleAt(s, ops, k - 1, i) && Pick(s, ops, k - 1) != Some(i)
    ensures Place(s, ops, i, k) + (if ops[k - 1].Next? then 1 else 0) <= Place(s, ops, i, k - 1)
  {
    if ops[k - 1].Next? {
      TurnTo(s, ops, k - 1);
      DistanceTurns(At(s, ops, k - 1).current, Pick(s, ops, k - 1).value, i, |s.upstreams|);
    } else {
      OtherOpKeepsTurn(s, ops, k - 1);
    }
  }

  /** Each Next that passes over an eligible upstream brings current closer to it. */
  lemma {:induction false} Approach(s: Settings, ops: seq<Op>, i: nat, a: nat, b: nat)
    requires a <= b <= |ops| && i < |s.upstreams| && !s.random
    requires forall k :: a <= k < b && ops[k].Next? ==> EligibleAt(s, ops, k, i) && Pick(s, ops, k) != Some(i)
    ensures Nexts(ops, a, b) + Place(s, ops, i, b) <= Place(s, ops, i, a)
  {
    if a < b {
      Approach(s, ops, i, a, b - 1);
      ApproachStep(s, ops, i, b);
    }
  }

  /** Main result: under round-robin, an upstream that is eligible at each of as many Next calls as
      there are upstreams is selected by one of them, whatever marks and exclusions do to the others. */
  lemma NoStarvation(s: Settings, ops: seq<Op>, i: nat, a: nat, b: nat)
    requires a <= b <= |ops| && i < |s.upstreams| && !s.random
    requires Nexts(ops, a, b) >= |s.upstreams|
    requires forall k :: a <= k < b && ops[k].Next? ==> EligibleAt(s, ops, k, i)
    ensures exists k :: a <= k < b && ops[k].Next? && Pick(s, ops, k) == Some(i)
  {
    if forall k :: a <= k < b && ops[k].Next? ==> Pick(s, ops, k) != Some(i) {
      Approach(s, ops, i, a, b);
    }
  }

  // ----- the exact lap -----

  /** Every Next in [a, b) finds exactly the upstreams in h eligible. */
  ghost predicate Steady(s: Settings, ops: seq<Op>, h: set<nat>, a: nat, b: nat)
    requires a <= b <= |ops|
  {
    && InRange(s, h)
    && (forall k, i: nat :: a <= k < b && ops[k].Next? ==> (EligibleAt(s, ops, k, i) <==> i in h))
  }

  /** The members of h that round-robin reaches before i. */
  ghost function Ahead0(h: set<nat>, from: nat, i: nat, n: nat): set<nat>
    requires from < n && i < n && forall x :: x in h ==> x < n
  {
    set x | x in h && Distance(from, x, n) < Distance(from, i, n)
  }

  ghost function Gap(h: set<nat>, from: nat, i: nat, n: nat): nat
    requires from < n && i < n && forall x :: x in h ==> x < n
  {
    |Ahead0(h, from, i, n)|
  }

  /** The place of i in the queue h before operation k. */
  ghost function Turn(s: Settings, ops: seq<Op>, h: set<nat>, i: nat, k: nat): nat
    requires k <= |ops| && i in h && InRange(s, h)
  {
    Gap(h, At(s, ops, k).current, i, |s.upstreams|)
  }

  ghost predicate InRange(s: Settings, h: set<nat>) {
    forall i :: i in h ==> i < |s.upstreams|
  }

  /** Selecting j moves it to the back of the queue h and every other member one place forward. */
  lemma GapTurns(h: set<nat>, from: nat, j: nat, i: nat, n: nat)
    requires from < n && i in h && j in h && forall x :: x in h ==> x < n
    requires forall x :: x in h ==> Distance(from, j, n) <= Distance(from, x, n)
    ensures Ahead(j, 1, n) < n
    ensures Gap(h, Ahead(j, 1, n), i, n) + 1 == Gap(h, from, i, n) + if i == j then |h| else 0
  {
    forall x | x in h { DistanceTurns(from, j, x, n); }
    var to := Ahead(j, 1, n);
    if i == j {
      assert Ahead0(h, from, i, n) == {};
      forall x | x in h && x != j ensures Distance(to, x, n) < n - 1 {
        if Distance(from, x, n) == Distance(from, j, n) {
          DistanceAhead(from, x, n);
          DistanceAhead(from, j, n);
        }
      }
      assert Ahead0(h, to, i, n) == h - {j};
    } else {
      if Distance(from, i, n) == Distance(from, j, n) {
        DistanceAhead(from, i, n);
        DistanceAhead(from, j, n);
      }
      assert j in Ahead0(h, from, i, n);
      assert Ahead0(h, to, i, n) == Ahead0(h, from, i, n) - {j};
    }
  }

  lemma TurnSmall(s: Settings, ops: seq<Op>, h: set<nat>, i: nat, k: nat)
    requires k <= |ops| && i in h && InRange(s, h)
    ensures Turn(s, ops, h, i, k) < |h|
  {
    SubsetSize(Ahead0(h, At(s, ops, k).current, i, |s.upstreams|), h - {i});
  }

  /** h added up t times. */
  ghost function Sum(h: nat, t: nat): nat {
    if t == 0 then 0 else Sum(h, t - 1) + h
  }

  lemma {:induction false} SumIsProduct(h: nat, t: nat)
    ensures Sum(h, t) == h * t
  {
    if t > 0 {
      SumIsProduct(h, t - 1);
      OneMore(h, t - 1);
    }
  }

  lemma LapStep(s: Settings, ops: seq<Op>, h: set<nat>, i: nat, k: nat)
    requires 0 < k <= |ops| && !s.random && Steady(s, ops, h, k - 1, k) && i in h
    ensures Turn(s, ops, h, i, k) + (if ops[k - 1].Next? then 1 else 0)
            == Turn(s, ops, h, i, k - 1) + if Pick(s, ops, k - 1) == Some(i) then |h| else 0
  {
    if ops[k - 1].Next? {
      var st, n := At(s, ops, k - 1), |s.upstreams|;
      assert EligibleAt(s, ops, k - 1, i);
      TurnTo(s, ops, k - 1);
      var j := Pick(s, ops, k - 1).value;
      forall x | x in h ensures Distance(st.current, j, n) <= Distance(st.current, x, n) {
        assert EligibleAt(s, ops, k - 1, x);
      }
      GapTurns(h, st.current, j, i, n);
    } else {
      OtherOpKeepsTurn(s, ops, k - 1);
    }
  }

  lemma SteadyPart(s: Settings, ops: seq<Op>, h: set<nat>, a: nat, b: nat)
    requires a < b <= |ops| && Steady(s, ops, h, a, b)
    ensures Steady(s, ops, h, a, b - 1) && Steady(s, ops, h, b - 1, b)
  {
  }

  lemma OnceMore(n: nat, s: Settings, ops: seq<Op>, i: nat, a: nat, b: nat)
    requires a < b <= |ops|
    ensures Sum(n, Times(s, ops, i, a, b)) ==
            Sum(n, Times(s, ops, i, a, b - 1)) + if Pick(s, ops, b - 1) == Some(i) then n else 0
  {
  }

  lemma {:induction false} LapLedger(s: Settings, ops: seq<Op>, h: set<nat>, i: nat, a: nat, b: nat)
    requires a <= b <= |ops| && !s.random && Steady(s, ops, h, a, b) && i in h
    ensures Nexts(ops, a, b) + Turn(s, ops, h, i, b) == Turn(s, ops, h, i, a) + Sum(|h|, Times(s, ops, i, a, b))
  {
    if a < b {
      SteadyPart(s, ops, h, a, b);
      LapLedger(s, ops, h, i, a, b - 1);
      LapStep(s, ops, h, i, b);
      OnceMore(|h|, s, ops, i, a, b);
    }
  }

  /** Conservation: while the eligible set is h, selections of i account for all Next calls, up to
      the change of its place in the queue. */
  lemma {:induction false} LapConservation(s: Settings, ops: seq<Op>, h: set<nat>, i: nat, a: nat, b: nat)
    requires a <= b <= |ops| && !s.random && Steady(s, ops, h, a, b) && i in h
    ensures Nexts(ops, a, b) + Turn(s, ops, h, i, b) == Turn(s, ops, h, i, a) + |h| * Times(s, ops, i, a, b)
  {
    LapLedger(s, ops, h, i, a, b);
    SumIsProduct(|h|, Times(s, ops, i, a, b));
  }

  /** Main result: with eligible set h, any |h| consecutive Next calls select every member of h
      exactly once. */
  lemma LapIsPermutation(s: Settings, ops: seq<Op>, h: set<nat>, i: nat, a: nat, b: nat)
    requires a <= b <= |ops| && !s.random && Steady(s, ops, h, a, b) && i in h
    requires Nexts(ops, a, b) == |h|
    ensures Times(s, ops, i, a, b) == 1
  {
    LapConservation(s, ops, h, i, a, b);
    TurnSmall(s, ops, h, i, a);
    TurnSmall(s, ops, h, i, b);
    MultipleBetween(|h|, Times(s, ops, i, a, b), 1);
  }

  /** Over any stretch, two eligible upstreams are selected equally often, give or take one. */
  lemma FairShare(s: Settings, ops: seq<Op>, h: set<nat>, i: nat, j: nat, a: nat, b: nat)
    requires a <= b <= |ops| && !s.random && Steady(s, ops, h, a, b) && i in h && j in h
    ensures -1 <= Times(s, ops, i, a, b) - Times(s, ops, j, a, b) <= 1
  {
    LapConservation(s, ops, h, i, a, b);
    LapConservation(s, ops, h, j, a, b);
    TurnSmall(s, ops, h, i, a);
    TurnSmall(s, ops, h, i, b);
    TurnSmall(s, ops, h, j, a);
    TurnSmall(s, ops, h, j, b);
    CloseMultiples(|h|, Times(s, ops, i, a, b), Times(s, ops, j, a, b));
  }

  /** The order of a lap: the upstream that is selected is the one whose turn it is, namely the
      member whose place in the queue at the start equals the number of calls since, modulo |h|. */
  lemma LapOrder(s: Settings, ops: seq<Op>, h: set<nat>, i: nat, a: nat, k: nat)
    requires a <= k < |ops| && !s.random && Steady(s, ops, h, a, k + 1) && i in h && ops[k].Next?
    ensures Pick(s, ops, k) == Some(i) <==>
            Nexts(ops, a, k) % |h| == Turn(s, ops, h, i, a)
  {
    LapConservation(s, ops, h, i, a, k);
    TurnSmall(s, ops, h, i, a);
    TurnSmall(s, ops, h, i, k);
    TurnSmall(s, ops, h, i, k + 1);
    LapStep(s, ops, h, i, k + 1);
    TurnModulo(|h|, Nexts(ops, a, k), Turn(s, ops, h, i, a), Turn(s, ops, h, i, k), Times(s, ops, i, a, k));
  }

  lemma TurnModulo(h: nat, m: nat, g: nat, g': nat, t: nat)
    requires h > 0 && g < h && g' < h && m + g' == g + h * t
    ensures m % h == g <==> g' == 0
  {
    if g' <= g {
      assert m == h * t + (g - g');
      DivisionUnique(m, h, t, g - g');
    } else {
      assert h * (t - 1) == h * t - h;
      assert t != 0;
      DivisionUnique(m, h, t - 1, h + g - g');
    }
  }
}

