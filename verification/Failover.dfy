/** The two-attempt loops of handleConnect (internal/proxy/connect.go) and forwardRequest
    (internal/proxy/http.go) over a shared balancer, for any script of upstream outcomes and any
    balancer operations of other requests in between. */
module Failover {
  import opened Prelude
  import opened Balancer
  import opened Fairness

  /** How the relay of an established tunnel starts: relayHTTP1 and relayHTTP2 confirm it to the client,
      or shutdown refuses it, which relayHTTP2 reports; relayHTTP1 then, or without a hijack, says nothing. */
  datatype RelayStart = Confirmed | Unavailable | Silent

  /** How one upstream attempt ends. */
  datatype Outcome =
    | Responded(status: int, copied: bool)  // an HTTP response, and whether its body reached the client
    | Connected(start: RelayStart)          // a tunnel to the upstream
    | Failed(clientGone: bool, unsupported: bool, timeout: bool)

  /** One attempt, with what other requests do to the balancer around it. */
  datatype Attempt = Attempt(outcome: Outcome, markTime: Time, nextTime: Time, draw: nat,
                             beforeMark: seq<Op>, beforeNext: seq<Op>)

  /** What a request does, as its client and its upstreams see it. */
  datatype Event =
    | Tried(upstream: nat) | MarkedBad(upstream: nat) | MarkedGood(upstream: nat)
    | Replied(status: int)
    | Aborted  // the reply was cut off after its headers

  /** The status of writeUpstreamError. */
  function ErrorStatus(o: Outcome): int {
    if o.Failed? && o.timeout then 504 else 502
  }

  /** The upstream proxy itself asks for credentials. */
  predicate Challenged(o: Outcome) {
    o.Responded? && o.status == 407
  }

  /** The upstream's response, or its tunnel, is the client's. */
  predicate Answers(o: Outcome) {
    (o.Responded? || o.Connected?) && !Challenged(o)
  }

  /** The client sees a reply that breaks off. */
  predicate BreaksOff(o: Outcome) {
    Answers(o) && o.Responded? && !o.copied
  }

  /** The replies of a request whose last attempt ends so. */
  function Final(o: Outcome): (replies: seq<int>)
    ensures |replies| <= 1 && 407 !in replies
  {
    match o
    case Responded(status, _) => [if status == 407 then 502 else status]
    case Connected(start) => if start == Confirmed then [200] else if start == Unavailable then [503] else []
    case Failed(clientGone, _, _) => if clientGone then [] else [ErrorStatus(o)]
  }

  /** What the client sees of an attempt that answers. */
  function ReplyEvents(o: Outcome): seq<Event> {
    if Final(o) == [] then [] else [Replied(Final(o)[0])]
  }

  function CutEvents(o: Outcome): seq<Event> {
    if BreaksOff(o) then [Aborted] else []
  }

  /** The events of an attempt that answers. */
  function AnsweredLog(o: Outcome, upstream: nat): seq<Event>
    requires Answers(o)
  {
    [Tried(upstream), MarkedGood(upstream)] + ReplyEvents(o) + CutEvents(o)
  }

  predicate Marks(o: Outcome) {
    Challenged(o) || (o.Failed? && !o.clientGone && !o.unsupported)
  }

  predicate Quits(o: Outcome) {
    o.Failed? && o.clientGone
  }

  ghost function ApplyAll(s: Settings, st: State, ops: seq<Op>): (st': State)
    requires st.Valid(s)
    ensures st'.Valid(s)
  {
    if ops == [] then st else Apply(s, ApplyAll(s, st, ops[..|ops| - 1]), ops[|ops| - 1])
  }

  /** The operations on the balancer, others' included, up to the choice of an alternate. */
  ghost function OpsBeforeNext(a: Attempt, upstream: nat): seq<Op> {
    a.beforeMark + (if Marks(a.outcome) then [Fail(upstream, a.markTime)] else []) + a.beforeNext
  }

  /** The alternate that a failed first attempt finds. */
  ghost function Alternate(s: Settings, st: State, a: Attempt, upstream: nat): Option<nat>
    requires st.Valid(s)
  {
    Chosen(s, ApplyAll(s, st, OpsBeforeNext(a, upstream)), upstream, a.nextTime, a.draw)
  }

  /** The events of a failed attempt, before any reply. */
  function FailedLog(a: Attempt, upstream: nat): seq<Event> {
    [Tried(upstream)] + if Marks(a.outcome) then [MarkedBad(upstream)] else []
  }

  /** The operations on the balancer up to and with the choice of an alternate. */
  ghost function FailedOps(a: Attempt, upstream: nat): seq<Op> {
    OpsBeforeNext(a, upstream) + [Next(upstream, a.nextTime, a.draw)]
  }

  /** The events of a request that was given `upstream`, and all operations on the balancer. */
  ghost function Serve(s: Settings, st: State, canRetry: bool, upstream: nat, attempts: seq<Attempt>)
    : (r: (seq<Event>, seq<Op>))
    requires st.Valid(s) && attempts != []
    decreases |attempts|
  {
    var a := attempts[0];
    if Answers(a.outcome) then
      (AnsweredLog(a.outcome, upstream), a.beforeMark + [Succeed(upstream)])
    else if Quits(a.outcome) then
      ([Tried(upstream)], [])
    else
      var log := FailedLog(a, upstream);
      if canRetry && |attempts| > 1 then
        match Alternate(s, st, a, upstream)
        case Some(alternate) =>
          var r := Serve(s, ApplyAll(s, st, FailedOps(a, upstream)), canRetry, alternate, attempts[1..]);
          (log + r.0, FailedOps(a, upstream) + r.1)
        case None => (log + [Replied(ErrorStatus(a.outcome))], FailedOps(a, upstream))
      else
        (log + [Replied(ErrorStatus(a.outcome))], a.beforeMark + if Marks(a.outcome) then [Fail(upstream, a.markTime)] else [])
  }

  lemma {:induction false} ApplyAppend(s: Settings, st: State, a: seq<Op>, b: seq<Op>)
    requires st.Valid(s)
    ensures ApplyAll(s, st, a + b) == ApplyAll(s, ApplyAll(s, st, a), b)
    decreases |b|
  {
    if b == [] {
      assert a + b == a;
    } else {
      assert (a + b)[..|a + b| - 1] == a + b[..|b| - 1];
      ApplyAppend(s, st, a, b[..|b| - 1]);
    }
  }

  // ----- the loops -----

  /** Operations of other requests. */
  method Interfere(b: Balancer, ops: seq<Op>)
    requires b.Valid()
    modifies b`current, b.unhealthyUntil
    ensures b.Valid() && b.Contents() == ApplyAll(b.settings, old(b.Contents()), ops)
  {
    ghost var st := b.Contents();
    for i := 0 to |ops|
      invariant b.Valid() && b.Contents() == ApplyAll(b.settings, st, ops[..i])
    {
      assert ops[..i + 1][..i] == ops[..i];
      match ops[i] {
        case Next(exclude, now, draw) => var _ := b.Next(exclude, now, draw);
        case Fail(index, now) => b.MarkFailure(index, now);
        case Succeed(index) => b.MarkSuccess(index);
      }
    }
    assert ops[..|ops|] == ops;
  }

  /** Where a loop stands: what it has logged, and what remains is to serve `upstream`. */
  ghost predicate Standing(s: Settings, total: (seq<Event>, seq<Op>), st0: State, log: seq<Event>, ops: seq<Op>,
                           st: State, canRetry: bool, upstream: nat, attempts: seq<Attempt>)
    requires st0.Valid(s) && st.Valid(s) && attempts != []
  {
    var r := Serve(s, st, canRetry, upstream, attempts);
    total == (log + r.0, ops + r.1) && st == ApplyAll(s, st0, ops)
  }

  /** The log and operations so far, when they are all there is. */
  ghost predicate Settled(s: Settings, total: (seq<Event>, seq<Op>), st0: State, log: seq<Event>, st: State)
    requires st0.Valid(s)
  {
    log == total.0 && st == ApplyAll(s, st0, total.1)
  }

  /** The last steps: what remains is exactly a few events and operations. */
  lemma Settles(s: Settings, total: (seq<Event>, seq<Op>), st0: State, log: seq<Event>, ops: seq<Op>,
                st: State, canRetry: bool, upstream: nat, attempts: seq<Attempt>, log': seq<Event>, ops': seq<Op>)
    requires st0.Valid(s) && st.Valid(s) && attempts != []
    requires Standing(s, total, st0, log, ops, st, canRetry, upstream, attempts)
    requires Serve(s, st, canRetry, upstream, attempts) == (log', ops')
    ensures Settled(s, total, st0, log + log', ApplyAll(s, st, ops'))
  {
    ApplyAppend(s, st0, ops, ops');
  }

  /** Going on with the alternate. */
  lemma GoesOn(s: Settings, total: (seq<Event>, seq<Op>), st0: State, log: seq<Event>, ops: seq<Op>,
               st: State, upstream: nat, attempts: seq<Attempt>)
    requires st0.Valid(s) && st.Valid(s) && |attempts| > 1
    requires Standing(s, total, st0, log, ops, st, true, upstream, attempts)
    requires var a := attempts[0]; !Answers(a.outcome) && !Quits(a.outcome) && Alternate(s, st, a, upstream).Some?
    ensures var a := attempts[0];
            Standing(s, total, st0, log + FailedLog(a, upstream), ops + FailedOps(a, upstream),
                     ApplyAll(s, st, FailedOps(a, upstream)), true, Alternate(s, st, a, upstream).value, attempts[1..])
  {
    var a := attempts[0];
    var l, o := FailedLog(a, upstream), FailedOps(a, upstream);
    var r := Serve(s, ApplyAll(s, st, o), true, Alternate(s, st, a, upstream).value, attempts[1..]);
    ApplyAppend(s, st0, ops, o);
    Associative(log, l, r.0);
    Associative(ops, o, r.1);
  }

  /** One failed attempt: the mark, and the alternate if one is wanted and there is one. */
  method FailOver(b: Balancer, wanted: bool, upstream: nat, a: Attempt) returns (alternate: Option<Selection>)
    requires b.Valid() && !Answers(a.outcome) && !Quits(a.outcome)
    modifies b`current, b.unhealthyUntil
    ensures b.Valid()
    ensures !wanted ==> alternate.None?
                        && b.Contents() == ApplyAll(b.settings, old(b.Contents()),
                                                    a.beforeMark + if Marks(a.outcome) then [Fail(upstream, a.markTime)] else [])
    ensures wanted ==>
              && b.Contents() == ApplyAll(b.settings, old(b.Contents()), FailedOps(a, upstream))
              && var chosen := Alternate(b.settings, old(b.Contents()), a, upstream);
                 (alternate.Some? <==> chosen.Some?) && (alternate.Some? ==> alternate.value.index == chosen.value)
  {
    ghost var st := b.Contents();
    ghost var mark := if Marks(a.outcome) then [Fail(upstream, a.markTime)] else [];
    Interfere(b, a.beforeMark);
    if Marks(a.outcome) {
      b.MarkFailure(upstream, a.markTime);
    }
    ApplyAppend(b.settings, st, a.beforeMark, mark);
    alternate := None;
    if wanted {
      ApplyAppend(b.settings, st, a.beforeMark + mark, a.beforeNext);
      Interfere(b, a.beforeNext);
      ghost var before := OpsBeforeNext(a, upstream);
      assert (before + [Next(upstream, a.nextTime, a.draw)])[..|before|] == before;
      alternate := b.Next(upstream, a.nextTime, a.draw);
    }
  }

  /** The loop of handleConnect, from the selected upstream to the relay or the error status. */
  method HandleConnect(b: Balancer, first: nat, attempts: seq<Attempt>) returns (log: seq<Event>)
    requires b.Valid() && |attempts| == 2
    requires forall a :: a in attempts ==> !a.outcome.Responded?
    modifies b`current, b.unhealthyUntil
    ensures b.Valid()
    ensures Settled(b.settings, Serve(b.settings, old(b.Contents()), true, first, attempts), old(b.Contents()), log, b.Contents())
  {
    ghost var s, st0 := b.settings, b.Contents();
    ghost var total := Serve(s, st0, true, first, attempts);
    ghost var ops: seq<Op> := [];
    var selected := first;
    log := [];
    assert [] + total.0 == total.0 && [] + total.1 == total.1;
    for attempt := 0 to 2
      invariant b.Valid() && attempt < 2
      invariant Standing(s, total, st0, log, ops, b.Contents(), true, selected, attempts[attempt..])
    {
      var a := attempts[attempt];
      ghost var st := b.Contents();
      if Answers(a.outcome) {
        Interfere(b, a.beforeMark);
        b.MarkSuccess(selected);
        ApplyAppend(s, st, a.beforeMark, [Succeed(selected)]);
        Settles(s, total, st0, log, ops, st, true, selected, attempts[attempt..],
                AnsweredLog(a.outcome, selected), a.beforeMark + [Succeed(selected)]);
        return log + AnsweredLog(a.outcome, selected);
      }
      if a.outcome.clientGone {
        Settles(s, total, st0, log, ops, st, true, selected, attempts[attempt..], [Tried(selected)], []);
        return log + [Tried(selected)];
      }
      var alternate := FailOver(b, attempt == 0, selected, a);
      if alternate.Some? {
        GoesOn(s, total, st0, log, ops, st, selected, attempts[attempt..]);
        ops := ops + FailedOps(a, selected);
        log, selected := log + FailedLog(a, selected), alternate.value.index;
        assert attempts[attempt..][1..] == attempts[attempt + 1..];
        continue;
      }
      ghost var r := Serve(s, st, true, selected, attempts[attempt..]);
      Settles(s, total, st0, log, ops, st, true, selected, attempts[attempt..], r.0, r.1);
      return log + (FailedLog(a, selected) + [Replied(ErrorStatus(a.outcome))]);
    }
  }

  /** The loop of forwardRequest; only a bodyless GET or HEAD may be retried. */
  method ForwardRequest(b: Balancer, canRetry: bool, first: nat, attempts: seq<Attempt>) returns (log: seq<Event>)
    requires b.Valid() && |attempts| == 2
    requires forall a :: a in attempts ==> !a.outcome.Connected?
    modifies b`current, b.unhealthyUntil
    ensures b.Valid()
    ensures Settled(b.settings, Serve(b.settings, old(b.Contents()), canRetry, first, attempts), old(b.Contents()), log, b.Contents())
  {
    ghost var s, st0 := b.settings, b.Contents();
    ghost var total := Serve(s, st0, canRetry, first, attempts);
    ghost var ops: seq<Op> := [];
    var selected := first;
    log := [];
    assert [] + total.0 == total.0 && [] + total.1 == total.1;
    for attempt := 0 to 2
      invariant b.Valid() && attempt < 2
      invariant Standing(s, total, st0, log, ops, b.Contents(), canRetry, selected, attempts[attempt..])
    {
      var a := attempts[attempt];
      ghost var st := b.Contents();
      if Quits(a.outcome) {
        Settles(s, total, st0, log, ops, st, canRetry, selected, attempts[attempt..], [Tried(selected)], []);
        return log + [Tried(selected)];
      }
      if Answers(a.outcome) {
        Interfere(b, a.beforeMark);
        b.MarkSuccess(selected);
        ApplyAppend(s, st, a.beforeMark, [Succeed(selected)]);
        Settles(s, total, st0, log, ops, st, canRetry, selected, attempts[attempt..],
                AnsweredLog(a.outcome, selected), a.beforeMark + [Succeed(selected)]);
        return log + AnsweredLog(a.outcome, selected);
      }
      var alternate := FailOver(b, canRetry && attempt == 0, selected, a);
      if alternate.Some? {
        GoesOn(s, total, st0, log, ops, st, selected, attempts[attempt..]);
        ops := ops + FailedOps(a, selected);
        log, selected := log + FailedLog(a, selected), alternate.value.index;
        assert attempts[attempt..][1..] == attempts[attempt + 1..];
        continue;
      }
      ghost var r := Serve(s, st, canRetry, selected, attempts[attempt..]);
      Settles(s, total, st0, log, ops, st, canRetry, selected, attempts[attempt..], r.0, r.1);
      return log + (FailedLog(a, selected) + [Replied(ErrorStatus(a.outcome))]);
    }
  }

  // ----- the contract -----

  function Tries(log: seq<Event>): seq<nat> {
    if log == [] then [] else (if log[0].Tried? then [log[0].upstream] else []) + Tries(log[1..])
  }

  function Replies(log: seq<Event>): seq<int> {
    if log == [] then [] else (if log[0].Replied? then [log[0].status] else []) + Replies(log[1..])
  }

  lemma {:induction false} TriesAppend(a: seq<Event>, b: seq<Event>)
    ensures Tries(a + b) == Tries(a) + Tries(b)
  {
    if a == [] {
      assert a + b == b;
    } else {
      assert (a + b)[1..] == a[1..] + b;
      TriesAppend(a[1..], b);
      Associative(if a[0].Tried? then [a[0].upstream] else [], Tries(a[1..]), Tries(b));
    }
  }

  lemma {:induction false} RepliesAppend(a: seq<Event>, b: seq<Event>)
    ensures Replies(a + b) == Replies(a) + Replies(b)
  {
    if a == [] {
      assert a + b == b;
    } else {
      assert (a + b)[1..] == a[1..] + b;
      RepliesAppend(a[1..], b);
      Associative(if a[0].Replied? then [a[0].status] else [], Replies(a[1..]), Replies(b));
    }
  }

  lemma LogAppend(a: seq<Event>, b: seq<Event>)
    ensures Tries(a + b) == Tries(a) + Tries(b) && Replies(a + b) == Replies(a) + Replies(b)
  {
    TriesAppend(a, b);
    RepliesAppend(a, b);
  }

  lemma OneEvent(e: Event)
    ensures Tries([e]) == if e.Tried? then [e.upstream] else []
    ensures Replies([e]) == if e.Replied? then [e.status] else []
  {
    assert Tries([e][1..]) == [] && Replies([e][1..]) == [];
  }

  lemma FailedLogTries(a: Attempt, upstream: nat)
    ensures Tries(FailedLog(a, upstream)) == [upstream] && Replies(FailedLog(a, upstream)) == []
    ensures forall i :: MarkedBad(i) in FailedLog(a, upstream) <==> i == upstream && Marks(a.outcome)
    ensures forall i :: MarkedGood(i) !in FailedLog(a, upstream)
  {
    OneEvent(Tried(upstream));
    OneEvent(MarkedBad(upstream));
    LogAppend([Tried(upstream)], if Marks(a.outcome) then [MarkedBad(upstream)] else []);
  }

  lemma TriedAndMarked(upstream: nat)
    ensures var log := [Tried(upstream), MarkedGood(upstream)]; Tries(log) == [upstream] && Replies(log) == []
  {
    OneEvent(Tried(upstream));
    OneEvent(MarkedGood(upstream));
    LogAppend([Tried(upstream)], [MarkedGood(upstream)]);
    assert [Tried(upstream)] + [MarkedGood(upstream)] == [Tried(upstream), MarkedGood(upstream)];
  }

  lemma ClientEvents(o: Outcome)
    ensures Tries(ReplyEvents(o)) == [] && Replies(ReplyEvents(o)) == Final(o)
    ensures Tries(CutEvents(o)) == [] && Replies(CutEvents(o)) == []
  {
    OneEvent(Aborted);
    if Final(o) != [] {
      OneEvent(Replied(Final(o)[0]));
    }
  }

  lemma AnsweredLogTries(o: Outcome, upstream: nat)
    requires Answers(o)
    ensures Tries(AnsweredLog(o, upstream)) == [upstream] && Replies(AnsweredLog(o, upstream)) == Final(o)
  {
    TriedAndMarked(upstream);
    ClientEvents(o);
    var start := [Tried(upstream), MarkedGood(upstream)];
    LogAppend(start, ReplyEvents(o));
    LogAppend(start + ReplyEvents(o), CutEvents(o));
  }

  lemma AnsweredLogMarks(o: Outcome, upstream: nat)
    requires Answers(o)
    ensures forall i :: MarkedBad(i) !in AnsweredLog(o, upstream)
    ensures forall i :: MarkedGood(i) in AnsweredLog(o, upstream) <==> i == upstream
    ensures Aborted in AnsweredLog(o, upstream) <==> BreaksOff(o)
  {
  }

  lemma ErrorLog(a: Attempt, upstream: nat)
    ensures var log := FailedLog(a, upstream) + [Replied(ErrorStatus(a.outcome))];
            Tries(log) == [upstream] && Replies(log) == [ErrorStatus(a.outcome)]
  {
    FailedLogTries(a, upstream);
    OneEvent(Replied(ErrorStatus(a.outcome)));
    LogAppend(FailedLog(a, upstream), [Replied(ErrorStatus(a.outcome))]);
  }

  lemma LastAttempt(s: Settings, st: State, canRetry: bool, upstream: nat, a: Attempt)
    requires st.Valid(s)
    ensures var log := Serve(s, st, canRetry, upstream, [a]).0;
            && Tries(log) == [upstream]
            && Replies(log) == Final(a.outcome)
            && (forall i :: MarkedBad(i) in log <==> i == upstream && Marks(a.outcome))
            && (forall i :: MarkedGood(i) in log <==> i == upstream && Answers(a.outcome))
            && (Aborted in log <==> BreaksOff(a.outcome))
  {
    if Answers(a.outcome) {
      AnsweredLogTries(a.outcome, upstream);
      AnsweredLogMarks(a.outcome, upstream);
    } else if Quits(a.outcome) {
      OneEvent(Tried(upstream));
    } else {
      FailedLogTries(a, upstream);
      ErrorLog(a, upstream);
    }
  }

  /** An upstream whose attempt failed is retried on an alternate. */
  ghost predicate Retries(s: Settings, st: State, canRetry: bool, upstream: nat, a: Attempt)
    requires st.Valid(s)
  {
    canRetry && !Answers(a.outcome) && !Quits(a.outcome) && Alternate(s, st, a, upstream).Some?
  }

  lemma RetriedContract(s: Settings, st: State, canRetry: bool, first: nat, attempts: seq<Attempt>)
    requires st.Valid(s) && |attempts| == 2
    requires Retries(s, st, canRetry, first, attempts[0])
    ensures var log := Serve(s, st, canRetry, first, attempts).0;
            var a0, a1 := attempts[0], attempts[1];
            var second := Alternate(s, st, a0, first).value;
            && Tries(log) == [first, second] && second != first
            && ApplyAll(s, st, OpsBeforeNext(a0, first)).Eligible(second, first, a0.nextTime)
            && Replies(log) == Final(a1.outcome)
            && (forall i :: MarkedBad(i) in log <==> (i == first && Marks(a0.outcome)) || (i == second && Marks(a1.outcome)))
            && (forall i :: MarkedGood(i) in log <==> i == second && Answers(a1.outcome))
            && (Aborted in log <==> BreaksOff(a1.outcome))
  {
    var a0, a1 := attempts[0], attempts[1];
    assert attempts[1..] == [a1];
    var second := Alternate(s, st, a0, first).value;
    var st' := ApplyAll(s, st, FailedOps(a0, first));
    ChosenMeaning(s, ApplyAll(s, st, OpsBeforeNext(a0, first)), first, a0.nextTime, a0.draw);
    var log0, log1 := FailedLog(a0, first), Serve(s, st', canRetry, second, [a1]).0;
    LastAttempt(s, st', canRetry, second, a1);
    TwoLogs(a0, first, log1, second, a1);
    assert Serve(s, st, canRetry, first, attempts).0 == log0 + log1;
  }

  lemma TwoLogs(a0: Attempt, first: nat, log1: seq<Event>, second: nat, a1: Attempt)
    requires Tries(log1) == [second] && Replies(log1) == Final(a1.outcome)
    requires forall i :: MarkedBad(i) in log1 <==> i == second && Marks(a1.outcome)
    requires forall i :: MarkedGood(i) in log1 <==> i == second && Answers(a1.outcome)
    requires Aborted in log1 <==> BreaksOff(a1.outcome)
    ensures var log := FailedLog(a0, first) + log1;
            && Tries(log) == [first, second] && Replies(log) == Final(a1.outcome)
            && (forall i :: MarkedBad(i) in log <==> (i == first && Marks(a0.outcome)) || (i == second && Marks(a1.outcome)))
            && (forall i :: MarkedGood(i) in log <==> i == second && Answers(a1.outcome))
            && (Aborted in log <==> BreaksOff(a1.outcome))
  {
    FailedLogTries(a0, first);
    LogAppend(FailedLog(a0, first), log1);
  }

  lemma SingleContract(s: Settings, st: State, canRetry: bool, first: nat, attempts: seq<Attempt>)
    requires st.Valid(s) && |attempts| == 2
    requires !Retries(s, st, canRetry, first, attempts[0])
    ensures var log := Serve(s, st, canRetry, first, attempts).0;
            var a0 := attempts[0];
            && Tries(log) == [first]
            && Replies(log) == Final(a0.outcome)
            && (forall i :: MarkedBad(i) in log <==> i == first && Marks(a0.outcome))
            && (forall i :: MarkedGood(i) in log <==> i == first && Answers(a0.outcome))
            && (Aborted in log <==> BreaksOff(a0.outcome))
  {
    LastAttempt(s, st, false, first, attempts[0]);
    assert Serve(s, st, canRetry, first, attempts).0 == Serve(s, st, false, first, [attempts[0]]).0;
  }

  // ----- the contract, outcome by outcome -----

  /** What an attempt that is a request's last must lead to: the mark of its upstream and the reply. */
  ghost predicate Warrants(o: Outcome, bad: bool, good: bool, replies: seq<int>) {
    match o
    case Failed(gone, unsupported, timeout) =>
      && bad == (!gone && !unsupported) && !good
      && replies == if gone then [] else if timeout then [504] else [502]
    case Responded(status, _) =>
      if status == 407 then bad && !good && replies == [502] else !bad && good && replies == [status]
    case Connected(start) =>
      && !bad && good
      && match start
         case Confirmed => replies == [200]
         case Unavailable => replies == [503]
         case Silent => replies == []
  }

  /** An attempt that fails by its upstream's fault, and one that another upstream may make good. */
  ghost predicate AtFault(o: Outcome) {
    match o
    case Failed(gone, unsupported, _) => !gone && !unsupported
    case Responded(status, _) => status == 407
    case Connected(_) => false
  }

  ghost predicate MayRetry(o: Outcome) {
    match o
    case Failed(gone, _, _) => !gone
    case Responded(status, _) => status == 407
    case Connected(_) => false
  }

  /** The response reached the client, but its body broke off. */
  ghost predicate CutOff(o: Outcome) {
    match o
    case Responded(status, copied) => status != 407 && !copied
    case _ => false
  }

  /** The upstreams when the alternate is chosen. */
  ghost function AtNext(s: Settings, st: State, a: Attempt, upstream: nat): (st': State)
    requires st.Valid(s)
    ensures st'.Valid(s)
  {
    ApplyAll(s, st, a.beforeMark + (if AtFault(a.outcome) then [Fail(upstream, a.markTime)] else []) + a.beforeNext)
  }

  /** The first attempt is followed by a second. */
  ghost predicate Again(s: Settings, st: State, canRetry: bool, upstream: nat, a: Attempt)
    requires st.Valid(s)
  {
    && canRetry && MayRetry(a.outcome)
    && exists j :: AtNext(s, st, a, upstream).Eligible(j, upstream, a.nextTime)
  }

  lemma OutcomeMeaning(o: Outcome)
    ensures Marks(o) == AtFault(o) && BreaksOff(o) == CutOff(o) && (!Answers(o) && !Quits(o) <==> MayRetry(o))
    ensures Warrants(o, Marks(o), Answers(o), Final(o))
  {
  }

  lemma AgainMeaning(s: Settings, st: State, canRetry: bool, upstream: nat, a: Attempt)
    requires st.Valid(s)
    ensures AtNext(s, st, a, upstream) == ApplyAll(s, st, OpsBeforeNext(a, upstream))
    ensures Again(s, st, canRetry, upstream, a) <==> Retries(s, st, canRetry, upstream, a)
    ensures Retries(s, st, canRetry, upstream, a) ==>
              IsChoice(s, AtNext(s, st, a, upstream), upstream, a.nextTime, a.draw, Alternate(s, st, a, upstream).value)
  {
    OutcomeMeaning(a.outcome);
    ChosenMeaning(s, AtNext(s, st, a, upstream), upstream, a.nextTime, a.draw);
  }

  /** The events that a request must have when its loop starts with `first` in state st. */
  ghost predicate Kept(s: Settings, st: State, canRetry: bool, first: nat, a0: Attempt, a1: Attempt, log: seq<Event>)
    requires st.Valid(s)
  {
    if Again(s, st, canRetry, first, a0) then
      && |Tries(log)| == 2 && Tries(log)[0] == first
      && var second := Tries(log)[1];
      && second != first && AtNext(s, st, a0, first).Eligible(second, first, a0.nextTime)
      && IsChoice(s, AtNext(s, st, a0, first), first, a0.nextTime, a0.draw, second)
      && (MarkedBad(first) in log <==> AtFault(a0.outcome)) && MarkedGood(first) !in log
      && Warrants(a1.outcome, MarkedBad(second) in log, MarkedGood(second) in log, Replies(log))
      && (Aborted in log <==> CutOff(a1.outcome))
      && forall i :: MarkedBad(i) in log || MarkedGood(i) in log ==> i == first || i == second
    else
      && Tries(log) == [first]
      && Warrants(a0.outcome, MarkedBad(first) in log, MarkedGood(first) in log, Replies(log))
      && (Aborted in log <==> CutOff(a0.outcome))
      && forall i :: MarkedBad(i) in log || MarkedGood(i) in log ==> i == first
  }

  /** Main result, for every script and whatever other requests do to the balancer in between: a second
      upstream is tried exactly for a retryable request whose first attempt failed or was answered 407,
      while the client is there and another upstream is eligible; it is the balancer's choice among
      those. The reply is none when the client has gone, 504 after a timeout, 502 after another failure
      or a 407, and else what the last upstream answered, cut off when its body could not be copied; an
      established tunnel is answered 200, 503, or not at all, by how its relay starts. An upstream is
      marked bad exactly when its attempt failed, other than by an unsupported destination or a client
      that left, or was answered 407; good exactly when it answered otherwise; and no other is marked. */
  lemma FailoverContract(s: Settings, st: State, canRetry: bool, first: nat, attempts: seq<Attempt>)
    requires st.Valid(s) && |attempts| == 2
    ensures Kept(s, st, canRetry, first, attempts[0], attempts[1], Serve(s, st, canRetry, first, attempts).0)
    ensures 407 !in Replies(Serve(s, st, canRetry, first, attempts).0)
    ensures |Replies(Serve(s, st, canRetry, first, attempts).0)| <= 1
  {
    AgainMeaning(s, st, canRetry, first, attempts[0]);
    OutcomeMeaning(attempts[0].outcome);
    OutcomeMeaning(attempts[1].outcome);
    if Retries(s, st, canRetry, first, attempts[0]) {
      RetriedContract(s, st, canRetry, first, attempts);
    } else {
      SingleContract(s, st, canRetry, first, attempts);
    }
  }

  /** The balancer after a failed attempt on its own, up to the choice of an alternate. */
  ghost function AfterFailure(s: Settings, st: State, a: Attempt, upstream: nat): (st': State)
    requires st.Valid(s)
    ensures st'.Valid(s)
  {
    ApplyAll(s, st, OpsBeforeNext(a.(beforeMark := [], beforeNext := []), upstream))
  }

  /** A destination that the upstream cannot represent costs no upstream its health; any other failure
      of an upstream takes that upstream, and no other, out for the cooldown. */
  lemma FailureEffect(s: Settings, st: State, a: Attempt, upstream: nat)
    requires st.Valid(s) && upstream < |s.upstreams| && a.outcome.Failed? && !a.outcome.clientGone
    ensures a.outcome.unsupported ==> AfterFailure(s, st, a, upstream) == st
    ensures !a.outcome.unsupported ==>
              && AfterFailure(s, st, a, upstream).current == st.current
              && forall i, exclude, now :: AfterFailure(s, st, a, upstream).Eligible(i, exclude, now) <==>
                   if i == upstream then i != exclude && now >= a.markTime + s.cooldown else st.Eligible(i, exclude, now)
  {
    if a.outcome.unsupported {
      assert OpsBeforeNext(a.(beforeMark := [], beforeNext := []), upstream) == [];
    } else {
      var mark := Fail(upstream, a.markTime);
      assert OpsBeforeNext(a.(beforeMark := [], beforeNext := []), upstream) == [mark];
      assert [mark][..0] == [] && ApplyAll(s, st, [mark]) == Apply(s, ApplyAll(s, st, []), mark);
    }
  }
}
