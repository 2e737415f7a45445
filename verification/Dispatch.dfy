/** A whole request of internal/proxy/server.go: ServeHTTP's decision, then the two-attempt loop of
    handleConnect or forwardRequest, with other requests at work on the balancer in between. */
module Dispatch {
  import opened Prelude
  import AuthLimit
  import Balancer
  import Fairness
  import opened Failover
  import opened Admission

  /** What remains of a request once it is admitted: whether it is a CONNECT, what the checks before
      the loop find, whether it may be retried, what others do to the balancer first, and the script of
      its attempts. */
  datatype Course = Course(connect: bool, destinationOk: bool, version: nat, canHijack: bool, slotFree: bool,
                           retryable: bool, between: seq<Fairness.Op>, attempts: seq<Attempt>) {
    ghost predicate Valid() {
      && |attempts| == 2
      && forall a :: a in attempts ==>
           if connect then !a.outcome.Responded? && (a.outcome.Connected? ==> Starts(a.outcome.start)) else !a.outcome.Connected?
    }

    /** How the relay of this HTTP version can start. */
    predicate Starts(start: RelayStart) {
      start != if version == 2 then Silent else Unavailable
    }

    /** A CONNECT may always be retried. */
    predicate CanRetry() {
      connect || retryable
    }

    /** The status with which handleConnect or forwardRequest refuses before its loop. */
    function Refused(): Option<int> {
      if !destinationOk then Some(400)
      else if !connect then None
      else if version != 1 && version != 2 then Some(505)
      else if version == 1 && !canHijack then Some(500)
      else if !slotFree then Some(429)
      else None
    }
  }

  /** The status of a reply that ServeHTTP gives itself. */
  function Refusal(reply: Admission.Reply): int
    requires !reply.Dispatched?
  {
    if reply.TooManyAttempts? then 429 else if reply.AuthRequired? then 407 else 502
  }

  /** The decision of ServeHTTP; without authentication the limiter is not asked. */
  ghost function Decided(s: Setup, w: World, authEnabled: bool, r: Request): (result: (World, Admission.Reply))
    requires s.Valid() && w.upstreams.Valid(s.settings)
    ensures result.0.upstreams.Valid(s.settings)
  {
    if authEnabled then Admission.Do(s, w, r)
    else
      var chosen := Balancer.Chosen(s.settings, w.upstreams, -1, r.chosenAt, r.draw);
      (w.(upstreams := Turned(s.settings, w.upstreams, r)), if chosen.Some? then Dispatched(chosen.value) else NoUpstream)
  }

  /** The upstreams when the loop starts. */
  ghost function AtLoop(s: Setup, w: World, authEnabled: bool, r: Request, c: Course): (st: Balancer.State)
    requires s.Valid() && w.upstreams.Valid(s.settings)
    ensures st.Valid(s.settings)
  {
    ApplyAll(s.settings, Decided(s, w, authEnabled, r).0.upstreams, c.between)
  }

  /** The events of the loop from the upstreams in st, and the upstreams after it. */
  ghost function Looped(settings: Balancer.Settings, st: Balancer.State, first: nat, c: Course)
    : (result: (seq<Failover.Event>, Balancer.State))
    requires st.Valid(settings) && c.Valid()
    ensures result.1.Valid(settings)
  {
    var served := Serve(settings, st, c.CanRetry(), first, c.attempts);
    (served.0, ApplyAll(settings, st, served.1))
  }

  /** The events of a request, and the world after it. */
  ghost function Handled(s: Setup, w: World, authEnabled: bool, r: Request, c: Course): (seq<Failover.Event>, World)
    requires s.Valid() && w.upstreams.Valid(s.settings) && c.Valid()
  {
    var (w', reply) := Decided(s, w, authEnabled, r);
    if !reply.Dispatched? then ([Replied(Refusal(reply))], w')
    else if c.Refused().Some? then ([Replied(c.Refused().value)], w')
    else
      var (log, upstreams) := Looped(s.settings, AtLoop(s, w, authEnabled, r, c), reply.upstream, c);
      (log, World(w'.table, upstreams))
  }

  /** The loop that the request's method calls for, after what others do first. */
  method Loop(balancer: Balancer.Balancer, first: nat, c: Course) returns (log: seq<Failover.Event>)
    requires balancer.Valid() && c.Valid()
    modifies balancer`current, balancer.unhealthyUntil
    ensures balancer.Valid()
    ensures (log, balancer.Contents()) ==
            Looped(balancer.settings, ApplyAll(balancer.settings, old(balancer.Contents()), c.between), first, c)
  {
    Interfere(balancer, c.between);
    if c.connect {
      log := HandleConnect(balancer, first, c.attempts);
    } else {
      log := ForwardRequest(balancer, c.retryable, first, c.attempts);
    }
  }

  /** A step of the loop's balancer leaves the limiter as it is. */
  twostate lemma LimiterUntouched(limiter: AuthLimit.AuthFailureLimiter)
    requires unchanged(limiter) && forall e :: e in limiter.byIP.Values ==> unchanged(e)
    requires old(limiter.Valid())
    ensures limiter.Valid() && limiter.Contents() == old(limiter.Contents())
  {
  }

  /** ServeHTTP to the end of the request. */
  method Handle(limiter: AuthLimit.AuthFailureLimiter, balancer: Balancer.Balancer, authEnabled: bool, r: Request, c: Course)
    returns (log: seq<Failover.Event>)
    requires limiter.Valid() && balancer.Valid() && c.Valid()
    modifies limiter, limiter.byIP.Values, balancer`current, balancer.unhealthyUntil
    ensures limiter.Valid() && balancer.Valid()
    ensures (log, World(limiter.Contents(), balancer.Contents())) ==
            Handled(Setup(limiter.policy, balancer.settings), old(World(limiter.Contents(), balancer.Contents())), authEnabled, r, c)
  {
    ghost var w := World(limiter.Contents(), balancer.Contents());
    ghost var s := Setup(limiter.policy, balancer.settings);
    var reply := ServeHTTP(limiter, balancer, authEnabled, r);
    label served:
    ghost var w' := World(limiter.Contents(), balancer.Contents());
    assert (w', reply) == Decided(s, w, authEnabled, r);
    if !reply.Dispatched? {
      log := [Replied(Refusal(reply))];
    } else if c.Refused().Some? {
      log := [Replied(c.Refused().value)];
    } else {
      log := Loop(balancer, reply.upstream, c);
      LimiterUntouched@served(limiter);
    }
  }

  // ----- the contract -----

  /** The limiter's answer to the request; without authentication it is not asked. */
  ghost function Wait(s: Setup, w: World, authEnabled: bool, r: Request): int
    requires s.Valid()
  {
    if authEnabled then AuthLimit.TableAttempt(s.policy, w.table, Key(r.address), r.valid, r.now).1 else 0
  }

  /** The upstreams when the loop starts with `first`. */
  ghost function AtStart(s: Setup, w: World, c: Course, first: nat): (st: Balancer.State)
    requires w.upstreams.Valid(s.settings) && first < |s.settings.upstreams|
    ensures st.Valid(s.settings)
  {
    ApplyAll(s.settings, Balancer.Advanced(s.settings, w.upstreams, Some(first)), c.between)
  }

  /** The events that a request must have. */
  ghost predicate Expected(s: Setup, w: World, authEnabled: bool, r: Request, c: Course, log: seq<Failover.Event>)
    requires s.Valid() && w.upstreams.Valid(s.settings) && |c.attempts| == 2
  {
    if Wait(s, w, authEnabled, r) > 0 then log == [Replied(429)]
    else if authEnabled && !r.valid then log == [Replied(407)]
    else if forall i :: !w.upstreams.Eligible(i, -1, r.chosenAt) then log == [Replied(502)]
    else if !c.destinationOk then log == [Replied(400)]
    else if c.connect && c.version != 1 && c.version != 2 then log == [Replied(505)]
    else if c.connect && c.version == 1 && !c.canHijack then log == [Replied(500)]
    else if c.connect && !c.slotFree then log == [Replied(429)]
    else
      && Tries(log) != []
      && var first := Tries(log)[0];
      && first < |s.settings.upstreams| && w.upstreams.Eligible(first, -1, r.chosenAt)
      && Balancer.IsChoice(s.settings, w.upstreams, -1, r.chosenAt, r.draw, first)
      && Kept(s.settings, AtStart(s, w, c, first), c.connect || c.retryable, first, c.attempts[0], c.attempts[1], log)
  }

  /** ServeHTTP's decision by what the limiter answers and whether an upstream is eligible. */
  lemma DecisionMeaning(s: Setup, w: World, authEnabled: bool, r: Request)
    requires s.Valid() && w.upstreams.Valid(s.settings)
    ensures match Decided(s, w, authEnabled, r).1
            case TooManyAttempts(_) => Wait(s, w, authEnabled, r) > 0
            case AuthRequired => Wait(s, w, authEnabled, r) <= 0 && authEnabled && !r.valid
            case NoUpstream =>
              && Wait(s, w, authEnabled, r) <= 0 && (authEnabled ==> r.valid)
              && forall i :: !w.upstreams.Eligible(i, -1, r.chosenAt)
            case Dispatched(first) =>
              && Wait(s, w, authEnabled, r) <= 0 && (authEnabled ==> r.valid)
              && Balancer.IsChoice(s.settings, w.upstreams, -1, r.chosenAt, r.draw, first)
              && first < |s.settings.upstreams| && w.upstreams.Eligible(first, -1, r.chosenAt)
              && Decided(s, w, authEnabled, r).0.upstreams == Balancer.Advanced(s.settings, w.upstreams, Some(first))
  {
    Balancer.ChosenMeaning(s.settings, w.upstreams, -1, r.chosenAt, r.draw);
  }

  /** Main result, for every request, every script of its attempts and whatever other requests do to
      the balancer meanwhile: an address with a block is answered 429, and otherwise bad credentials
      407; a request that passes, when no upstream is eligible, 502; a bad destination 400, and for a
      CONNECT another HTTP version 505, a connection that cannot be hijacked 500 and no free tunnel slot
      429, each in this order and without a try of any upstream. Every other request tries an upstream
      that was eligible when it was chosen, and goes on as the loops must. */
  lemma WholeRequest(s: Setup, w: World, authEnabled: bool, r: Request, c: Course)
    requires s.Valid() && w.upstreams.Valid(s.settings) && c.Valid()
    ensures Expected(s, w, authEnabled, r, c, Handled(s, w, authEnabled, r, c).0)
    ensures var replies := Replies(Handled(s, w, authEnabled, r, c).0);
            |replies| <= 1 && (407 in replies <==> Wait(s, w, authEnabled, r) <= 0 && authEnabled && !r.valid)
  {
    var reply := Decided(s, w, authEnabled, r).1;
    DecisionMeaning(s, w, authEnabled, r);
    if reply.Dispatched? && c.Refused().Some? {
      OneEvent(Replied(c.Refused().value));
    } else if reply.Dispatched? {
      FailoverContract(s.settings, AtLoop(s, w, authEnabled, r, c), c.CanRetry(), reply.upstream, c.attempts);
    } else {
      OneEvent(Replied(Refusal(reply)));
    }
  }

  lemma ScriptFits(c: Course, a: Attempt, bad: bool, good: bool, replies: seq<int>)
    requires c.Valid() && c.connect && a in c.attempts && Warrants(a.outcome, bad, good, replies)
    ensures 503 in replies ==> c.version == 2
    ensures good && c.version == 2 ==> replies == [200] || replies == [503]
  {
  }

  /** A CONNECT that shutdown refuses when its tunnel is already up is answered 503 over HTTP/2 only, and
      over HTTP/2 a tunnel that came up never goes without a reply. */
  lemma RelayReplies(s: Setup, w: World, authEnabled: bool, r: Request, c: Course)
    requires s.Valid() && w.upstreams.Valid(s.settings) && c.Valid() && c.connect
    ensures var log := Handled(s, w, authEnabled, r, c).0;
            && (503 in Replies(log) ==> c.version == 2)
            && (c.version == 2 && (exists i :: MarkedGood(i) in log) ==> Replies(log) == [200] || Replies(log) == [503])
  {
    WholeRequest(s, w, authEnabled, r, c);
    var log := Handled(s, w, authEnabled, r, c).0;
    var a0, a1 := c.attempts[0], c.attempts[1];
    if Wait(s, w, authEnabled, r) <= 0 && Tries(log) != [] {
      var last := Tries(log)[|Tries(log)| - 1];
      var a := if |Tries(log)| == 2 then a1 else a0;
      if Warrants(a.outcome, MarkedBad(last) in log, MarkedGood(last) in log, Replies(log)) {
        ScriptFits(c, a, MarkedBad(last) in log, MarkedGood(last) in log, Replies(log));
      }
    }
  }
}
