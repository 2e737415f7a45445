/** What ServeHTTP of internal/proxy/server.go decides before it forwards a request: credentials,
    the failed-login limiter, then an upstream. */
module Admission {
  import opened Prelude
  import AuthLimit
  import AuthHistory
  import Balancer

  /** A request as ServeHTTP sees it: `valid` is the verdict on its credentials, the limiter reads the
      clock at `now` and the balancer at `chosenAt`, and `draw` stands for the random generator. */
  datatype Request = Request(address: string, valid: bool, now: Time, chosenAt: Time, draw: nat)

  datatype Reply = TooManyAttempts(retryAfter: int) | AuthRequired | NoUpstream | Dispatched(upstream: nat)

  datatype World = World(table: AuthLimit.Table, upstreams: Balancer.State)

  datatype Setup = Setup(policy: AuthLimit.Policy, settings: Balancer.Settings) {
    ghost predicate Valid() {
      policy.Valid()
    }
  }

  function Event(r: Request): AuthHistory.Event {
    AuthHistory.Event(Key(r.address), r.valid, r.now)
  }

  /** The limiter's step for a request. */
  function Limited(s: Setup, w: World, r: Request): (AuthLimit.Table, int)
    requires s.Valid()
  {
    AuthLimit.TableAttempt(s.policy, w.table, Key(r.address), r.valid, r.now)
  }

  /** The request goes on to the balancer. */
  predicate Admitted(s: Setup, w: World, r: Request)
    requires s.Valid()
  {
    r.valid && Limited(s, w, r).1 <= 0
  }

  /** The balancer after one choice for a new request. */
  ghost function Turned(settings: Balancer.Settings, st: Balancer.State, r: Request): (st': Balancer.State)
    requires st.Valid(settings)
    ensures st'.Valid(settings)
  {
    Balancer.Advanced(settings, st, Balancer.Chosen(settings, st, -1, r.chosenAt, r.draw))
  }

  /** One request with authentication enabled. */
  ghost function Do(s: Setup, w: World, r: Request): (result: (World, Reply))
    requires s.Valid() && w.upstreams.Valid(s.settings)
    ensures result.0.upstreams.Valid(s.settings)
  {
    var (table, wait) := Limited(s, w, r);
    if wait > 0 then (World(table, w.upstreams), TooManyAttempts(AuthHistory.RetryAfter(wait)))
    else if !r.valid then (World(table, w.upstreams), AuthRequired)
    else
      var chosen := Balancer.Chosen(s.settings, w.upstreams, -1, r.chosenAt, r.draw);
      (World(table, Turned(s.settings, w.upstreams, r)),
       if chosen.Some? then Dispatched(chosen.value) else NoUpstream)
  }

  /** ServeHTTP up to the dispatch. */
  method ServeHTTP(limiter: AuthLimit.AuthFailureLimiter, balancer: Balancer.Balancer, authEnabled: bool, r: Request)
    returns (reply: Reply)
    requires limiter.Valid() && balancer.Valid()
    modifies limiter, limiter.byIP.Values, balancer`current
    ensures limiter.Valid() && balancer.Valid()
    ensures authEnabled ==>
              (World(limiter.Contents(), balancer.Contents()), reply) ==
              Do(Setup(limiter.policy, balancer.settings), old(World(limiter.Contents(), balancer.Contents())), r)
    ensures !authEnabled ==>
              && limiter.Contents() == old(limiter.Contents())
              && var chosen := Balancer.Chosen(balancer.settings, old(balancer.Contents()), -1, r.chosenAt, r.draw);
                 && balancer.Contents() == Turned(balancer.settings, old(balancer.Contents()), r)
                 && reply == if chosen.Some? then Dispatched(chosen.value) else NoUpstream
  {
    if authEnabled {
      var blockedFor := limiter.Attempt(r.address, r.valid, r.now);
      if blockedFor > 0 {
        return TooManyAttempts(AuthHistory.RetryAfter(blockedFor));
      }
      if !r.valid {
        return AuthRequired;
      }
    }
    var selected := balancer.Next(-1, r.chosenAt, r.draw);
    if selected.None? {
      return NoUpstream;
    }
    return Dispatched(selected.value.index);
  }

  /** What one request does to each part. */
  lemma StepParts(s: Setup, w: World, r: Request)
    requires s.Valid() && w.upstreams.Valid(s.settings)
    ensures Do(s, w, r).0.table == Limited(s, w, r).0
    ensures Do(s, w, r).0.upstreams == if Admitted(s, w, r) then Turned(s.settings, w.upstreams, r) else w.upstreams
  {
  }

  // ----- runs -----

  function Events(rs: seq<Request>): (es: seq<AuthHistory.Event>)
    ensures |es| == |rs| && forall i :: 0 <= i < |rs| ==> es[i] == Event(rs[i])
  {
    seq(|rs|, i requires 0 <= i < |rs| => Event(rs[i]))
  }

  ghost function UpstreamsAt(s: Setup, rs: seq<Request>, k: nat): (st: Balancer.State)
    requires s.Valid() && k <= |rs|
    ensures st.Valid(s.settings)
  {
    if k == 0 then Balancer.New(s.settings)
    else
      Do(s, World(AuthHistory.TableAt(s.policy, Events(rs), k - 1), UpstreamsAt(s, rs, k - 1)), rs[k - 1]).0.upstreams
  }

  /** The state before request k; AtIsRun says that it is the state that the requests lead to. */
  ghost function At(s: Setup, rs: seq<Request>, k: nat): (w: World)
    requires s.Valid() && k <= |rs|
    ensures w.upstreams.Valid(s.settings)
  {
    World(AuthHistory.TableAt(s.policy, Events(rs), k), UpstreamsAt(s, rs, k))
  }

  /** Each request leads from the state before it to the next. */
  lemma AtIsRun(s: Setup, rs: seq<Request>, k: nat)
    requires s.Valid() && k < |rs|
    ensures At(s, rs, 0) == World(AuthLimit.EMPTY, Balancer.New(s.settings))
    ensures At(s, rs, k + 1) == Do(s, At(s, rs, k), rs[k]).0
  {
    StepParts(s, At(s, rs, k), rs[k]);
  }

  ghost function ReplyTo(s: Setup, rs: seq<Request>, k: nat): Reply
    requires s.Valid() && k < |rs|
  {
    Do(s, At(s, rs, k), rs[k]).1
  }

  /** The reply, by the limiter's answer: 429 exactly when it is positive, 407 exactly for a failure
      that passes unblocked; valid credentials get the balancer's choice, or no upstream exactly when
      none is eligible. */
  lemma ReplyByAnswer(s: Setup, rs: seq<Request>, k: nat)
    requires s.Valid() && k < |rs|
    ensures var answer := AuthHistory.Answer(s.policy, Events(rs), k);
            var st := At(s, rs, k).upstreams;
            match ReplyTo(s, rs, k)
            case TooManyAttempts(seconds) => answer > 0 && (seconds - 1) * 1_000_000_000 < answer <= seconds * 1_000_000_000
            case AuthRequired => answer <= 0 && !rs[k].valid
            case NoUpstream => answer <= 0 && rs[k].valid && forall i :: !st.Eligible(i, -1, rs[k].chosenAt)
            case Dispatched(i) =>
              answer <= 0 && rs[k].valid && Balancer.IsChoice(s.settings, st, -1, rs[k].chosenAt, rs[k].draw, i)
  {
    Balancer.ChosenMeaning(s.settings, At(s, rs, k).upstreams, -1, rs[k].chosenAt, rs[k].draw);
    assert Limited(s, At(s, rs, k), rs[k]).1 == AuthHistory.Answer(s.policy, Events(rs), k);
  }

  /** Request k reaches the balancer. */
  ghost predicate Reaches(s: Setup, rs: seq<Request>, k: nat)
    requires s.Valid() && k < |rs|
  {
    Admitted(s, At(s, rs, k), rs[k])
  }

  lemma UpstreamsNext(s: Setup, rs: seq<Request>, k: nat)
    requires s.Valid() && k < |rs|
    ensures var before, after := At(s, rs, k).upstreams, At(s, rs, k + 1).upstreams;
            after == if Reaches(s, rs, k) then Turned(s.settings, before, rs[k]) else before
  {
    AtIsRun(s, rs, k);
    StepParts(s, At(s, rs, k), rs[k]);
  }

  /** The requests among the first k that are chosen. */
  function Filtered(rs: seq<Request>, chosen: seq<bool>, k: nat): seq<Request>
    requires k <= |rs| == |chosen|
  {
    if k == 0 then [] else Filtered(rs, chosen, k - 1) + if chosen[k - 1] then [rs[k - 1]] else []
  }

  /** Which requests reach the balancer. */
  ghost function Reached(s: Setup, rs: seq<Request>): (r: seq<bool>)
    requires s.Valid()
    ensures |r| == |rs|
  {
    seq(|rs|, i requires 0 <= i < |rs| => Reaches(s, rs, i))
  }

  /** The balancer after serving these requests and no others. */
  ghost function Served(settings: Balancer.Settings, rs: seq<Request>): (st: Balancer.State)
    ensures st.Valid(settings)
  {
    if rs == [] then Balancer.New(settings)
    else Turned(settings, Served(settings, rs[..|rs| - 1]), rs[|rs| - 1])
  }

  lemma ServedNext(settings: Balancer.Settings, rs: seq<Request>, r: Request, more: bool)
    ensures var st := Served(settings, rs);
            Served(settings, rs + if more then [r] else []) == if more then Turned(settings, st, r) else st
  {
    assert (rs + [r])[..|rs|] == rs && rs + [] == rs;
  }

  lemma {:induction false} TurnsFollow(settings: Balancer.Settings, rs: seq<Request>, reached: seq<bool>,
                                       states: seq<Balancer.State>, k: nat)
    requires |states| == |rs| + 1 && |reached| == |rs| && k <= |rs| && states[0] == Balancer.New(settings)
    requires forall i :: 0 <= i < |states| ==> states[i].Valid(settings)
    requires forall i :: 0 <= i < |rs| ==>
               states[i + 1] == if reached[i] then Turned(settings, states[i], rs[i]) else states[i]
    ensures states[k] == Served(settings, Filtered(rs, reached, k))
  {
    if k > 0 {
      TurnsFollow(settings, rs, reached, states, k - 1);
      ServedNext(settings, Filtered(rs, reached, k - 1), rs[k - 1], reached[k - 1]);
      assert states[k - 1 + 1] == states[k];
    }
  }

  /** A request that is blocked or has bad credentials leaves no trace on the balancer: over every
      run it stands as if only the admitted requests had been made. */
  lemma {:induction false} OnlyAdmittedTurn(s: Setup, rs: seq<Request>, k: nat)
    requires s.Valid() && k <= |rs|
    ensures At(s, rs, k).upstreams == Served(s.settings, Filtered(rs, Reached(s, rs), k))
  {
    var states := seq(|rs| + 1, i requires 0 <= i <= |rs| => At(s, rs, i).upstreams);
    forall i | 0 <= i < |rs|
      ensures states[i + 1] == if Reaches(s, rs, i) then Turned(s.settings, states[i], rs[i]) else states[i]
    {
      UpstreamsNext(s, rs, i);
    }
    TurnsFollow(s.settings, rs, Reached(s, rs), states, k);
  }

  /** A client that was answered 429 and returns with valid credentials once its Retry-After is over,
      not having tried in between, is neither answered 429 nor 407. */
  lemma RetryAfterIsHonoured(s: Setup, rs: seq<Request>, k: nat, n: nat)
    requires s.Valid() && k < n < |rs| && ReplyTo(s, rs, k).TooManyAttempts?
    requires From(rs[n], rs[k].address) && rs[n].valid
    requires forall j :: k < j < n ==> !From(rs[j], rs[k].address)
    requires rs[n].now >= rs[k].now + ReplyTo(s, rs, k).retryAfter * 1_000_000_000
    ensures ReplyTo(s, rs, n).NoUpstream? || ReplyTo(s, rs, n).Dispatched?
  {
    ReplyByAnswer(s, rs, k);
    ReplyByAnswer(s, rs, n);
    forall j | 0 <= j < |rs| ensures From(rs[j], rs[k].address) <==> Events(rs)[j].ip == Key(rs[k].address) {
      KeyExactly(rs[j].address, rs[k].address);
    }
    AuthHistory.RetryAfterSuffices(s.policy, Events(rs), k, n);
  }

  /** The request is from exactly this address; the empty one and its stand-in are taken together. */
  ghost predicate From(r: Request, address: string) {
    Together(r.address, address)
  }

  ghost function FailuresFrom(rs: seq<Request>, address: string, a: nat, b: nat): nat
    requires a <= b <= |rs|
  {
    if a == b then 0 else FailuresFrom(rs, address, a, b - 1) + if From(rs[b - 1], address) && !rs[b - 1].valid then 1 else 0
  }

  lemma {:induction false} FailuresAgree(rs: seq<Request>, address: string, a: nat, b: nat)
    requires a <= b <= |rs|
    ensures FailuresFrom(rs, address, a, b) == AuthHistory.Failures(Events(rs), Key(address), a, b)
  {
    if a < b {
      FailuresAgree(rs, address, a, b - 1);
      KeyExactly(rs[b - 1].address, address);
    }
  }

  /** A 429 is justified by requests from that very address: exactly maxAttempts failures of it fell
      within less than one window with no valid login between, the last of them started the block, and
      Retry-After covers what remains. The empty address shares its count with "unknown" only. */
  lemma BlockIsJustified(s: Setup, rs: seq<Request>, k: nat) returns (a: nat, b: nat)
    requires s.Valid() && k < |rs| && ReplyTo(s, rs, k).TooManyAttempts?
    ensures a < b <= k + 1 && From(rs[a], rs[k].address) && From(rs[b - 1], rs[k].address)
    ensures Proper(rs[k].address) ==> rs[a].address == rs[b - 1].address == rs[k].address
    ensures forall j :: a <= j < b && From(rs[j], rs[k].address) ==> !rs[j].valid
    ensures FailuresFrom(rs, rs[k].address, a, b) == s.policy.maxAttempts && rs[b - 1].now - rs[a].now < s.policy.window
    ensures var left := rs[b - 1].now + s.policy.block - rs[k].now;
            left > 0 && (ReplyTo(s, rs, k).retryAfter - 1) * 1_000_000_000 < left <= ReplyTo(s, rs, k).retryAfter * 1_000_000_000
  {
    ReplyByAnswer(s, rs, k);
    a, b := AuthHistory.BlockIsJustified(s.policy, Events(rs), k);
    FailuresAgree(rs, rs[k].address, a, b);
    forall j | 0 <= j < |rs| ensures From(rs[j], rs[k].address) <==> Events(rs)[j].ip == Key(rs[k].address) {
      KeyExactly(rs[j].address, rs[k].address);
    }
  }

  /** Request k is answered 407, and comes from that address. */
  ghost predicate Challenged(s: Setup, rs: seq<Request>, address: string, k: nat)
    requires s.Valid() && k < |rs|
  {
    From(rs[k], address) && ReplyTo(s, rs, k) == AuthRequired
  }

  ghost function ChallengeFlags(s: Setup, rs: seq<Request>, address: string): (r: seq<int>)
    requires s.Valid()
    ensures |r| == |rs|
  {
    seq(|rs|, i requires 0 <= i < |rs| => if Challenged(s, rs, address, i) then 1 else 0)
  }

  /** The replies 407 to one address in a stretch of requests. */
  ghost function Challenges(s: Setup, rs: seq<Request>, address: string, a: nat, b: nat): int
    requires s.Valid() && a <= b <= |rs|
  {
    AuthHistory.Sum(ChallengeFlags(s, rs, address), a, b)
  }

  lemma ChallengeIsUnblocked(s: Setup, rs: seq<Request>, k: nat)
    requires s.Valid() && k < |rs| && ReplyTo(s, rs, k) == AuthRequired
    ensures AuthHistory.IsUnblocked(s.policy, Events(rs), Key(rs[k].address), k)
  {
    ReplyByAnswer(s, rs, k);
  }

  lemma ChallengesAreUnblocked(s: Setup, rs: seq<Request>, address: string, a: nat, b: nat)
    requires s.Valid() && a <= b <= |rs|
    ensures Challenges(s, rs, address, a, b) <= AuthHistory.Unblocked(s.policy, Events(rs), Key(address), a, b)
  {
    var flags, passes := ChallengeFlags(s, rs, address), AuthHistory.Unblocks(s.policy, Events(rs), Key(address));
    forall k | a <= k < b ensures flags[k] <= passes[k] {
      KeyExactly(rs[k].address, address);
      if Challenged(s, rs, address, k) {
        ChallengeIsUnblocked(s, rs, k);
      }
    }
    AuthHistory.SumAtMost(flags, passes, a, b);
  }

  /** The guess bound as a client sees it, for every run: wrong credentials sent from one address
      within less than a window are answered 407, rather than 429, at most 2 * maxAttempts - 3 times,
      and maxAttempts - 1 more for each time that others evict its record meanwhile. */
  lemma ChallengeBound(s: Setup, rs: seq<Request>, address: string, a: nat, b: nat, start: Time)
    requires s.Valid() && s.policy.block >= s.policy.window && a <= b <= |rs|
    requires AuthHistory.GuessSpan(s.policy, Events(rs), Key(address), a, b, start)
    ensures Challenges(s, rs, address, a, b) <=
            (if s.policy.maxAttempts == 1 then 0 else 2 * s.policy.maxAttempts - 3) + AuthHistory.Forgiven(s.policy, Events(rs), Key(address), a, b)
    ensures !AuthHistory.Evicted(s.policy, Events(rs), Key(address), a, b) ==>
              Challenges(s, rs, address, a, b) <= if s.policy.maxAttempts == 1 then 0 else 2 * s.policy.maxAttempts - 3
  {
    var es, ip := Events(rs), Key(address);
    ChallengesAreUnblocked(s, rs, address, a, b);
    AuthHistory.GuessBound(s.policy, es, ip, a, b, start);
    if !AuthHistory.Evicted(s.policy, es, ip, a, b) {
      AuthHistory.GuessBoundUnevicted(s.policy, es, ip, a, b, start);
    }
  }

  /** The same by what a caller can count: evictions happen at most once, and once more for every
      maxIPs requests from other addresses meanwhile. */
  lemma ChallengeBoundByRequests(s: Setup, rs: seq<Request>, address: string, a: nat, b: nat, start: Time)
    requires s.Valid() && s.policy.block >= s.policy.window && a <= b <= |rs|
    requires AuthHistory.GuessSpan(s.policy, Events(rs), Key(address), a, b, start)
    ensures var others := AuthHistory.OtherAttempts(Events(rs), Key(address), a, b);
            Challenges(s, rs, address, a, b) <=
            (if s.policy.maxAttempts == 1 then 0 else 2 * s.policy.maxAttempts - 3) + (s.policy.maxAttempts - 1) * (1 + others / s.policy.maxIPs)
  {
    ChallengesAreUnblocked(s, rs, address, a, b);
    AuthHistory.GuessBoundByAttempts(s.policy, Events(rs), Key(address), a, b, start);
  }
}
