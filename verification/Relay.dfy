/** The relay of a tunnel and its idle timer: relay and idleCloser of internal/proxy/tunnel.go.

    Two goroutines copy, each touching the timer after every Read that returned bytes; the relay
    waits for both and closes the pair after a first failure; when the timer goes off it starts a
    goroutine that closes the pair. Each of these comes at most `lag` after it became possible. */
module Relay {
  import opened Prelude

  /** The timer, and whether stop was called. */
  datatype Idle = Idle(due: Option<Time>, stopped: bool)

  /** The critical section of touch: Reset also starts a timer that has gone off. */
  function Touched(i: Idle, now: Time, duration: int): Idle {
    if i.stopped then i else Idle(Some(now + duration), false)
  }

  class IdleCloser {
    var due: Option<Time>
    var stopped: bool

    ghost function Contents(): Idle
      reads this
    {
      Idle(due, stopped)
    }

    constructor (now: Time, duration: int)
      ensures Contents() == Idle(Some(now + duration), false)
    {
      due := Some(now + duration);
      stopped := false;
    }

    method Touch(now: Time, duration: int)
      modifies this
      ensures Contents() == Touched(old(Contents()), now, duration)
    {
      if !stopped {
        due := Some(now + duration);
      }
    }

    method Stop()
      modifies this
      ensures Contents() == Idle(None, true)
    {
      stopped := true;
      due := None;
    }
  }

  datatype Params = Params(idleTimeout: int, lag: nat)

  /** A copying goroutine; it touches the timer between getting bytes, at `at`, and going on. */
  datatype Copy = Copying | Touching(at: Time) | Finished(failed: bool) | Sent(failed: bool)

  datatype Main =
    | AwaitFirst
    | First(first: bool)
    | AwaitSecond(first: bool)
    | Stopping(first: bool, second: bool)
    | Returned(first: bool, second: bool)

  /** The timer went off at `at`, after that many touches. */
  datatype Expiry = Expiry(at: Time, touches: nat)

  /** Results are failures, and `callbacks` are the expiries whose goroutine has not run yet. For the
      statements: the results in the order they were sent, when bytes last arrived, when and how often
      the timer was touched, and how often it went off. */
  datatype World = World(now: Time, idle: Idle, up: Copy, down: Copy, results: seq<bool>, main: Main,
                         callbacks: seq<Expiry>, closed: bool, interrupted: bool,
                         sends: seq<bool>, lastBytes: Time, lastTouch: Time, touches: nat, expiries: nat)

  datatype Step =
    | Tick(time: Time)
    | Bytes(up: bool)               // a Read returns bytes
    | Touch(up: bool)               // and touches the timer
    | End(up: bool, failed: bool)   // io.Copy, with its half-close, ends
    | Send(up: bool)                // and its result goes into the channel
    | TakeFirst                     // the relay takes the first result
    | CloseOnError                  // a first failure closes the pair
    | TakeSecond                    // the relay takes the second result
    | StopIdle                      // the deferred stop of the timer
    | Expire                        // the timer goes off and starts its goroutine
    | Callback                      // that goroutine calls closePair
    | Interrupt                     // closeAll, or the end of the client's HTTP/2 request, calls closePair

  function Start(p: Params): World {
    World(0, Idle(Some(p.idleTimeout), false), Copying, Copying, [], AwaitFirst, [], false, false, [], 0, 0, 0, 0)
  }

  function Side(w: World, up: bool): Copy {
    if up then w.up else w.down
  }

  function With(w: World, up: bool, c: Copy): World {
    if up then w.(up := c) else w.(down := c)
  }

  /** No goroutine and no timer is late at t. */
  predicate OnTime(p: Params, w: World, t: Time) {
    && (w.idle.due.Some? ==> t <= w.idle.due.value + p.lag)
    && (w.up.Touching? ==> t <= w.up.at + p.lag)
    && (w.down.Touching? ==> t <= w.down.at + p.lag)
    && (w.callbacks != [] ==> t <= w.callbacks[0].at + p.lag)
  }

  /** A step that is not possible changes nothing. */
  function Do(p: Params, w: World, step: Step): World {
    match step
    case Tick(t) => if w.now < t && OnTime(p, w, t) then w.(now := t) else w
    case Bytes(up) => if Side(w, up).Copying? then With(w, up, Touching(w.now)).(lastBytes := w.now) else w
    case Touch(up) =>
      if Side(w, up).Touching? then
        With(w, up, Copying).(idle := Touched(w.idle, w.now, p.idleTimeout), lastTouch := w.now, touches := w.touches + 1)
      else w
    case End(up, failed) => if Side(w, up).Copying? then With(w, up, Finished(failed)) else w
    case Send(up) =>
      if Side(w, up).Finished? && |w.results| < 2 then
        var failed := Side(w, up).failed;
        With(w, up, Sent(failed)).(results := w.results + [failed], sends := w.sends + [failed])
      else w
    case TakeFirst =>
      if w.main.AwaitFirst? && w.results != [] then w.(results := w.results[1..], main := First(w.results[0])) else w
    case CloseOnError =>
      if w.main.First? then w.(main := AwaitSecond(w.main.first), closed := w.closed || w.main.first) else w
    case TakeSecond =>
      if w.main.AwaitSecond? && w.results != [] then
        w.(results := w.results[1..], main := Stopping(w.main.first, w.results[0]))
      else w
    case StopIdle =>
      if w.main.Stopping? then w.(idle := Idle(None, true), main := Returned(w.main.first, w.main.second)) else w
    case Expire =>
      if w.idle.due.Some? && w.idle.due.value <= w.now then
        w.(idle := Idle(None, w.idle.stopped), callbacks := w.callbacks + [Expiry(w.now, w.touches)], expiries := w.expiries + 1)
      else w
    case Callback => if w.callbacks != [] then w.(callbacks := w.callbacks[1..], closed := true) else w
    case Interrupt => w.(closed := true, interrupted := true)
  }

  function Run(p: Params, w: World, steps: seq<Step>): World {
    if steps == [] then w else Do(p, Run(p, w, steps[..|steps| - 1]), steps[|steps| - 1])
  }

  // ----- what every step keeps -----

  /** The results that the main goroutine has taken. */
  function Taken(m: Main): seq<bool> {
    match m
    case AwaitFirst => []
    case First(f) => [f]
    case AwaitSecond(f) => [f]
    case Stopping(f, g) => [f, g]
    case Returned(f, g) => [f, g]
  }

  /** The channel is first in, first out, and holds what the ended copies sent. */
  ghost predicate ChannelValid(w: World) {
    && w.sends == Taken(w.main) + w.results
    && (!w.up.Sent? && !w.down.Sent? ==> w.sends == [])
    && (w.up.Sent? && !w.down.Sent? ==> w.sends == [w.up.failed])
    && (!w.up.Sent? && w.down.Sent? ==> w.sends == [w.down.failed])
    && (w.up.Sent? && w.down.Sent? ==> w.sends == [w.up.failed, w.down.failed] || w.sends == [w.down.failed, w.up.failed])
  }

  /** Bytes and touches: those of a copy that still touches the timer are recent. */
  ghost predicate BytesValid(p: Params, w: World) {
    && w.lastTouch <= w.now && w.lastBytes <= w.now
    && (w.up.Touching? ==> w.up.at <= w.lastBytes && w.now <= w.up.at + p.lag)
    && (w.down.Touching? ==> w.down.at <= w.lastBytes && w.now <= w.down.at + p.lag)
    && (!w.up.Touching? && !w.down.Touching? ==> w.lastBytes <= w.lastTouch)
  }

  ghost predicate IdleValid(p: Params, w: World) {
    && (w.idle.stopped <==> w.main.Returned?)
    && (w.idle.due.Some? ==> w.idle.due == Some(w.lastTouch + p.idleTimeout) && w.now <= w.idle.due.value + p.lag)
    && (w.idle.stopped ==> w.idle.due.None?)
    && (w.idle.due.None? && !w.idle.stopped ==>
          w.closed || (w.callbacks != [] && w.callbacks[0].at <= w.lastTouch + p.idleTimeout + p.lag))
  }

  /** The timer was due when it went off, and the bytes of any touch since then are no older than a lag
      before that. */
  ghost predicate ExpiryValid(p: Params, w: World, e: Expiry) {
    && e.at <= w.now && e.touches <= w.touches
    && (w.touches == e.touches ==> w.lastTouch + p.idleTimeout <= e.at)
    && (w.touches > e.touches ==> w.lastBytes >= e.at - p.lag)
  }

  ghost predicate CallbacksValid(p: Params, w: World) {
    && (forall e :: e in w.callbacks ==> ExpiryValid(p, w, e))
    && (forall i, j :: 0 <= i < j < |w.callbacks| ==> w.callbacks[i].at <= w.callbacks[j].at)
    && (w.callbacks != [] ==> w.now <= w.callbacks[0].at + p.lag)
  }

  /** The first result was a failure and the main goroutine has acted on it. */
  predicate ClosedOnError(m: Main) {
    (m.AwaitSecond? || m.Stopping? || m.Returned?) && m.first
  }

  ghost predicate CloseValid(w: World) {
    && (w.closed <==> ClosedOnError(w.main) || |w.callbacks| < w.expiries || w.interrupted)
    && |w.callbacks| <= w.expiries
  }

  ghost predicate Valid(p: Params, w: World) {
    ChannelValid(w) && BytesValid(p, w) && IdleValid(p, w) && CallbacksValid(p, w) && CloseValid(w)
  }

  lemma SendKeepsChannel(p: Params, w: World, up: bool)
    requires ChannelValid(w)
    ensures ChannelValid(Do(p, w, Send(up)))
  {
    if Side(w, up).Finished? {
      var failed := Side(w, up).failed;
      Associative(Taken(w.main), w.results, [failed]);
      assert [] + [failed] == [failed];
      assert forall f: bool :: [f] + [failed] == [f, failed];
    }
  }

  lemma TakeKeepsChannel(p: Params, w: World, step: Step)
    requires ChannelValid(w) && (step.TakeFirst? || step.TakeSecond?)
    ensures ChannelValid(Do(p, w, step))
  {
    if w.results != [] {
      assert w.results == [w.results[0]] + w.results[1..];
      Associative(Taken(w.main), [w.results[0]], w.results[1..]);
    }
  }

  lemma OthersKeepChannel(p: Params, w: World, step: Step)
    requires ChannelValid(w) && !step.Send? && !step.TakeFirst? && !step.TakeSecond?
    ensures ChannelValid(Do(p, w, step))
  {
  }

  lemma KeepBytes(p: Params, w: World, step: Step)
    requires BytesValid(p, w)
    ensures BytesValid(p, Do(p, w, step))
  {
  }

  lemma CopiesKeepIdle(p: Params, w: World, step: Step)
    requires IdleValid(p, w) && ChannelValid(w) && p.idleTimeout > 0
    requires step.Bytes? || step.Touch? || step.End? || step.Send?
    ensures IdleValid(p, Do(p, w, step))
  {
    // A copy that still touches has not sent, so the relay has not stopped the timer.
    assert step.Touch? && Side(w, step.up).Touching? ==> |w.sends| < 2 && !w.main.Returned?;
  }

  lemma OthersKeepIdle(p: Params, w: World, step: Step)
    requires IdleValid(p, w) && !step.Bytes? && !step.Touch? && !step.End? && !step.Send?
    requires step.Expire? ==> CallbacksValid(p, w)
    ensures IdleValid(p, Do(p, w, step))
  {
    assert step.Expire? && w.callbacks != [] ==> ExpiryValid(p, w, w.callbacks[0]);
  }

  /** A step that starts or ends no callback. */
  lemma ExpiriesStay(p: Params, w: World, step: Step)
    requires CallbacksValid(p, w) && BytesValid(p, w) && !step.Expire? && !step.Callback?
    ensures CallbacksValid(p, Do(p, w, step))
  {
    var w' := Do(p, w, step);
    forall e | e in w'.callbacks ensures ExpiryValid(p, w', e) {
      assert ExpiryValid(p, w, e);
    }
  }

  lemma ExpireKeepsCallbacks(p: Params, w: World)
    requires CallbacksValid(p, w) && IdleValid(p, w)
    ensures CallbacksValid(p, Do(p, w, Expire))
  {
    var w' := Do(p, w, Expire);
    forall e | e in w'.callbacks ensures ExpiryValid(p, w', e) {
      assert e in w.callbacks ==> ExpiryValid(p, w, e);
    }
    forall i | 0 <= i < |w.callbacks| ensures w.callbacks[i].at <= w.now {
      assert w.callbacks[i] in w.callbacks;
    }
  }

  lemma CallbackKeepsCallbacks(p: Params, w: World)
    requires CallbacksValid(p, w)
    ensures CallbacksValid(p, Do(p, w, Callback))
  {
    var w' := Do(p, w, Callback);
    forall e | e in w'.callbacks ensures ExpiryValid(p, w', e) {
      assert e in w.callbacks && ExpiryValid(p, w, e);
    }
  }

  lemma KeepClose(p: Params, w: World, step: Step)
    requires CloseValid(w)
    ensures CloseValid(Do(p, w, step))
  {
  }

  lemma KeepChannel(p: Params, w: World, step: Step)
    requires ChannelValid(w)
    ensures ChannelValid(Do(p, w, step))
  {
    if step.Send? {
      SendKeepsChannel(p, w, step.up);
    } else if step.TakeFirst? || step.TakeSecond? {
      TakeKeepsChannel(p, w, step);
    } else {
      OthersKeepChannel(p, w, step);
    }
  }

  lemma KeepIdle(p: Params, w: World, step: Step)
    requires p.idleTimeout > 0 && Valid(p, w)
    ensures IdleValid(p, Do(p, w, step))
  {
    if step.Bytes? || step.Touch? || step.End? || step.Send? {
      CopiesKeepIdle(p, w, step);
    } else {
      OthersKeepIdle(p, w, step);
    }
  }

  lemma KeepCallbacks(p: Params, w: World, step: Step)
    requires Valid(p, w)
    ensures CallbacksValid(p, Do(p, w, step))
  {
    if step.Expire? {
      ExpireKeepsCallbacks(p, w);
    } else if step.Callback? {
      CallbackKeepsCallbacks(p, w);
    } else {
      ExpiriesStay(p, w, step);
    }
  }

  lemma DoValid(p: Params, w: World, step: Step)
    requires p.idleTimeout > 0 && Valid(p, w)
    ensures Valid(p, Do(p, w, step))
  {
    KeepChannel(p, w, step);
    KeepBytes(p, w, step);
    KeepIdle(p, w, step);
    KeepCallbacks(p, w, step);
    KeepClose(p, w, step);
  }

  lemma StartValid(p: Params)
    requires p.idleTimeout > 0
    ensures Valid(p, Start(p))
  {
  }

  lemma {:induction false} AlwaysValid(p: Params, steps: seq<Step>)
    requires p.idleTimeout > 0
    ensures Valid(p, Run(p, Start(p), steps))
  {
    if steps == [] {
      StartValid(p);
    } else {
      AlwaysValid(p, steps[..|steps| - 1]);
      DoValid(p, Run(p, Start(p), steps[..|steps| - 1]), steps[|steps| - 1]);
    }
  }

  // ----- results -----

  /** The relay returns only after both copies have ended and sent their results, which it then has,
      each once; neither copy ever waits for room in the channel; and once both have sent, the relay
      always has a step to make. */
  lemma ReturnsAfterBoth(p: Params, steps: seq<Step>)
    requires p.idleTimeout > 0
    ensures var w := Run(p, Start(p), steps);
            && (w.main.Returned? ==>
                  && w.up.Sent? && w.down.Sent? && w.results == []
                  && multiset{w.main.first, w.main.second} == multiset{w.up.failed, w.down.failed})
            && ((w.up.Finished? || w.down.Finished?) ==> |w.results| < 2)
            && (w.up.Sent? && w.down.Sent? && !w.main.Returned? ==>
                  exists step :: step in {TakeFirst, CloseOnError, TakeSecond, StopIdle} && Do(p, w, step) != w)
  {
    AlwaysValid(p, steps);
    var w := Run(p, Start(p), steps);
    assert |w.sends| == |Taken(w.main)| + |w.results|;
    if w.main.Returned? {
      assert w.sends[0] == w.main.first && w.sends[1] == w.main.second;
    } else if w.up.Sent? && w.down.Sent? {
      var step := if w.main.AwaitFirst? then TakeFirst else if w.main.First? then CloseOnError
                  else if w.main.AwaitSecond? then TakeSecond else StopIdle;
      assert Do(p, w, step).main != w.main;
    }
  }

  /** closePair was called exactly when the copy that ended first had failed and the relay has acted on
      it, when the idle timer's goroutine has run, or when shutdown or the client's context called it:
      a clean end of one direction leaves the other open. */
  lemma ClosedExactly(p: Params, steps: seq<Step>)
    requires p.idleTimeout > 0
    ensures var w := Run(p, Start(p), steps);
            && (w.closed <==> ClosedOnError(w.main) || |w.callbacks| < w.expiries || w.interrupted)
            && (!w.main.AwaitFirst? ==> w.sends != [] && w.main.first == w.sends[0])
            && forall up :: Ended(Side(w, up)) ==> End(up, Side(w, up).failed) in steps
    ensures Run(p, Start(p), steps).interrupted <==> Interrupt in steps
  {
    AlwaysValid(p, steps);
    InterruptedExactly(p, Start(p), steps);
    forall up | Ended(Side(Run(p, Start(p), steps), up)) {
      EndedAs(p, steps, up);
    }
  }

  predicate Ended(c: Copy) {
    c.Finished? || c.Sent?
  }

  /** A copy that has ended did so as its io.Copy did. */
  lemma {:induction false} EndedAs(p: Params, steps: seq<Step>, up: bool)
    requires Ended(Side(Run(p, Start(p), steps), up))
    ensures End(up, Side(Run(p, Start(p), steps), up).failed) in steps
  {
    if steps != [] {
      var before, last := steps[..|steps| - 1], steps[|steps| - 1];
      assert steps == before + [last];
      OneEnd(p, Run(p, Start(p), before), last, up);
      if Ended(Side(Run(p, Start(p), before), up)) {
        EndedAs(p, before, up);
      }
    }
  }

  lemma OneEnd(p: Params, w: World, step: Step, up: bool)
    requires Ended(Side(Do(p, w, step), up))
    ensures var c := Side(Do(p, w, step), up);
            (Ended(Side(w, up)) && Side(w, up).failed == c.failed) || step == End(up, c.failed)
  {
  }

  lemma {:induction false} InterruptedExactly(p: Params, w: World, steps: seq<Step>)
    ensures Run(p, w, steps).interrupted <==> w.interrupted || Interrupt in steps
  {
    if steps != [] {
      var before, last := steps[..|steps| - 1], steps[|steps| - 1];
      assert steps == before + [last];
      InterruptedExactly(p, w, before);
      OneInterrupt(p, Run(p, w, before), last);
    }
  }

  lemma OneInterrupt(p: Params, w: World, step: Step)
    ensures Do(p, w, step).interrupted <==> w.interrupted || step == Interrupt
  {
  }

  /** Every way to return is taken by some run: either copy first, each with or without a failure. */
  ghost function Ending(up: bool, first: bool, second: bool): seq<Step> {
    [End(up, first), Send(up)] + [TakeFirst, CloseOnError] + [End(!up, second), Send(!up)] + [TakeSecond, StopIdle]
  }

  lemma Append(p: Params, w: World, steps: seq<Step>, a: Step, b: Step)
    ensures Run(p, w, steps + [a, b]) == Do(p, Do(p, Run(p, w, steps), a), b)
  {
    assert (steps + [a, b])[..|steps| + 1] == steps + [a] && (steps + [a])[..|steps|] == steps;
  }

  lemma EndsFirst(p: Params, up: bool, first: bool)
    ensures var w := Run(p, Start(p), [End(up, first), Send(up)] + [TakeFirst, CloseOnError]);
            && Side(w, up) == Sent(first) && Side(w, !up) == Copying && w.results == [] && w.main == AwaitSecond(first)
            && (w.closed <==> first)
  {
    TwoSteps(p, Start(p), End(up, first), Send(up));
    Append(p, Start(p), [End(up, first), Send(up)], TakeFirst, CloseOnError);
  }

  lemma EveryReturn(p: Params, up: bool, first: bool, second: bool)
    ensures var w := Run(p, Start(p), Ending(up, first, second));
            && w.main == Returned(first, second) && Side(w, up) == Sent(first) && Side(w, !up) == Sent(second)
            && (w.closed <==> first) && w.idle == Idle(None, true)
  {
    var half := [End(up, first), Send(up)] + [TakeFirst, CloseOnError];
    EndsFirst(p, up, first);
    Append(p, Start(p), half, End(!up, second), Send(!up));
    Append(p, Start(p), half + [End(!up, second), Send(!up)], TakeSecond, StopIdle);
  }

  // ----- the idle timer -----

  predicate IsTouching(w: World) {
    w.up.Touching? || w.down.Touching?
  }

  /** The timer can go off. */
  predicate IsDue(p: Params, w: World) {
    Do(p, w, Expire) != w
  }

  /** No bytes have moved in either direction for idleTimeout. */
  predicate IsIdle(p: Params, w: World) {
    w.now - w.lastBytes >= p.idleTimeout
  }

  /** The timer goes off only idleTimeout after it was last touched, so when no goroutine stands
      between a Read and its touch, no bytes have moved in either direction for that long. */
  lemma ExpiresOnlyWhenIdle(p: Params, steps: seq<Step>)
    requires p.idleTimeout > 0 && IsDue(p, Run(p, Start(p), steps))
    ensures var w := Run(p, Start(p), steps);
            && w.now >= w.lastTouch + p.idleTimeout
            && (!IsTouching(w) ==> IsIdle(p, w))
  {
    AlwaysValid(p, steps);
  }

  /** When the lag is below the timeout that is exact: the timer goes off on an idle tunnel if and only
      if no goroutine stands between a Read and its touch. */
  lemma ExpiryIsRightExactly(p: Params, steps: seq<Step>)
    requires p.idleTimeout > 0 && p.lag < p.idleTimeout && IsDue(p, Run(p, Start(p), steps))
    ensures var w := Run(p, Start(p), steps); IsIdle(p, w) <==> !IsTouching(w)
  {
    AlwaysValid(p, steps);
  }

  /** Nothing has touched the timer since the oldest expiry whose goroutine is to run, nor is about to. */
  predicate Untouched(w: World)
    requires w.callbacks != []
  {
    !IsTouching(w) && w.touches == w.callbacks[0].touches
  }

  /** Under that condition the goroutine closes an idle tunnel, whatever the lag. */
  lemma ClosesOnlyWhenIdle(p: Params, steps: seq<Step>)
    requires p.idleTimeout > 0 && Run(p, Start(p), steps).callbacks != [] && Untouched(Run(p, Start(p), steps))
    ensures IsIdle(p, Run(p, Start(p), steps))
  {
    AlwaysValid(p, steps);
    var w := Run(p, Start(p), steps);
    assert ExpiryValid(p, w, w.callbacks[0]);
  }

  /** Main result: when the lag is below half the timeout, the goroutine of the idle timer, about to
      close the pair, is right to do so if and only if no touch came after the expiry and none is
      pending. */
  lemma CloseIsRightExactly(p: Params, steps: seq<Step>)
    requires p.idleTimeout > 0 && 2 * p.lag < p.idleTimeout && Run(p, Start(p), steps).callbacks != []
    ensures var w := Run(p, Start(p), steps);
            && (IsIdle(p, w) <==> Untouched(w))
            && Do(p, w, Callback).closed
  {
    AlwaysValid(p, steps);
    var w := Run(p, Start(p), steps);
    assert ExpiryValid(p, w, w.callbacks[0]);
  }

  lemma TwoSteps(p: Params, w: World, a: Step, b: Step)
    ensures Run(p, w, [a, b]) == Do(p, Do(p, w, a), b)
  {
    assert [a][..0] == [] && Run(p, w, [a]) == Do(p, w, a);
    assert [a, b][..1] == [a];
  }

  lemma FiveSteps(p: Params, w: World, a: Step, b: Step, c: Step, d: Step, e: Step)
    ensures Run(p, w, [a, b, c, d, e]) == Do(p, Do(p, Do(p, Run(p, w, [a, b]), c), d), e)
  {
    assert [a, b, c][..2] == [a, b] && Run(p, w, [a, b, c]) == Do(p, Run(p, w, [a, b]), c);
    assert [a, b, c, d][..3] == [a, b, c] && Run(p, w, [a, b, c, d]) == Do(p, Run(p, w, [a, b, c]), d);
    assert [a, b, c, d, e][..4] == [a, b, c, d];
  }

  /** Pending touches do matter, for every timeout and lag: bytes arrive just when the timer is due, and
      it goes off before they have touched it. */
  lemma ExpiresOnFreshBytes(p: Params, up: bool)
    requires p.idleTimeout > 0
    ensures var w := Run(p, Start(p), [Tick(p.idleTimeout), Bytes(up)]);
            IsDue(p, w) && w.lastBytes == w.now && IsTouching(w)
  {
    TwoSteps(p, Start(p), Tick(p.idleTimeout), Bytes(up));
    assert Do(p, Start(p), Tick(p.idleTimeout)) == Start(p).(now := p.idleTimeout);
  }

  /** And so do later ones: the timer goes off on an idle tunnel, bytes arrive and touch it, and then its
      goroutine closes the pair under both running copies. */
  lemma ClosesOnTouchedBytes(p: Params, up: bool)
    requires p.idleTimeout > 0
    ensures var w := Run(p, Start(p), [Tick(p.idleTimeout), Expire, Bytes(up), Touch(up), Callback]);
            w.closed && !w.interrupted && w.lastBytes == w.lastTouch == w.now && w.up == w.down == Copying
  {
    TwoSteps(p, Start(p), Tick(p.idleTimeout), Expire);
    assert Do(p, Start(p), Tick(p.idleTimeout)) == Start(p).(now := p.idleTimeout);
    FiveSteps(p, Start(p), Tick(p.idleTimeout), Expire, Bytes(up), Touch(up), Callback);
  }

  /** A tunnel that is not touched for idleTimeout and two lags is closed, unless the relay has
      returned. */
  lemma IdleTunnelCloses(p: Params, steps: seq<Step>)
    requires p.idleTimeout > 0
    ensures var w := Run(p, Start(p), steps);
            w.now > w.lastTouch + p.idleTimeout + 2 * p.lag ==> w.main.Returned? || w.closed
  {
    AlwaysValid(p, steps);
  }

  /** Promptness does not come from a stopped clock: whenever time may not pass, a copy, the timer or
      its goroutine has a step to make. */
  lemma ClockNeverStuck(p: Params, steps: seq<Step>)
    requires p.idleTimeout > 0
    ensures var w := Run(p, Start(p), steps);
            || Do(p, w, Tick(w.now + 1)) != w
            || exists step :: step in {Touch(true), Touch(false), Expire, Callback} && Do(p, w, step) != w
  {
    AlwaysValid(p, steps);
    var w := Run(p, Start(p), steps);
    if OnTime(p, w, w.now + 1) {
      assert Do(p, w, Tick(w.now + 1)).now == w.now + 1;
    } else {
      var step := if w.up.Touching? then Touch(true) else if w.down.Touching? then Touch(false)
                  else if w.callbacks != [] then Callback else Expire;
      Moves(p, w, step);
    }
  }

  lemma Moves(p: Params, w: World, step: Step)
    requires match step
             case Touch(up) => Side(w, up).Touching?
             case Callback => w.callbacks != []
             case Expire => w.idle.due.Some? && w.idle.due.value <= w.now
             case _ => false
    ensures Do(p, w, step) != w
  {
    if step.Touch? {
      assert Side(Do(p, w, step), step.up) == Copying;
    } else if step.Callback? {
      assert |Do(p, w, step).callbacks| < |w.callbacks|;
    } else {
      assert Do(p, w, step).idle.due.None?;
    }
  }

  /** After the relay has returned, the timer is never set again and never goes off. */
  lemma {:induction false} NeverRearmed(p: Params, w: World, steps: seq<Step>)
    requires w.idle == Idle(None, true) && w.main.Returned?
    ensures var w' := Run(p, w, steps);
            w'.idle == w.idle && w'.main == w.main && w'.expiries == w.expiries
  {
    if steps != [] {
      NeverRearmed(p, w, steps[..|steps| - 1]);
      StaysStopped(p, Run(p, w, steps[..|steps| - 1]), steps[|steps| - 1]);
    }
  }

  lemma StaysStopped(p: Params, w: World, step: Step)
    requires w.idle == Idle(None, true) && w.main.Returned?
    ensures var w' := Do(p, w, step);
            w'.idle == w.idle && w'.main == w.main && w'.expiries == w.expiries
  {
  }

  /** Every return leaves the timer in that state. */
  lemma ReturnedMeansStopped(p: Params, before: seq<Step>, after: seq<Step>)
    requires p.idleTimeout > 0 && Run(p, Start(p), before).main.Returned?
    ensures var w := Run(p, Start(p), before);
            var w' := Run(p, w, after);
            w'.idle == Idle(None, true) && w'.expiries == w.expiries
  {
    AlwaysValid(p, before);
    NeverRearmed(p, Run(p, Start(p), before), after);
  }
}
