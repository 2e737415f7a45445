/** The race of a request's setup timer with its response headers: doHTTPRequest of
    internal/proxy/http.go.

    The timer's callback and the caller each make one compare-and-swap on the setup state; every
    access is a step of its own, and the timer may go off at any moment until it is stopped. */
module SetupRace {

  datatype Setup = Unset | HeadersReceived | TimedOut

  /** What http.Client.Do gave back. */
  datatype Answer = Answer(response: bool, failed: bool)

  datatype Result = Gives | Deadline | Fails

  datatype Caller = Waiting | Answered(answer: Answer) | Decided(answer: Answer, completed: bool)
                  | Stopped(answer: Answer, completed: bool) | Returned(answer: Answer, result: Result)

  datatype Timer = Pending | Off | Fired | Winner | Loser | Done

  datatype Who = TimerCallback | Setter | Client | BodyReader

  datatype World = World(setup: Setup, caller: Caller, timer: Timer, cancelledBy: set<Who>, bodyClosed: bool)

  datatype Step =
    | Answers(answer: Answer)  // Do returns
    | CallerSwap               // the caller swaps waiting for headers received
    | CallerStop               // the caller stops the timer
    | CallerReturn             // close the body, cancel, return
    | Fire                     // the timer goes off
    | TimerSwap                // the callback swaps waiting for timed out
    | TimerCancel              // the callback's cancel
    | ClientLeaves             // the context of the client's request ends
    | BodyCancel               // the holder of the response uses the returned cancel

  const START := World(Unset, Waiting, Pending, {}, false)

  /** The result, given whether the caller's swap succeeded. */
  function Outcome(answer: Answer, completed: bool): Result {
    if !completed then Deadline else if answer.failed then Fails else Gives
  }

  /** A step that is not possible changes nothing. */
  function Do(w: World, step: Step): World {
    match step
    case Answers(answer) => if w.caller.Waiting? then w.(caller := Answered(answer)) else w
    case CallerSwap =>
      if !w.caller.Answered? then w
      else if w.setup == Unset then w.(setup := HeadersReceived, caller := Decided(w.caller.answer, true))
      else w.(caller := Decided(w.caller.answer, false))
    case CallerStop =>
      if !w.caller.Decided? then w
      else w.(caller := Stopped(w.caller.answer, w.caller.completed), timer := if w.timer.Pending? then Off else w.timer)
    case CallerReturn =>
      if !w.caller.Stopped? then w
      else
        var result := Outcome(w.caller.answer, w.caller.completed);
        w.(caller := Returned(w.caller.answer, result),
           bodyClosed := w.bodyClosed || (result != Gives && w.caller.answer.response),
           cancelledBy := if result == Gives then w.cancelledBy else w.cancelledBy + {Setter})
    case Fire => if w.timer.Pending? then w.(timer := Fired) else w
    case TimerSwap =>
      if !w.timer.Fired? then w
      else if w.setup == Unset then w.(setup := TimedOut, timer := Winner)
      else w.(timer := Loser)
    case TimerCancel =>
      if w.timer.Winner? then w.(timer := Done, cancelledBy := w.cancelledBy + {TimerCallback}) else w
    case ClientLeaves => w.(cancelledBy := w.cancelledBy + {Client})
    case BodyCancel =>
      if w.caller.Returned? && w.caller.result == Gives then w.(cancelledBy := w.cancelledBy + {BodyReader}) else w
  }

  function Run(w: World, steps: seq<Step>): World {
    if steps == [] then w else Do(Run(w, steps[..|steps| - 1]), steps[|steps| - 1])
  }

  predicate CallerWon(c: Caller) {
    ((c.Decided? || c.Stopped?) && c.completed) || (c.Returned? && c.result != Deadline)
  }

  predicate CallerLost(c: Caller) {
    ((c.Decided? || c.Stopped?) && !c.completed) || (c.Returned? && c.result == Deadline)
  }

  predicate TimerWon(t: Timer) {
    t.Winner? || t.Done?
  }

  ghost predicate Valid(w: World) {
    && (w.setup == HeadersReceived <==> CallerWon(w.caller))
    && (w.setup == TimedOut <==> TimerWon(w.timer))
    && (CallerLost(w.caller) ==> w.setup == TimedOut)
    && (TimerCallback in w.cancelledBy <==> w.timer.Done?)
    && (Setter in w.cancelledBy <==> w.caller.Returned? && w.caller.result != Gives)
    && (BodyReader in w.cancelledBy ==> w.caller.Returned? && w.caller.result == Gives)
    && (w.bodyClosed <==> w.caller.Returned? && w.caller.result != Gives && w.caller.answer.response)
    && (w.caller.Returned? && w.caller.result != Deadline ==> (w.caller.result == Fails <==> w.caller.answer.failed))
    && ((w.caller.Stopped? || w.caller.Returned?) ==> !w.timer.Pending?)
  }

  lemma {:induction false} AlwaysValid(steps: seq<Step>)
    ensures Valid(Run(START, steps))
  {
    if steps != [] {
      AlwaysValid(steps[..|steps| - 1]);
    }
  }

  /** Exactly one of "headers received" and "timed out" wins, and the caller's result says which: it
      reports a timeout exactly when the timer's callback won, and otherwise what the client gave it. */
  lemma ExactlyOneWinner(steps: seq<Step>)
    requires Run(START, steps).caller.Returned?
    ensures var w := Run(START, steps);
            && (w.caller.result == Deadline <==> w.setup == TimedOut)
            && (w.caller.result == Fails <==> w.setup == HeadersReceived && w.caller.answer.failed)
            && (w.caller.result == Gives <==> w.setup == HeadersReceived && !w.caller.answer.failed)
            && (w.setup == TimedOut <==> w.timer.Winner? || w.timer.Done?)
  {
    AlwaysValid(steps);
  }

  lemma {:induction false} Concat(w: World, a: seq<Step>, b: seq<Step>)
    ensures Run(w, a + b) == Run(Run(w, a), b)
  {
    if b == [] {
      assert a + b == a;
    } else {
      assert (a + b)[..|a + b| - 1] == a + b[..|b| - 1];
      Concat(w, a, b[..|b| - 1]);
    }
  }

  lemma AppendStep(w: World, steps: seq<Step>, step: Step)
    ensures Run(w, steps + [step]) == Do(Run(w, steps), step)
  {
    assert (steps + [step])[..|steps|] == steps;
  }

  lemma Pair(steps: seq<Step>, a: Step, b: Step)
    ensures steps + [a, b] == steps + [a] + [b]
  {
  }

  lemma {:induction false} ReturnedStays(w: World, steps: seq<Step>)
    requires w.caller.Returned?
    ensures Run(w, steps).caller == w.caller
  {
    if steps != [] {
      ReturnedStays(w, steps[..|steps| - 1]);
    }
  }

  /** The client's leaving always cancels, and nothing else is taken for it. */
  lemma {:induction false} ClientExactly(w: World, steps: seq<Step>)
    ensures Client in Run(w, steps).cancelledBy <==> Client in w.cancelledBy || ClientLeaves in steps
  {
    if steps != [] {
      var before, last := steps[..|steps| - 1], steps[|steps| - 1];
      assert steps == before + [last];
      ClientExactly(w, before);
      OneLeaves(Run(w, before), last);
    }
  }

  lemma OneLeaves(w: World, step: Step)
    ensures Client in Do(w, step).cancelledBy <==> Client in w.cancelledBy || step == ClientLeaves
  {
  }

  /** So does the holder of a returned response. */
  lemma {:induction false} HolderExactly(w: World, steps: seq<Step>)
    requires w.caller.Returned? && w.caller.result == Gives
    ensures BodyReader in Run(w, steps).cancelledBy <==> BodyReader in w.cancelledBy || BodyCancel in steps
  {
    if steps != [] {
      var before, last := steps[..|steps| - 1], steps[|steps| - 1];
      assert steps == before + [last];
      HolderExactly(w, before);
      ReturnedStays(w, before);
      OneHolds(Run(w, before), last);
    }
  }

  lemma OneHolds(w: World, step: Step)
    requires w.caller.Returned? && w.caller.result == Gives
    ensures BodyReader in Do(w, step).cancelledBy <==> BodyReader in w.cancelledBy || step == BodyCancel
  {
  }

  /** A response that was returned is never cancelled by the setup timer, nor by doHTTPRequest, and
      its body is left open, whatever happens later: it is cancelled exactly when the client leaves or
      its holder cancels it. A response that is not returned has its body closed and its context
      cancelled. */
  lemma ReturnedResponseIsSafe(before: seq<Step>, after: seq<Step>)
    requires Run(START, before).caller.Returned?
    ensures var w := Run(Run(START, before), after);
            var c := Run(START, before).caller;
            && (c.result == Gives ==>
                  && w.cancelledBy <= {Client, BodyReader} && !w.bodyClosed
                  && (Client in w.cancelledBy <==> ClientLeaves in before + after)
                  && (BodyReader in w.cancelledBy <==>
                        BodyReader in Run(START, before).cancelledBy || BodyCancel in after))
            && (c.result != Gives ==> Setter in w.cancelledBy && (w.bodyClosed <==> c.answer.response))
  {
    AlwaysValid(before + after);
    Concat(START, before, after);
    ReturnedStays(Run(START, before), after);
    ClientExactly(START, before + after);
    var w := Run(Run(START, before), after);
    if w.caller.result == Gives {
      HolderExactly(Run(START, before), after);
    }
    forall who | who in w.cancelledBy && w.caller.result == Gives ensures who in {Client, BodyReader} {
      assert who != TimerCallback && who != Setter;
    }
  }

  // ----- the atomic variable and its two users -----

  class SetupState {
    var value: int

    constructor ()
      ensures value == 0
    {
      value := 0;
    }

    method CompareAndSwap(expected: int, replacement: int) returns (swapped: bool)
      modifies this
      ensures swapped <==> old(value) == expected
      ensures value == if swapped then replacement else old(value)
    {
      swapped := value == expected;
      if swapped {
        value := replacement;
      }
    }

    /** The timer's callback; whether it cancels the request. */
    method TimeOut() returns (cancels: bool)
      modifies this
      ensures cancels <==> old(value) == 0
      ensures value == if old(value) == 0 then 2 else old(value)
    {
      cancels := CompareAndSwap(0, 2);
    }
  }

  /** One call of doHTTPRequest as steps: the timer may go off before the caller's swap, or after it
      but before it is stopped. */
  ghost function Early(answer: Answer, firesBefore: bool): seq<Step> {
    [Answers(answer)] + (if firesBefore then [Fire, TimerSwap] else []) + [CallerSwap]
  }

  ghost function Schedule(answer: Answer, firesBefore: bool, firesAfter: bool): seq<Step> {
    Early(answer, firesBefore) + (if firesAfter then [Fire, TimerSwap] else []) + [CallerStop, CallerReturn]
  }

  /** Each end is reached by some run. */
  lemma EarlyEnd(answer: Answer, firesBefore: bool)
    ensures Run(START, Early(answer, firesBefore)) ==
            if firesBefore then World(TimedOut, Decided(answer, false), Winner, {}, false)
            else World(HeadersReceived, Decided(answer, true), Pending, {}, false)
  {
    AppendStep(START, [], Answers(answer));
    assert [] + [Answers(answer)] == [Answers(answer)];
    AppendStep(START, [Answers(answer)], Fire);
    AppendStep(START, [Answers(answer)] + [Fire], TimerSwap);
    Pair([Answers(answer)], Fire, TimerSwap);
    AppendStep(START, [Answers(answer)] + (if firesBefore then [Fire, TimerSwap] else []), CallerSwap);
    assert [Answers(answer)] + [] == [Answers(answer)];
  }

  lemma ScheduleEnd(answer: Answer, firesBefore: bool, firesAfter: bool)
    ensures var result := if firesBefore then Deadline else if answer.failed then Fails else Gives;
            var timer := if firesBefore then Winner else if firesAfter then Loser else Off;
            Run(START, Schedule(answer, firesBefore, firesAfter)) ==
            World(if firesBefore then TimedOut else HeadersReceived, Returned(answer, result), timer,
                  if result == Gives then {} else {Setter}, answer.response && result != Gives)
  {
    var early := Early(answer, firesBefore);
    EarlyEnd(answer, firesBefore);
    AppendStep(START, early, Fire);
    AppendStep(START, early + [Fire], TimerSwap);
    Pair(early, Fire, TimerSwap);
    assert early + [] == early;
    var late := early + if firesAfter then [Fire, TimerSwap] else [];
    AppendStep(START, late, CallerStop);
    AppendStep(START, late + [CallerStop], CallerReturn);
    Pair(late, CallerStop, CallerReturn);
  }

  /** doHTTPRequest as one sequence: the timer's callback runs before the caller's swap, or after it
      but too late to be stopped, or not at all. Only the first makes the request fail. It ends as
      the run of its steps does. */
  method DoHTTPRequest(answer: Answer, firesBefore: bool, firesAfter: bool)
    returns (result: Result, timerCancelled: bool, bodyClosed: bool)
    ensures result == if firesBefore then Deadline else if answer.failed then Fails else Gives
    ensures timerCancelled <==> firesBefore
    ensures bodyClosed <==> answer.response && result != Gives
    ensures var w := Run(START, Schedule(answer, firesBefore, firesAfter));
            && w.caller == Returned(answer, result) && w.bodyClosed == bodyClosed
            && (timerCancelled <==> w.timer == Winner)
  {
    ScheduleEnd(answer, firesBefore, firesAfter);
    var setupState := new SetupState();
    timerCancelled := false;
    if firesBefore {
      timerCancelled := setupState.TimeOut();
    }
    var completed := setupState.CompareAndSwap(0, 1);
    if firesAfter {
      var again := setupState.TimeOut();
      timerCancelled := timerCancelled || again;
    }
    if !completed {
      return Deadline, timerCancelled, answer.response;
    }
    if answer.failed {
      return Fails, timerCancelled, answer.response;
    }
    return Gives, timerCancelled, false;
  }
}
