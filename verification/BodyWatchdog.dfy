/** The idle watchdog of a response body: copyHTTPResponse of internal/proxy/http_body.go.

    The copying goroutine gets bytes, takes a time stamp and stores it; the watchdog goroutine wakes
    up, takes the time, loads the stamp, and cancels or sets its timer again. Each of these is a step
    of its own, at most `lag` after it became possible. Time starts at zero when the copy starts. */
module BodyWatchdog {
  import opened Prelude

  datatype Params = Params(idleTimeout: int, lag: nat) {
    ghost predicate Valid() {
      idleTimeout > 0
    }
  }

  /** The copying goroutine, within one Read that returned bytes at `at`. */
  datatype Reader = Copying | Got(at: Time) | Stamped(at: Time, stamp: Time, stampedAt: Time)

  /** The watchdog goroutine; `since` is when it came there. */
  datatype Dog =
    | Armed(due: Time)                  // in select
    | Woken(since: Time)                // has received from the timer
    | Sampled(sample: Time)             // has called time.Since
    | Resetting(delay: int, since: Time) // has loaded the stamp and goes on
    | Dooming(since: Time)              // has loaded the stamp and gives up
    | Cancelled
    | Stopped

  /** The program's state, and for the statements the time of the last Read that returned bytes, the
      stamp last loaded, and the number of stores, of stores when it was loaded, and of wake-ups. */
  datatype World = World(now: Time, lastRead: Time, reader: Reader, dog: Dog,
                         lastGot: Time, base: Time, stores: nat, seen: nat, fires: nat)

  datatype Step =
    | Tick(time: Time)  // the clock reaches `time`
    | Get               // Read returns bytes
    | Stamp             // the reader takes the time
    | Store             // and stores it
    | Wake              // the timer's channel delivers
    | Sample            // the watchdog takes the time
    | Load              // it loads the stamp and compares
    | Reset             // it sets the timer again
    | Cancel            // it cancels the request
    | Stop              // it learns that the copy has ended

  function Start(p: Params): World {
    World(0, 0, Copying, Armed(p.idleTimeout), 0, 0, 0, 0, 0)
  }

  /** The time by which the reader takes its next step on the way to its store. */
  predicate ReaderOnTime(p: Params, r: Reader, now: Time) {
    (r.Got? ==> now <= r.at + p.lag) && (r.Stamped? ==> now <= r.stampedAt + p.lag)
  }

  predicate DogOnTime(p: Params, d: Dog, now: Time) {
    match d
    case Armed(due) => now <= due + p.lag
    case Woken(since) => now <= since + p.lag
    case Sampled(sample) => now <= sample + p.lag
    case Resetting(_, since) => now <= since + p.lag
    case Dooming(since) => now <= since + p.lag
    case Cancelled => true
    case Stopped => true
  }

  /** What the watchdog makes of a time and a stamp: how long to wait, or None to give up. */
  function NextDelay(idleTimeout: int, sample: Time, stamp: Time): Option<int> {
    var idleFor := sample - stamp;
    if idleFor >= idleTimeout then None else Some(idleTimeout - idleFor)
  }

  /** What select delivers to the watchdog, with the time and the stamp that it then sees. */
  datatype Event = Ended | Fired(sample: Time, stamp: Time)

  /** The watchdog's loop, for as long as there are events: it cancels at the first wake-up that
      finds the stamp idleTimeout old, unless the copy has ended before. */
  method Watch(idleTimeout: int, events: seq<Event>) returns (cancelled: bool, delays: seq<int>)
    ensures |delays| <= |events|
    ensures forall i :: 0 <= i < |delays| ==> events[i].Fired? && delays[i] > 0
    ensures forall i :: 0 <= i < |delays| ==> delays[i] == events[i].stamp + idleTimeout - events[i].sample
    ensures cancelled <==> |delays| < |events| && events[|delays|].Fired?
    ensures cancelled ==> events[|delays|].sample >= events[|delays|].stamp + idleTimeout
  {
    delays := [];
    for i := 0 to |events|
      invariant |delays| == i
      invariant forall j :: 0 <= j < i ==> events[j].Fired? && delays[j] > 0
      invariant forall j :: 0 <= j < i ==> delays[j] == events[j].stamp + idleTimeout - events[j].sample
    {
      if events[i].Ended? {
        return false, delays;
      }
      var delay := NextDelay(idleTimeout, events[i].sample, events[i].stamp);
      if delay.None? {
        return true, delays;
      }
      delays := delays + [delay.value];
    }
    cancelled := false;
  }

  /** A step that is not possible changes nothing. */
  function Do(p: Params, w: World, step: Step): World {
    match step
    case Tick(t) =>
      if w.now < t && ReaderOnTime(p, w.reader, t) && DogOnTime(p, w.dog, t) then w.(now := t) else w
    case Get => if w.reader.Copying? then w.(reader := Got(w.now), lastGot := w.now) else w
    case Stamp => if w.reader.Got? then w.(reader := Stamped(w.reader.at, w.now, w.now)) else w
    case Store =>
      if w.reader.Stamped? then w.(lastRead := w.reader.stamp, reader := Copying, stores := w.stores + 1) else w
    case Wake => if w.dog.Armed? && w.dog.due <= w.now then w.(dog := Woken(w.now), fires := w.fires + 1) else w
    case Sample => if w.dog.Woken? then w.(dog := Sampled(w.now)) else w
    case Load =>
      if w.dog.Sampled? then
        var delay := NextDelay(p.idleTimeout, w.dog.sample, w.lastRead);
        w.(dog := if delay.None? then Dooming(w.now) else Resetting(delay.value, w.now),
           base := w.lastRead, seen := w.stores)
      else w
    case Reset => if w.dog.Resetting? then w.(dog := Armed(w.now + w.dog.delay)) else w
    case Cancel => if w.dog.Dooming? then w.(dog := Cancelled) else w
    case Stop => if w.dog.Armed? then w.(dog := Stopped) else w
  }

  function Run(p: Params, w: World, steps: seq<Step>): World {
    if steps == [] then w else Do(p, Run(p, w, steps[..|steps| - 1]), steps[|steps| - 1])
  }

  lemma FourSteps(p: Params, w: World, a: Step, b: Step, c: Step, d: Step)
    ensures Run(p, w, [a, b, c, d]) == Do(p, Do(p, Do(p, Do(p, w, a), b), c), d)
  {
    assert [a][..0] == [] && Run(p, w, [a]) == Do(p, w, a);
    assert [a, b][..1] == [a] && Run(p, w, [a, b]) == Do(p, Run(p, w, [a]), b);
    assert [a, b, c][..2] == [a, b] && Run(p, w, [a, b, c]) == Do(p, Run(p, w, [a, b]), c);
    assert [a, b, c, d][..3] == [a, b, c] && Run(p, w, [a, b, c, d]) == Do(p, Run(p, w, [a, b, c]), d);
  }

  lemma {:induction false} Concat(p: Params, w: World, a: seq<Step>, b: seq<Step>)
    ensures Run(p, w, a + b) == Run(p, Run(p, w, a), b)
  {
    if b == [] {
      assert a + b == a;
    } else {
      assert (a + b)[..|a + b| - 1] == a + b[..|b| - 1];
      Concat(p, w, a, b[..|b| - 1]);
    }
  }

  // ----- what every step keeps -----

  ghost predicate ReaderValid(p: Params, w: World) {
    && 0 <= w.base <= w.lastRead <= w.now && w.seen <= w.stores
    && (w.stores == w.seen ==> w.lastRead == w.base)
    && ReaderOnTime(p, w.reader, w.now)
    && match w.reader
       case Copying => w.lastGot <= w.lastRead
       case Got(at) => at == w.lastGot <= w.now && w.lastRead <= at
       case Stamped(at, stamp, stampedAt) =>
         at == w.lastGot <= stamp == stampedAt <= w.now && w.lastRead <= stamp && stampedAt <= at + p.lag
  }

  /** The timer is never set to go off before the loaded stamp is idleTimeout old, nor much later. */
  ghost predicate DogValid(p: Params, w: World) {
    var end := w.base + p.idleTimeout;
    && DogOnTime(p, w.dog, w.now)
    && match w.dog
       case Armed(due) => end <= due <= end + 2 * p.lag && w.fires <= w.seen
       case Woken(since) => end <= since <= end + 3 * p.lag && since <= w.now && w.fires <= w.seen + 1
       case Sampled(sample) => end <= sample <= end + 4 * p.lag && sample <= w.now && w.fires <= w.seen + 1
       case Resetting(delay, since) =>
         delay > 0 && end <= since + delay <= end + p.lag && since <= w.now && w.fires <= w.seen
       case Dooming(since) => end <= since <= end + 5 * p.lag && since <= w.now && w.fires <= w.seen + 1
       case Cancelled => end <= w.now && w.fires <= w.seen + 1
       case Stopped => w.fires <= w.seen
  }

  /** A store that comes after the watchdog's last load is of a Read that was recent at the load. */
  ghost predicate LateStoreValid(p: Params, w: World) {
    w.dog.Dooming? && w.stores > w.seen ==> w.lastGot >= w.dog.since - 2 * p.lag
  }

  ghost predicate Valid(p: Params, w: World) {
    ReaderValid(p, w) && DogValid(p, w) && LateStoreValid(p, w)
  }

  lemma ReaderStepValid(p: Params, w: World, step: Step)
    requires Valid(p, w) && (step.Get? || step.Stamp? || step.Store?)
    ensures Valid(p, Do(p, w, step))
  {
  }

  lemma LoadValid(p: Params, w: World)
    requires Valid(p, w)
    ensures Valid(p, Do(p, w, Load))
  {
  }

  lemma DogStepValid(p: Params, w: World, step: Step)
    requires Valid(p, w) && (step.Wake? || step.Sample? || step.Reset? || step.Cancel? || step.Stop?)
    ensures Valid(p, Do(p, w, step))
  {
  }

  lemma DoValid(p: Params, w: World, step: Step)
    requires Valid(p, w)
    ensures Valid(p, Do(p, w, step))
  {
    if step.Get? || step.Stamp? || step.Store? {
      ReaderStepValid(p, w, step);
    } else if step.Load? {
      LoadValid(p, w);
    } else if !step.Tick? {
      DogStepValid(p, w, step);
    }
  }

  lemma {:induction false} AlwaysValid(p: Params, steps: seq<Step>)
    requires p.Valid()
    ensures Valid(p, Run(p, Start(p), steps))
  {
    if steps != [] {
      AlwaysValid(p, steps[..|steps| - 1]);
      DoValid(p, Run(p, Start(p), steps[..|steps| - 1]), steps[|steps| - 1]);
    }
  }

  // ----- soundness of the verdict -----

  /** The watchdog, about to load, will give up. */
  predicate GivesUp(p: Params, w: World) {
    w.dog.Sampled? && Do(p, w, Load).dog.Dooming?
  }

  /** No Read has returned bytes in the last idleTimeout before the watchdog took the time. */
  predicate TrulyIdle(p: Params, w: World)
    requires w.dog.Sampled?
  {
    w.dog.sample - w.lastGot >= p.idleTimeout
  }

  /** When the watchdog decides to give up outside of a Read's way to its store, the last Read that returned
      bytes is at least idleTimeout old, whatever the lag. */
  lemma GivesUpOnlyWhenIdle(p: Params, steps: seq<Step>)
    requires p.Valid() && GivesUp(p, Run(p, Start(p), steps))
    requires Run(p, Start(p), steps).reader.Copying?
    ensures TrulyIdle(p, Run(p, Start(p), steps))
  {
    AlwaysValid(p, steps);
  }

  /** When the lag is small against the timeout, the verdict at the load is wrong exactly when a Read
      has returned bytes whose stamp is not stored yet. */
  lemma WrongExactlyBeforeStore(p: Params, steps: seq<Step>)
    requires p.Valid() && 2 * p.lag < p.idleTimeout && GivesUp(p, Run(p, Start(p), steps))
    ensures TrulyIdle(p, Run(p, Start(p), steps)) <==> Run(p, Start(p), steps).reader.Copying?
  {
    AlwaysValid(p, steps);
  }

  /** That does happen, for every timeout and lag: bytes arrive just when the timer goes off, and are
      not yet stamped when the watchdog compares. */
  lemma GivesUpOnFreshBytes(p: Params)
    requires p.Valid()
    ensures var w := Run(p, Start(p), [Tick(p.idleTimeout), Get, Wake, Sample]);
            GivesUp(p, w) && w.lastGot == w.now && !TrulyIdle(p, w)
  {
    var tick := Tick(p.idleTimeout);
    FourSteps(p, Start(p), tick, Get, Wake, Sample);
    assert Do(p, Start(p), tick) == Start(p).(now := p.idleTimeout);
  }

  // ----- soundness of the cancel -----

  /** No bytes are on their way to a store, and none were stored since the watchdog's load. */
  predicate Undisturbed(w: World) {
    w.reader.Copying? && w.stores == w.seen
  }

  /** When the watchdog cancels with the reader undisturbed since the load, the last Read that
      returned bytes is at least idleTimeout old, whatever the lag. */
  lemma CancelsOnlyWhenIdle(p: Params, steps: seq<Step>)
    requires p.Valid() && Run(p, Start(p), steps).dog.Dooming? && Undisturbed(Run(p, Start(p), steps))
    ensures var w := Run(p, Start(p), steps); w.now - w.lastGot >= p.idleTimeout
  {
    AlwaysValid(p, steps);
  }

  /** Main result: when the lag is small against the timeout, the watchdog, about to cancel, is right
      to do so if and only if no Read is on its way to a store and none has stored since the load; and
      what it then does is final, whatever follows. */
  lemma CancelIsRightExactly(p: Params, before: seq<Step>, after: seq<Step>)
    requires p.Valid() && 3 * p.lag < p.idleTimeout && Run(p, Start(p), before).dog.Dooming?
    ensures var w := Run(p, Start(p), before);
            && (w.now - w.lastGot >= p.idleTimeout <==> Undisturbed(w))
            && Run(p, Do(p, w, Cancel), after).dog == Cancelled
  {
    AlwaysValid(p, before);
    Final(p, Do(p, Run(p, Start(p), before), Cancel), after);
  }

  /** Once it has cancelled or was stopped the watchdog does nothing more. */
  lemma {:induction false} Final(p: Params, w: World, steps: seq<Step>)
    requires w.dog.Cancelled? || w.dog.Stopped?
    ensures Run(p, w, steps).dog == w.dog
  {
    if steps != [] {
      Final(p, w, steps[..|steps| - 1]);
    }
  }

  /** A copy that ends while the watchdog waits is never cancelled by it, whatever follows. */
  lemma StoppedNeverCancels(p: Params, w: World, after: seq<Step>)
    requires w.dog.Armed?
    ensures Run(p, Do(p, w, Stop), after).dog == Stopped
  {
    Final(p, Do(p, w, Stop), after);
  }

  /** The second condition matters too, for every timeout and lag: no Read is under way at the load,
      bytes arrive and are stored right after it, and the watchdog cancels at that very moment. */
  lemma CancelsOnStoredBytes(p: Params)
    requires p.Valid()
    ensures var load := Run(p, Start(p), [Tick(p.idleTimeout), Wake, Sample, Load]);
            load.dog.Dooming? && Undisturbed(load)
    ensures var w := Run(p, Start(p), [Tick(p.idleTimeout), Wake, Sample, Load] + [Get, Stamp, Store, Cancel]);
            w.dog.Cancelled? && w.reader.Copying? && w.lastRead == w.lastGot == w.now
  {
    var tick := Tick(p.idleTimeout);
    FourSteps(p, Start(p), tick, Wake, Sample, Load);
    var load := Run(p, Start(p), [tick, Wake, Sample, Load]);
    assert Do(p, Start(p), tick) == Start(p).(now := p.idleTimeout);
    FourSteps(p, load, Get, Stamp, Store, Cancel);
    Concat(p, Start(p), [tick, Wake, Sample, Load], [Get, Stamp, Store, Cancel]);
  }

  // ----- promptness -----

  /** While the watchdog has neither cancelled nor been stopped, the clock is at most six lags past
      the end of the idle timeout: if no stamp after L is stored, it cancels by
      L + idleTimeout + 6 * lag. */
  lemma CancelsInTime(p: Params, steps: seq<Step>)
    requires p.Valid()
    ensures var w := Run(p, Start(p), steps);
            w.dog.Cancelled? || w.dog.Stopped? || w.now <= w.lastRead + p.idleTimeout + 6 * p.lag
  {
    AlwaysValid(p, steps);
  }

  /** That bound does not hold by stopping the clock: whenever time may not pass, one of the two
      goroutines has a step to make. */
  lemma ClockNeverStuck(p: Params, steps: seq<Step>)
    requires p.Valid()
    ensures var w := Run(p, Start(p), steps);
            Do(p, w, Tick(w.now + 1)) != w || exists step: Step :: !step.Tick? && !step.Get? && Do(p, w, step) != w
  {
    AlwaysValid(p, steps);
    var w := Run(p, Start(p), steps);
    if !ReaderOnTime(p, w.reader, w.now + 1) {
      assert Do(p, w, if w.reader.Got? then Stamp else Store) != w;
    } else if !DogOnTime(p, w.dog, w.now + 1) {
      assert Do(p, w, if w.dog.Armed? then Wake else if w.dog.Woken? then Sample else if w.dog.Sampled? then Load
                      else if w.dog.Resetting? then Reset else Cancel) != w;
    }
  }

  /** The watchdog wakes up at most once more than there are stores. */
  lemma WakesAtMostOncePerStore(p: Params, steps: seq<Step>)
    requires p.Valid()
    ensures Run(p, Start(p), steps).fires <= Run(p, Start(p), steps).stores + 1
  {
    AlwaysValid(p, steps);
  }
}
