/** The life of a CONNECT request across the tunnel limiter and the tunnel registry
    (internal/proxy/connect.go, internal/proxy/tunnel.go, internal/proxy/run.go): acquire a slot,
    connect, track the tunnel, relay, close, untrack, free the slot, while the server may shut down
    at any moment.

    A request is known by the number of its grant; its tunnel has the same number. */
module Lifecycle {
  import opened Prelude
  import Limits
  import Tunnels

  datatype Stage =
    | Connecting  // holds a slot
    | Relaying    // its tunnel is tracked
    | Ended       // its deferred closePair has run
    | Leaving     // its tunnel is untracked, or there was none
    | Freeing     // its deferred releaseTunnel has reached its once
    | Gone

  /** `paired` are the requests that came to have both connections of a pair. */
  datatype World = World(limiter: Limits.System, tunnels: Tunnels.World, stages: seq<Stage>, paired: set<nat>)

  datatype Step =
    | Enter(key: string)           // handleConnect reaches tryAcquire
    | Abandon(request: nat)        // no upstream, the client left, or the hijack failed
    | Open(request: nat)           // track; when it is refused the pair is closed at once
    | Interrupt(request: nat)      // closePair from the idle timer, a relay error or the context, at any time
    | Finish(request: nat)         // the deferred closePair
    | Untrack(request: nat)        // the deferred release of the registry
    | Free(request: nat)           // the deferred releaseTunnel, its once
    | Freed(request: nat)          // and its critical section
    | Shut(step: Tunnels.Step)     // the goroutine of Run

  const START := World(Limits.START, Tunnels.START, [], {})

  predicate At(w: World, i: nat, stage: Stage) {
    i < |w.stages| && w.stages[i] == stage
  }

  predicate IsShutdown(step: Tunnels.Step) {
    step.Seal? || step.CloseNext? || step.CloseEnd? || step.Await? || step.Drain? || step.Expire?
  }

  function Do(caps: Limits.Caps, w: World, step: Step): World {
    match step
    case Enter(key) =>
      var limiter := Limits.Do(caps, w.limiter, Limits.Acquire(key));
      if limiter == w.limiter then w else World(limiter, w.tunnels, w.stages + [Connecting], w.paired)
    case Abandon(i) => if At(w, i, Connecting) then w.(stages := w.stages[i := Leaving]) else w
    case Open(i) =>
      if !At(w, i, Connecting) then w
      else if w.tunnels.registry.closing then
        w.(tunnels := Tunnels.Do(w.tunnels, Tunnels.Close(i)), stages := w.stages[i := Leaving], paired := w.paired + {i})
      else
        w.(tunnels := Tunnels.Do(w.tunnels, Tunnels.Track(i)), stages := w.stages[i := Relaying], paired := w.paired + {i})
    case Interrupt(i) => if i in w.tunnels.ever then w.(tunnels := Tunnels.Do(w.tunnels, Tunnels.Close(i))) else w
    case Finish(i) =>
      if At(w, i, Relaying) then
        w.(tunnels := Tunnels.Do(w.tunnels, Tunnels.Close(i)), stages := w.stages[i := Ended])
      else
        w
    case Untrack(i) =>
      if At(w, i, Ended) then
        w.(tunnels := Tunnels.Do(w.tunnels, Tunnels.Release(i)), stages := w.stages[i := Leaving])
      else
        w
    case Free(i) =>
      if At(w, i, Leaving) then
        w.(limiter := Limits.Do(caps, w.limiter, Limits.Begin(i)), stages := w.stages[i := Freeing])
      else
        w
    case Freed(i) =>
      if At(w, i, Freeing) then
        w.(limiter := Limits.Do(caps, w.limiter, Limits.Finish(i)), stages := w.stages[i := Gone])
      else
        w
    case Shut(step) => if IsShutdown(step) then w.(tunnels := Tunnels.Do(w.tunnels, step)) else w
  }

  function Run(caps: Limits.Caps, w: World, steps: seq<Step>): World {
    if steps == [] then w else Do(caps, Run(caps, w, steps[..|steps| - 1]), steps[|steps| - 1])
  }

  // ----- what every step keeps -----

  /** The limiter's view of a request in a stage. */
  function PhaseOf(stage: Stage): Limits.Phase {
    if stage == Gone then Limits.Released else if stage == Freeing then Limits.Releasing else Limits.Held
  }

  predicate IsTracked(stage: Stage) {
    stage == Relaying || stage == Ended
  }

  /** Limiter and registry agree with the stage of request i. */
  ghost predicate Fits(stage: Stage, phase: Limits.Phase, t: Tunnels.World, paired: bool, i: nat) {
    && phase == PhaseOf(stage)
    && (i in t.registry.active <==> IsTracked(stage))
    && (stage == Connecting ==> i !in t.ever && !paired)
    && (i in t.ever ==> paired)
    && (paired && stage != Relaying ==> i in t.closed)
  }

  ghost predicate Coupled(w: World) {
    && |w.stages| == |w.limiter.grants|
    && (forall i :: 0 <= i < |w.stages| ==> Fits(w.stages[i], w.limiter.grants[i].phase, w.tunnels, i in w.paired, i))
    && (forall i :: i in w.tunnels.ever ==> i < |w.stages|)
    && (forall i :: i in w.paired ==> i < |w.stages|)
  }

  ghost predicate Valid(caps: Limits.Caps, w: World) {
    Limits.Conserved(caps, w.limiter) && Limits.Labelled(w.limiter.grants) && Tunnels.Sound(w.tunnels) && Coupled(w)
  }

  lemma EnterValid(caps: Limits.Caps, w: World, key: string)
    requires Valid(caps, w)
    ensures Valid(caps, Do(caps, w, Enter(key)))
  {
    Limits.DoConserves(caps, w.limiter, Limits.Acquire(key));
    Limits.DoLabels(caps, w.limiter, Limits.Acquire(key));
  }

  /** A step of one grant that suits its own request and touches no other. */
  lemma LimiterStepFits(w: World, i: nat, limiter: Limits.System, stage: Stage)
    requires Coupled(w) && i < |w.stages| == |limiter.grants|
    requires Fits(stage, limiter.grants[i].phase, w.tunnels, i in w.paired, i)
    requires forall j :: 0 <= j < |w.stages| && j != i ==> limiter.grants[j].phase == w.limiter.grants[j].phase
    ensures Coupled(w.(limiter := limiter, stages := w.stages[i := stage]))
  {
    var w' := w.(limiter := limiter, stages := w.stages[i := stage]);
    forall j | 0 <= j < |w.stages| && j != i
      ensures Fits(w'.stages[j], w'.limiter.grants[j].phase, w.tunnels, j in w.paired, j)
    {
      assert Fits(w.stages[j], w.limiter.grants[j].phase, w.tunnels, j in w.paired, j);
    }
  }

  lemma LimiterStepValid(caps: Limits.Caps, w: World, step: Step)
    requires Valid(caps, w) && (step.Free? || step.Freed?)
    ensures Valid(caps, Do(caps, w, step))
  {
    var i, w' := step.request, Do(caps, w, step);
    var inner := if step.Free? then Limits.Begin(i) else Limits.Finish(i);
    Limits.DoConserves(caps, w.limiter, inner);
    Limits.DoLabels(caps, w.limiter, inner);
    if w' != w {
      assert Fits(w.stages[i], w.limiter.grants[i].phase, w.tunnels, i in w.paired, i);
      LimiterStepFits(w, i, w'.limiter, w'.stages[i]);
    }
  }

  /** A step of one tunnel that suits its own request and touches no other. */
  lemma TunnelStepFits(w: World, i: nat, t: Tunnels.World, stage: Stage, paired: set<nat>)
    requires Coupled(w) && i < |w.stages| && Fits(stage, w.limiter.grants[i].phase, t, i in paired, i)
    requires forall j :: j in paired && j != i <==> j in w.paired && j != i
    requires forall j :: 0 <= j < |w.stages| && j != i ==>
               && (j in t.registry.active <==> j in w.tunnels.registry.active)
               && (j in t.ever <==> j in w.tunnels.ever) && (j in w.tunnels.closed ==> j in t.closed)
    requires forall j :: j in t.ever ==> j in w.tunnels.ever || j == i
    ensures Coupled(w.(tunnels := t, stages := w.stages[i := stage], paired := paired))
  {
    var w' := w.(tunnels := t, stages := w.stages[i := stage], paired := paired);
    forall j | 0 <= j < |w.stages| && j != i
      ensures Fits(w'.stages[j], w'.limiter.grants[j].phase, t, j in w'.paired, j)
    {
      assert Fits(w.stages[j], w.limiter.grants[j].phase, w.tunnels, j in w.paired, j);
    }
  }

  lemma RefusedValid(caps: Limits.Caps, w: World, i: nat)
    requires Valid(caps, w) && At(w, i, Connecting) && w.tunnels.registry.closing
    ensures Valid(caps, Do(caps, w, Open(i)))
  {
    assert Fits(w.stages[i], w.limiter.grants[i].phase, w.tunnels, i in w.paired, i);
    Tunnels.DoSound(w.tunnels, Tunnels.Close(i));
    TunnelStepFits(w, i, Tunnels.Do(w.tunnels, Tunnels.Close(i)), Leaving, w.paired + {i});
  }

  lemma TrackedValid(caps: Limits.Caps, w: World, i: nat)
    requires Valid(caps, w) && At(w, i, Connecting) && !w.tunnels.registry.closing
    ensures Valid(caps, Do(caps, w, Open(i)))
  {
    assert Fits(w.stages[i], w.limiter.grants[i].phase, w.tunnels, i in w.paired, i);
    var t := Tunnels.Do(w.tunnels, Tunnels.Track(i));
    Tunnels.DoSound(w.tunnels, Tunnels.Track(i));
    TrackTouches(w.tunnels, i);
    TunnelStepFits(w, i, t, Relaying, w.paired + {i});
  }

  lemma TrackTouches(t: Tunnels.World, i: nat)
    requires i !in t.ever && !t.registry.closing
    ensures var t' := Tunnels.Do(t, Tunnels.Track(i));
            && t'.registry.active == t.registry.active + {i} && t'.ever == t.ever + {i} && t'.closed == t.closed
  {
  }

  lemma OpenValid(caps: Limits.Caps, w: World, i: nat)
    requires Valid(caps, w)
    ensures Valid(caps, Do(caps, w, Open(i)))
  {
    if At(w, i, Connecting) {
      if w.tunnels.registry.closing {
        RefusedValid(caps, w, i);
      } else {
        TrackedValid(caps, w, i);
      }
    }
  }

  lemma TunnelStepValid(caps: Limits.Caps, w: World, step: Step)
    requires Valid(caps, w) && (step.Interrupt? || step.Finish? || step.Untrack?)
    ensures Valid(caps, Do(caps, w, step))
  {
    var i := step.request;
    if i < |w.stages| {
      assert Fits(w.stages[i], w.limiter.grants[i].phase, w.tunnels, i in w.paired, i);
      Tunnels.DoSound(w.tunnels, Tunnels.Close(i));
      Tunnels.DoSound(w.tunnels, Tunnels.Release(i));
      var w' := Do(caps, w, step);
      assert w.stages[i := w.stages[i]] == w.stages;
      if w' != w {
        TunnelStepFits(w, i, w'.tunnels, w'.stages[i], w.paired);
      }
    }
  }

  /** The goroutine of Run closes pairs but neither tracks nor releases any. */
  lemma ShutTouches(t: Tunnels.World, step: Tunnels.Step)
    requires IsShutdown(step)
    ensures var t' := Tunnels.Do(t, step);
            t'.registry.active == t.registry.active && t'.ever == t.ever && t.closed <= t'.closed
  {
  }

  lemma ShutValid(caps: Limits.Caps, w: World, step: Tunnels.Step)
    requires Valid(caps, w)
    ensures Valid(caps, Do(caps, w, Shut(step)))
  {
    if IsShutdown(step) {
      Tunnels.DoSound(w.tunnels, step);
      ShutTouches(w.tunnels, step);
      ClosingMore(w, Tunnels.Do(w.tunnels, step));
    }
  }

  lemma ClosingMore(w: World, t: Tunnels.World)
    requires Coupled(w) && t.registry.active == w.tunnels.registry.active && t.ever == w.tunnels.ever
    requires w.tunnels.closed <= t.closed
    ensures Coupled(w.(tunnels := t))
  {
    forall i | 0 <= i < |w.stages| ensures Fits(w.stages[i], w.limiter.grants[i].phase, t, i in w.paired, i) {
      assert Fits(w.stages[i], w.limiter.grants[i].phase, w.tunnels, i in w.paired, i);
    }
  }

  lemma DoValid(caps: Limits.Caps, w: World, step: Step)
    requires Valid(caps, w)
    ensures Valid(caps, Do(caps, w, step))
  {
    if step.Enter? {
      EnterValid(caps, w, step.key);
    } else if step.Shut? {
      ShutValid(caps, w, step.step);
    } else if step.Free? || step.Freed? {
      LimiterStepValid(caps, w, step);
    } else if step.Open? {
      OpenValid(caps, w, step.request);
    } else if !step.Abandon? {
      TunnelStepValid(caps, w, step);
    }
  }

  lemma {:induction false} AlwaysValid(caps: Limits.Caps, steps: seq<Step>)
    ensures Valid(caps, Run(caps, START, steps))
  {
    if steps != [] {
      AlwaysValid(caps, steps[..|steps| - 1]);
      DoValid(caps, Run(caps, START, steps[..|steps| - 1]), steps[|steps| - 1]);
    }
  }

  // ----- tunnels against limits -----

  /** The grants not yet given back. */
  ghost function Out(grants: seq<Limits.Grant>): set<nat> {
    set i | 0 <= i < |grants| && grants[i].phase != Limits.Released
  }

  ghost function OutOf(grants: seq<Limits.Grant>, key: string): set<nat> {
    set i | 0 <= i < |grants| && grants[i].phase != Limits.Released && grants[i].key == key
  }

  lemma {:induction false} OutSize(grants: seq<Limits.Grant>)
    ensures |Out(grants)| == Limits.Live(grants)
  {
    if grants != [] {
      var n := |grants| - 1;
      OutSize(grants[..n]);
      assert Out(grants) == if grants[n].phase == Limits.Released then Out(grants[..n]) else Out(grants[..n]) + {n};
    }
  }

  lemma {:induction false} OutOfSize(grants: seq<Limits.Grant>, key: string)
    ensures |OutOf(grants, key)| == Limits.LiveOf(grants, key)
  {
    if grants != [] {
      var n := |grants| - 1;
      OutOfSize(grants[..n], key);
      if grants[n].phase == Limits.Released || grants[n].key != key {
        assert OutOf(grants, key) == OutOf(grants[..n], key);
      } else {
        assert OutOf(grants, key) == OutOf(grants[..n], key) + {n};
      }
    }
  }

  /** The tunnels tracked for a client address. */
  ghost function TunnelsOf(w: World, host: string): set<nat>
    requires |w.stages| == |w.limiter.grants|
  {
    set i | 0 <= i < |w.stages| && i in w.tunnels.registry.active && Together(w.limiter.grants[i].host, host)
  }

  /** In every interleaving the tracked tunnels are no more than the slots held, so no more than the
      configured limits, in all and for each client address. */
  lemma TunnelsWithinLimits(caps: Limits.Caps, steps: seq<Step>, host: string)
    requires caps.maxTotal >= 1 && caps.maxPerKey >= 1
    ensures var w := Run(caps, START, steps);
            && |w.tunnels.registry.active| <= w.limiter.counts.total <= caps.maxTotal
            && |w.stages| == |w.limiter.grants|
            && |TunnelsOf(w, host)| <= Limits.LiveTo(w.limiter.grants, host) <= caps.maxPerKey
  {
    var w := Run(caps, START, steps);
    AlwaysValid(caps, steps);
    OutSize(w.limiter.grants);
    OutOfSize(w.limiter.grants, Key(host));
    Limits.LiveByHost(w.limiter.grants, host);
    SubsetSize(w.tunnels.registry.active, Out(w.limiter.grants));
    assert w.limiter.counts.Of(Key(host)) == Limits.LiveOf(w.limiter.grants, Key(host));
    forall i | i in TunnelsOf(w, host) ensures i in OutOf(w.limiter.grants, Key(host)) {
      KeyExactly(w.limiter.grants[i].host, host);
      assert Fits(w.stages[i], w.limiter.grants[i].phase, w.tunnels, i in w.paired, i);
    }
    SubsetSize(TunnelsOf(w, host), OutOf(w.limiter.grants, Key(host)));
  }

  // ----- shutdown -----

  /** A pair never leaves the registry open, and once waitFor has returned nil every tunnel that was
      ever tracked has been closed and has left the registry. */
  lemma CleanShutdown(caps: Limits.Caps, steps: seq<Step>)
    ensures var w := Run(caps, START, steps);
            && w.tunnels.ever <= w.paired && w.paired - w.tunnels.registry.active <= w.tunnels.closed
            && (Tunnels.PastCloseAll(w.tunnels.shutdown) ==> w.paired <= w.tunnels.closed)
            && (w.tunnels.shutdown == Tunnels.Drained ==> w.tunnels.registry.active == {})
            && |w.stages| == |w.limiter.grants|
            && (forall i :: i in w.tunnels.ever && w.tunnels.shutdown == Tunnels.Drained ==>
                  i < |w.stages| && PhaseOf(w.stages[i]) == w.limiter.grants[i].phase && !IsTracked(w.stages[i]))
  {
    AlwaysValid(caps, steps);
    var w := Run(caps, START, steps);
    forall i | i in w.paired
      ensures i < |w.stages| && Fits(w.stages[i], w.limiter.grants[i].phase, w.tunnels, i in w.paired, i)
    {
    }
  }

  function Weight(stage: Stage): nat {
    if stage == Relaying then 2 else if stage == Ended then 1 else 0
  }

  /** The cleanup steps that the owners of tracked tunnels still have to make. */
  function Work(stages: seq<Stage>): nat {
    if stages == [] then 0 else Work(stages[..|stages| - 1]) + Weight(stages[|stages| - 1])
  }

  lemma {:induction false} WorkAfter(stages: seq<Stage>, i: nat, stage: Stage)
    requires i < |stages|
    ensures Work(stages[i := stage]) == Work(stages) - Weight(stages[i]) + Weight(stage)
  {
    var n := |stages| - 1;
    if i < n {
      WorkAfter(stages[..n], i, stage);
      assert stages[i := stage][..n] == stages[..n][i := stage];
    } else {
      assert stages[i := stage][..n] == stages[..n];
    }
  }

  lemma {:induction false} NoWork(stages: seq<Stage>)
    ensures Work(stages) == 0 <==> forall i :: 0 <= i < |stages| ==> !IsTracked(stages[i])
  {
    if stages != [] {
      var n := |stages| - 1;
      NoWork(stages[..n]);
      assert forall i :: 0 <= i < n ==> stages[..n][i] == stages[i];
    }
  }

  /** The owner of a tunnel makes one of its cleanup steps. */
  predicate IsCleanup(w: World, step: Step) {
    || (step.Finish? && At(w, step.request, Relaying))
    || (step.Untrack? && At(w, step.request, Ended))
  }

  /** The number of cleanup steps in a run. */
  function Cleanups(caps: Limits.Caps, w: World, steps: seq<Step>): nat {
    if steps == [] then 0
    else
      var before := steps[..|steps| - 1];
      Cleanups(caps, w, before) + if IsCleanup(Run(caps, w, before), steps[|steps| - 1]) then 1 else 0
  }

  lemma EnterWorks(caps: Limits.Caps, w: World, key: string)
    ensures Work(Do(caps, w, Enter(key)).stages) == Work(w.stages)
  {
    var stages := Do(caps, w, Enter(key)).stages;
    assert stages == w.stages || stages[..|w.stages|] == w.stages;
  }

  lemma StepWorks(caps: Limits.Caps, w: World, step: Step)
    requires w.tunnels.registry.closing
    ensures Work(Do(caps, w, step).stages) + (if IsCleanup(w, step) then 1 else 0) == Work(w.stages)
  {
    if step.Enter? {
      EnterWorks(caps, w, step.key);
    } else if !step.Shut? && step.request < |w.stages| {
      var i, stages := step.request, Do(caps, w, step).stages;
      WorkAfter(w.stages, i, stages[i]);
      assert stages == w.stages[i := stages[i]];
    }
  }

  lemma StaysClosing(caps: Limits.Caps, w: World, step: Step)
    requires w.tunnels.registry.closing
    ensures Do(caps, w, step).tunnels.registry.closing
  {
  }

  /** Shutdown makes progress: from any moment after closing is set, whatever else happens, each
      cleanup step brings the registry nearer to empty by one and nothing takes it back; it is empty
      after exactly Work steps, and until then some tunnel's owner has such a step to make. */
  lemma {:induction false} ShutdownProgress(caps: Limits.Caps, w: World, steps: seq<Step>)
    requires Valid(caps, w) && w.tunnels.registry.closing
    ensures var w' := Run(caps, w, steps);
            && Cleanups(caps, w, steps) + Work(w'.stages) == Work(w.stages)
            && (w'.tunnels.registry.active == {} <==> Cleanups(caps, w, steps) == Work(w.stages))
            && (w'.tunnels.registry.active != {} ==> exists step :: IsCleanup(w', step))
            && Valid(caps, w') && w'.tunnels.registry.closing
  {
    var w' := Run(caps, w, steps);
    if steps != [] {
      var before := steps[..|steps| - 1];
      ShutdownProgress(caps, w, before);
      StepWorks(caps, Run(caps, w, before), steps[|steps| - 1]);
      StaysClosing(caps, Run(caps, w, before), steps[|steps| - 1]);
      DoValid(caps, Run(caps, w, before), steps[|steps| - 1]);
    }
    NoWork(w'.stages);
    if w'.tunnels.registry.active != {} {
      var i :| i in w'.tunnels.registry.active;
      assert IsCleanup(w', Finish(i)) || IsCleanup(w', Untrack(i));
    }
  }

  // ----- nothing is held for good -----

  lemma {:induction false} Front(caps: Limits.Caps, w: World, step: Step, rest: seq<Step>)
    ensures Run(caps, w, [step] + rest) == Run(caps, Do(caps, w, step), rest)
  {
    var all := [step] + rest;
    if rest == [] {
      assert all[..0] == [];
    } else {
      var n := |rest| - 1;
      assert all[..|all| - 1] == [step] + rest[..n];
      Front(caps, w, step, rest[..n]);
    }
  }

  /** What a request's own goroutine does next on its way out. */
  function WayOut(stage: Stage, i: nat): Step {
    match stage
    case Connecting => Abandon(i)
    case Relaying => Finish(i)
    case Ended => Untrack(i)
    case Leaving => Free(i)
    case _ => Freed(i)
  }

  ghost function StepsLeft(stage: Stage): nat {
    match stage
    case Connecting => 3
    case Relaying => 4
    case Ended => 3
    case Leaving => 2
    case Freeing => 1
    case Gone => 0
  }

  /** A connection that ends by a relay error, the idle timer or the client closes the pair and changes
      nothing else: the accounts wait for the request's own way out. */
  lemma InterruptOnlyCloses(caps: Limits.Caps, w: World, i: nat)
    requires i in w.tunnels.ever
    ensures Do(caps, w, Interrupt(i)) == w.(tunnels := w.tunnels.(closed := w.tunnels.closed + {i}))
  {
  }

  /** No slot and no tunnel is held for good: in every reachable world each request can leave by at most
      four steps of its own, and has then given its slot back and is not tracked. */
  lemma {:induction false} CanLeave(caps: Limits.Caps, w: World, i: nat) returns (steps: seq<Step>)
    requires Valid(caps, w) && i < |w.stages|
    ensures |steps| == StepsLeft(w.stages[i]) && Valid(caps, Run(caps, w, steps))
    ensures var w' := Run(caps, w, steps);
            && At(w', i, Gone) && i < |w'.limiter.grants| && w'.limiter.grants[i].phase == Limits.Released
            && i !in w'.tunnels.registry.active
    decreases StepsLeft(w.stages[i])
  {
    if w.stages[i] == Gone {
      steps := [];
    } else {
      var step := WayOut(w.stages[i], i);
      DoValid(caps, w, step);
      var rest := CanLeave(caps, Do(caps, w, step), i);
      Front(caps, w, step, rest);
      steps := [step] + rest;
    }
  }

  // ----- one request on its own -----

  /** Giving a slot back right away restores the counters, map included. */
  lemma FreedAcquired(caps: Limits.Caps, c: Limits.Counts, key: string)
    requires Limits.Acquired(caps, c, key).Some?
    ensures Limits.Freed(Limits.Acquired(caps, c, key).value, key) == c <==> !(key in c.perKey && c.perKey[key] == 0)
  {
    var n := c.Of(key);
    if key in c.perKey {
      assert c.perKey[key := n + 1][key := n] == c.perKey;
    } else {
      assert c.perKey[key := n + 1] - {key} == c.perKey;
    }
  }

  /** relayHTTP1: hijack, track, and the deferred closePair and release. */
  method RelayHTTP1(registry: Tunnels.TunnelRegistry, pair: Tunnels.TunnelPair, hijacked: bool)
    requires pair !in registry.active
    modifies registry, pair
    ensures registry.Contents() == old(registry.Contents())
    ensures !pair.upstreamOpen && (hijacked ==> pair.Closed())
    ensures !hijacked ==> pair.clientOpen == old(pair.clientOpen)
  {
    if !hijacked {
      pair.upstreamOpen := false;
      return;
    }
    var ok := registry.Track(pair);
    if !ok {
      pair.Close();
      return;
    }
    // The relay runs here, and may have called Close already.
    pair.Close();
    registry.Release(pair);
    assert old(registry.Contents().active) + {pair} - {pair} == old(registry.Contents().active);
  }

  /** The scope of the tunnel slot in handleConnect: taken and given back on every path. */
  method HandleConnect(limiter: Limits.ConcurrentLimiter, registry: Tunnels.TunnelRegistry, host: string,
                       dialed: Option<Tunnels.TunnelPair>, hijacked: bool) returns (admitted: bool)
    requires forall k :: k in limiter.perKey ==> limiter.perKey[k] >= 1
    requires dialed.Some? ==> dialed.value !in registry.active
    modifies limiter, registry, if dialed.Some? then {dialed.value} else {}
    ensures limiter.Contents() == old(limiter.Contents()) && registry.Contents() == old(registry.Contents())
    ensures admitted <==> Limits.Acquired(limiter.caps, old(limiter.Contents()), Key(host)).Some?
    ensures admitted && dialed.Some? ==> !dialed.value.upstreamOpen
  {
    var slot := limiter.TryAcquire(host);
    if slot == null {
      return false;
    }
    FreedAcquired(limiter.caps, old(limiter.Contents()), slot.key);
    if dialed.Some? {
      RelayHTTP1(registry, dialed.value, hijacked);
    }
    slot.Release();
    return true;
  }
}
