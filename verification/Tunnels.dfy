/** The tunnel registry of internal/proxy/tunnel.go and the shutdown order of internal/proxy/run.go.

    Tracked, Untracked and Sealed are the critical sections of the registry's mutex.
    TunnelRegistry is the program's object; Do is every interleaving of its critical sections, of
    the calls of close, and of the shutdown of Run. */
module Tunnels {
  import opened Prelude

  /** The registry over pairs of type P, and its WaitGroup's counter. */
  datatype Registry<P(==)> = Registry(closing: bool, active: set<P>, wait: int)

  /** The critical section of track; refused once closing is set. */
  function Tracked<P(==)>(r: Registry<P>, pair: P): Option<Registry<P>> {
    if r.closing then None else Some(Registry(r.closing, r.active + {pair}, r.wait + 1))
  }

  /** The critical section of the release closure. */
  function Untracked<P(==)>(r: Registry<P>, pair: P): Registry<P> {
    if pair in r.active then Registry(r.closing, r.active - {pair}, r.wait - 1) else r
  }

  /** The critical section of closeAll. */
  function Sealed<P(==)>(r: Registry<P>): Registry<P> {
    r.(closing := true)
  }

  // ----- the objects -----

  /** A client connection with its upstream; close ends both. */
  class TunnelPair {
    var clientOpen: bool
    var upstreamOpen: bool

    constructor ()
      ensures clientOpen && upstreamOpen
    {
      clientOpen := true;
      upstreamOpen := true;
    }

    ghost predicate Closed()
      reads this
    {
      !clientOpen && !upstreamOpen
    }

    method Close()
      modifies this
      ensures Closed()
    {
      clientOpen := false;
      upstreamOpen := false;
    }
  }

  class TunnelRegistry {
    var closing: bool
    var active: set<TunnelPair>
    var wait: int

    ghost function Contents(): Registry<TunnelPair>
      reads this
    {
      Registry(closing, active, wait)
    }

    constructor ()
      ensures Contents() == Registry(false, {}, 0)
    {
      closing := false;
      active := {};
      wait := 0;
    }

    method Track(pair: TunnelPair) returns (ok: bool)
      modifies this
      ensures ok <==> Tracked(old(Contents()), pair).Some?
      ensures Contents() == if ok then Tracked(old(Contents()), pair).value else old(Contents())
    {
      if closing {
        return false;
      }
      active := active + {pair};
      wait := wait + 1;
      return true;
    }

    /** The closure that track returns. */
    method Release(pair: TunnelPair)
      modifies this
      ensures Contents() == Untracked(old(Contents()), pair)
    {
      if pair in active {
        active := active - {pair};
        wait := wait - 1;
      }
    }

    /** Closes every pair of the snapshot taken under the mutex, in any order. */
    method CloseAll()
      modifies this`closing, active
      ensures Contents() == Sealed(old(Contents()))
      ensures forall p :: p in active ==> p.Closed()
    {
      closing := true;
      var pairs := active;
      while pairs != {}
        invariant pairs <= active && closing
        invariant forall p :: p in active - pairs ==> p.Closed()
        decreases |pairs|
      {
        var pair :| pair in pairs;
        pair.Close();
        pairs := pairs - {pair};
      }
    }
  }

  // ----- every interleaving -----

  /** The goroutine of Run: closeAll with the pairs of its snapshot still to close, then waitFor,
      which ends with nil or with the expired context. */
  datatype Shutdown = Serving | Closing(left: set<nat>) | AllClosed | Awaiting | Drained | Expired

  /** The registry over pair identities, every pair ever tracked, every pair that had close called,
      and the shutdown. */
  datatype World = World(registry: Registry<nat>, ever: set<nat>, closed: set<nat>, shutdown: Shutdown)

  datatype Step =
    | Track(pair: nat)
    | Close(pair: nat)      // the owner, or whoever holds the closure
    | Release(pair: nat)    // any call of the release closure
    | Seal                  // closeAll under the mutex
    | CloseNext(pair: nat)  // closeAll goes on to a pair of its snapshot
    | CloseEnd              // closeAll returns
    | Await                 // waitFor starts to wait
    | Drain                 // the wait group is at zero and waitFor returns nil
    | Expire                // waitFor returns the context's error

  const START := World(Registry(false, {}, 0), {}, {}, Serving)

  /** One step of some goroutine; a step that is not possible changes nothing. */
  function Do(w: World, step: Step): World {
    match step
    case Track(p) =>
      var r := Tracked(w.registry, p);
      if p !in w.ever && r.Some? then w.(registry := r.value, ever := w.ever + {p}) else w
    case Close(p) => w.(closed := w.closed + {p})
    case Release(p) => w.(registry := Untracked(w.registry, p))
    case Seal =>
      if w.shutdown == Serving then w.(registry := Sealed(w.registry), shutdown := Closing(w.registry.active)) else w
    case CloseNext(p) =>
      if w.shutdown.Closing? && p in w.shutdown.left then
        w.(closed := w.closed + {p}, shutdown := Closing(w.shutdown.left - {p}))
      else
        w
    case CloseEnd => if w.shutdown == Closing({}) then w.(shutdown := AllClosed) else w
    case Await => if w.shutdown == AllClosed then w.(shutdown := Awaiting) else w
    case Drain => if w.shutdown == Awaiting && w.registry.wait == 0 then w.(shutdown := Drained) else w
    case Expire => if w.shutdown == Awaiting then w.(shutdown := Expired) else w
  }

  function Run(w: World, steps: seq<Step>): World {
    if steps == [] then w else Do(Run(w, steps[..|steps| - 1]), steps[|steps| - 1])
  }

  /** closeAll has returned. */
  ghost predicate PastCloseAll(s: Shutdown) {
    s.AllClosed? || s.Awaiting? || s.Drained? || s.Expired?
  }

  ghost predicate Sound(w: World) {
    && w.registry.wait == |w.registry.active|
    && w.registry.active <= w.ever
    && (w.registry.closing <==> w.shutdown != Serving)
    && (w.shutdown.Closing? ==> w.registry.active <= w.shutdown.left + w.closed)
    && (PastCloseAll(w.shutdown) ==> w.registry.active <= w.closed)
    && (w.shutdown == Drained ==> w.registry.active == {})
  }

  lemma DoSound(w: World, step: Step)
    requires Sound(w)
    ensures Sound(Do(w, step))
  {
    if step.Release? && step.pair in w.registry.active {
      assert |w.registry.active - {step.pair}| == |w.registry.active| - 1;
    }
  }

  /** In every interleaving the wait group's counter is the number of active pairs, so it is never
      negative; and once closeAll has returned, every pair still active had close called. */
  lemma {:induction false} RegistrySound(steps: seq<Step>)
    ensures Sound(Run(START, steps))
  {
    if steps != [] {
      RegistrySound(steps[..|steps| - 1]);
      DoSound(Run(START, steps[..|steps| - 1]), steps[|steps| - 1]);
    }
  }

  /** Once closing is set no pair is ever tracked again, so the active set only shrinks and the wait
      group is never added to while closeAll closes or waitFor waits. */
  lemma {:induction false} OnlyShrinks(w: World, steps: seq<Step>)
    requires w.registry.closing
    ensures var w' := Run(w, steps);
            && w'.registry.closing && w'.ever == w.ever
            && w'.registry.active <= w.registry.active && w'.registry.wait <= w.registry.wait
  {
    if steps != [] {
      OnlyShrinks(w, steps[..|steps| - 1]);
    }
  }

  /** A pair that was tracked stays known, and one that is closed stays closed. */
  lemma {:induction false} Remembered(w: World, steps: seq<Step>)
    ensures w.ever <= Run(w, steps).ever && w.closed <= Run(w, steps).closed
  {
    if steps != [] {
      Remembered(w, steps[..|steps| - 1]);
    }
  }

  /** No tunnel escapes shutdown: whatever happens before and after, once closeAll has returned no
      pair is both active and open, and once waitFor has returned nil no pair is active at all. */
  lemma NoTunnelEscapes(before: seq<Step>, after: seq<Step>)
    requires PastCloseAll(Run(START, before).shutdown)
    ensures var w := Run(Run(START, before), after);
            && w.registry.active <= Run(START, before).registry.active <= Run(START, before).closed <= w.closed
            && w.ever == Run(START, before).ever
    ensures Run(START, before).shutdown == Drained ==> Run(Run(START, before), after).registry.active == {}
  {
    RegistrySound(before);
    OnlyShrinks(Run(START, before), after);
    Remembered(Run(START, before), after);
  }

  // ----- the shutdown can always end -----

  lemma {:induction false} Front(w: World, step: Step, rest: seq<Step>)
    ensures Run(w, [step] + rest) == Run(Do(w, step), rest)
  {
    var all := [step] + rest;
    if rest == [] {
      assert all[..0] == [];
    } else {
      var n := |rest| - 1;
      assert all[..|all| - 1] == [step] + rest[..n];
      Front(w, step, rest[..n]);
    }
  }

  ghost function Rank(s: Shutdown): nat {
    match s
    case Serving => 3
    case Closing(_) => 2
    case AllClosed => 1
    case _ => 0
  }

  /** Run reaches waitFor by its own steps, closing the pairs of its snapshot on the way. */
  lemma {:induction false} ReachesWait(w: World) returns (steps: seq<Step>)
    requires w.shutdown != Drained && w.shutdown != Expired
    ensures Run(w, steps).shutdown == Awaiting && Run(w, steps).registry.active == w.registry.active
    ensures w.shutdown == Serving ==> w.registry.active <= Run(w, steps).closed
    ensures w.shutdown.Closing? ==> w.shutdown.left <= Run(w, steps).closed
    decreases Rank(w.shutdown), if w.shutdown.Closing? then |w.shutdown.left| else 0
  {
    if w.shutdown == Awaiting {
      return [];
    }
    var step;
    if w.shutdown.Closing? && w.shutdown.left != {} {
      var p :| p in w.shutdown.left;
      step := CloseNext(p);
      assert |w.shutdown.left - {p}| < |w.shutdown.left|;
    } else {
      step := if w.shutdown == Serving then Seal else if w.shutdown.Closing? then CloseEnd else Await;
    }
    var rest := ReachesWait(Do(w, step));
    Front(w, step, rest);
    Remembered(Do(w, step), rest);
    steps := [step] + rest;
  }

  /** The owners release the pairs that are left. */
  lemma {:induction false} AllReleased(w: World) returns (steps: seq<Step>)
    requires Sound(w)
    ensures Run(w, steps).registry.active == {} && Run(w, steps).shutdown == w.shutdown && Sound(Run(w, steps))
    decreases |w.registry.active|
  {
    if w.registry.active == {} {
      return [];
    }
    var p :| p in w.registry.active;
    DoSound(w, Release(p));
    assert |w.registry.active - {p}| < |w.registry.active|;
    var rest := AllReleased(Do(w, Release(p)));
    Front(w, Release(p), rest);
    steps := [Release(p)] + rest;
  }

  lemma {:induction false} Concat(w: World, a: seq<Step>, b: seq<Step>)
    ensures Run(w, a + b) == Run(Run(w, a), b)
  {
    if b == [] {
      assert a + b == a;
    } else {
      assert (a + b)[..|a + b| - 1] == a + b[..|b| - 1];
      Concat(w, a, b[..|b| - 1]);
    }
  }

  /** Shutdown never gets stuck: from every moment before waitFor has returned, Run's own steps bring it
      to waitFor, which can then give up; it returns nil exactly when no pair is active, which the
      owners of the tunnels can bring about by their releases. */
  lemma ShutdownCanEnd(before: seq<Step>) returns (own: seq<Step>, releases: seq<Step>)
    requires var s := Run(START, before).shutdown; s != Drained && s != Expired
    ensures var w := Run(Run(START, before), own);
            && w.shutdown == Awaiting
            && Do(w, Expire).shutdown == Expired
            && (Do(w, Drain).shutdown == Drained <==> w.registry.active == {})
            && Do(Run(w, releases), Drain).shutdown == Drained
  {
    own := ReachesWait(Run(START, before));
    Concat(START, before, own);
    RegistrySound(before + own);
    releases := AllReleased(Run(START, before + own));
  }
}
