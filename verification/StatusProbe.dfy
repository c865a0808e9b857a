/** One status probe at a time: callers that arrive while a probe runs wait for it on a
    channel. Each mutex region is one atomic step. */
module StatusProbe {
  import opened Common

  datatype Status = Status(image: string, state: string, detail: string)

  const STARTING := "starting"
  const STILL_RUNNING := "Docker status probe is still running"

  // ---------------------------------------------------------------------------
  // The fields under the mutex

  /** The running flag, the wait channel and the last result. Channels are numbered as
      they are made; closed lists them as they are closed. */
  datatype Shared = Shared(running: bool, done: Option<nat>, cache: Status, made: nat, closed: seq<nat>)

  datatype Entry = Probe(channel: nat) | Wait(channel: nat) | Unknown

  /** The first region of a call. */
  function Enter(s: Shared): (Shared, Entry) {
    if s.running then (s, if s.done.None? then Unknown else Wait(s.done.value))
    else (s.(running := true, done := Some(s.made), made := s.made + 1), Probe(s.made))
  }

  /** The last region of a call that probed. */
  function Publish(s: Shared, channel: nat, result: Status): Shared {
    s.(running := false, cache := result, done := None, closed := s.closed + [channel])
  }

  /** What a released caller reads. */
  function Filled(status: Status, image: string): Status {
    if status.image == "" then status.(image := image) else status
  }

  class Docker {
    const image: string
    var statusRunning: bool
    var statusDone: Option<nat>
    var statusCache: Status
    var made: nat
    var closed: seq<nat>

    ghost function State(): Shared
      reads this
    {
      Shared(statusRunning, statusDone, statusCache, made, closed)
    }

    constructor (image: string, empty: Status)
      ensures State() == Shared(false, None, empty, 0, []) && this.image == image
    {
      this.image := image;
      statusRunning, statusDone, statusCache, made, closed := false, None, empty, 0, [];
    }

    method EnterStatus() returns (entry: Entry)
      modifies this
      ensures (State(), entry) == Enter(old(State()))
    {
      if statusRunning {
        if statusDone.None? { return Unknown; }
        return Wait(statusDone.value);
      }
      statusRunning := true;
      statusDone := Some(made);
      entry := Probe(made);
      made := made + 1;
    }

    /** Closing a channel twice would panic. */
    method PublishStatus(channel: nat, result: Status)
      requires channel !in closed
      modifies this
      ensures State() == Publish(old(State()), channel, result)
    {
      statusRunning := false;
      statusCache := result;
      statusDone := None;
      closed := closed + [channel];
    }

    method ReadStatus() returns (status: Status)
      ensures status == Filled(State().cache, image)
    {
      status := statusCache;
      if status.image == "" {
        status := status.(image := image);
      }
    }
  }

  // ---------------------------------------------------------------------------
  // All interleavings of callers

  /** Where a call stands. A waiting call remembers how many probes had completed when it
      joined; a released one, its answer. */
  datatype Call =
    | Probing(channel: nat)
    | Waiting(channel: nat, joined: nat)
    | Probed(status: Status)
    | Released(status: Status, joined: nat)
    | GaveUp(status: Status)

  datatype World = World(shared: Shared, results: seq<Status>, calls: map<nat, Call>)

  datatype Step = Arrive(call: nat) | Complete(call: nat, result: Status) | Release(call: nat) | GiveUp(call: nat)

  function Start(empty: Status): World {
    World(Shared(false, None, empty, 0, []), [], map[])
  }

  /** A step that is not possible leaves the world as it is. */
  function Next(w: World, step: Step, image: string): World {
    match step
    case Arrive(c) =>
      if c in w.calls then w
      else
        var (shared, entry) := Enter(w.shared);
        (match entry
         case Probe(channel) => w.(shared := shared, calls := w.calls[c := Probing(channel)])
         case Wait(channel) => w.(shared := shared, calls := w.calls[c := Waiting(channel, |w.results|)])
         case Unknown => w.(shared := shared, calls := w.calls[c := GaveUp(Status(image, "", ""))]))
    case Complete(c, result) =>
      if c in w.calls && w.calls[c].Probing? then
        World(Publish(w.shared, w.calls[c].channel, result), w.results + [result], w.calls[c := Probed(result)])
      else w
    case Release(c) =>
      if c in w.calls && w.calls[c].Waiting? && w.calls[c].channel in w.shared.closed then
        w.(calls := w.calls[c := Released(Filled(w.shared.cache, image), w.calls[c].joined)])
      else w
    case GiveUp(c) =>
      if c in w.calls && w.calls[c].Waiting? then
        w.(calls := w.calls[c := GaveUp(Status(image, STARTING, STILL_RUNNING))])
      else w
  }

  function Run(w: World, steps: seq<Step>, image: string): World
    decreases |steps|
  {
    if steps == [] then w else Run(Next(w, steps[0], image), steps[1..], image)
  }

  // ---------------------------------------------------------------------------
  // The invariant

  ghost predicate IsProber(w: World, c: nat) {
    c in w.calls && w.calls[c].Probing?
  }

  ghost predicate SingleFlight(w: World) {
    forall c, d :: IsProber(w, c) && IsProber(w, d) ==> c == d
  }

  /** The flag, the channel and a probe in flight come together. */
  ghost predicate FlagIsFlight(w: World) {
    && (w.shared.running <==> w.shared.done.Some?)
    && (w.shared.running <==> exists c :: IsProber(w, c))
    && (forall c :: IsProber(w, c) ==> w.shared.done == Some(w.calls[c].channel))
  }

  /** Each channel is closed at most once, and the current one not yet. */
  ghost predicate ClosedOnce(w: World) {
    && (forall i, j :: 0 <= i < j < |w.shared.closed| ==> w.shared.closed[i] != w.shared.closed[j])
    && (forall i :: 0 <= i < |w.shared.closed| ==> w.shared.closed[i] < w.shared.made)
    && (w.shared.done.Some? ==> w.shared.done.value < w.shared.made && w.shared.done.value !in w.shared.closed)
    && |w.shared.closed| == |w.results|
    && w.shared.made == |w.results| + (if w.shared.running then 1 else 0)
  }

  /** Whoever waits, waits for the probe in flight, or can go. */
  ghost predicate WaitersServed(w: World) {
    forall c :: c in w.calls && w.calls[c].Waiting? ==>
      && w.calls[c].joined <= |w.results|
      && (w.shared.done == Some(w.calls[c].channel)
          || (w.calls[c].channel in w.shared.closed && w.calls[c].joined < |w.results|))
  }

  ghost predicate CacheIsLast(w: World) {
    w.results != [] ==> w.shared.cache == w.results[|w.results| - 1]
  }

  /** A released call has the result of a probe that completed after it joined. */
  ghost predicate IsFresh(w: World, c: nat, image: string) {
    c in w.calls && w.calls[c].Released? ==>
      exists k :: w.calls[c].joined <= k < |w.results| && w.calls[c].status == Filled(w.results[k], image)
  }

  ghost predicate ReleasedFresh(w: World, image: string) {
    forall c :: IsFresh(w, c, image)
  }

  ghost predicate Inv(w: World, image: string) {
    SingleFlight(w) && FlagIsFlight(w) && ClosedOnce(w) && WaitersServed(w) && CacheIsLast(w) && ReleasedFresh(w, image)
  }

  lemma StaysFresh(w: World, v: World, c: nat, image: string)
    requires IsFresh(w, c, image) && w.results <= v.results
    requires c in v.calls && v.calls[c].Released? ==> c in w.calls && v.calls[c] == w.calls[c]
    ensures IsFresh(v, c, image)
  {
    if c in v.calls && v.calls[c].Released? {
      var k :| w.calls[c].joined <= k < |w.results| && w.calls[c].status == Filled(w.results[k], image);
      assert v.results[k] == w.results[k];
    }
  }

  lemma ArriveKeeps(w: World, c: nat, image: string)
    requires Inv(w, image)
    ensures Inv(Next(w, Arrive(c), image), image)
  {
    hide Filled, IsFresh;
    var v := Next(w, Arrive(c), image);
    forall d
      ensures IsFresh(v, d, image)
    {
      StaysFresh(w, v, d, image);
    }
    if c !in w.calls && !w.shared.running {
      assert IsProber(v, c);
      assert forall d :: IsProber(v, d) ==> d == c || IsProber(w, d);
    } else {
      assert forall d :: IsProber(v, d) <==> IsProber(w, d);
    }
  }

  lemma CompleteKeeps(w: World, c: nat, result: Status, image: string)
    requires Inv(w, image)
    ensures Inv(Next(w, Complete(c, result), image), image)
  {
    hide Filled, IsFresh;
    var v := Next(w, Complete(c, result), image);
    forall d
      ensures IsFresh(v, d, image)
    {
      StaysFresh(w, v, d, image);
    }
    if IsProber(w, c) {
      var channel := w.calls[c].channel;
      assert v.shared.closed == w.shared.closed + [channel];
      assert v.shared.closed[|w.shared.closed|] == channel;
      assert forall d :: IsProber(v, d) ==> d != c && IsProber(w, d);
      forall d | d in v.calls && v.calls[d].Waiting?
        ensures v.calls[d].channel in v.shared.closed
      {
        assert w.calls[d] == v.calls[d];
      }
    }
  }

  lemma ReleaseKeeps(w: World, c: nat, image: string)
    requires Inv(w, image)
    ensures Inv(Next(w, Release(c), image), image)
  {
    var v := Next(w, Release(c), image);
    assert forall d :: IsProber(v, d) <==> IsProber(w, d);
    hide Filled;
    forall d
      ensures IsFresh(v, d, image)
    {
      if v != w && d == c {
        assert w.results != [];
        assert v.calls[c].status == Filled(w.results[|w.results| - 1], image);
      } else {
        StaysFresh(w, v, d, image);
      }
    }
  }

  lemma GiveUpKeeps(w: World, c: nat, image: string)
    requires Inv(w, image)
    ensures Inv(Next(w, GiveUp(c), image), image)
  {
    hide Filled, IsFresh;
    var v := Next(w, GiveUp(c), image);
    assert forall d :: IsProber(v, d) <==> IsProber(w, d);
    forall d
      ensures IsFresh(v, d, image)
    {
      StaysFresh(w, v, d, image);
    }
  }

  lemma {:induction false} RunKeepsInv(w: World, steps: seq<Step>, image: string)
    requires Inv(w, image)
    ensures Inv(Run(w, steps, image), image)
    decreases |steps|
  {
    hide Inv, Next;
    if steps != [] {
      match steps[0] {
        case Arrive(c) => ArriveKeeps(w, c, image);
        case Complete(c, result) => CompleteKeeps(w, c, result, image);
        case Release(c) => ReleaseKeeps(w, c, image);
        case GiveUp(c) => GiveUpKeeps(w, c, image);
      }
      RunKeepsInv(Next(w, steps[0], image), steps[1..], image);
    }
  }

  lemma StartInv(empty: Status, image: string)
    ensures Inv(Start(empty), image)
  {}

  // ---------------------------------------------------------------------------
  // What every run has

  /** In every reachable state at most one probe is in flight, the flag is up exactly then,
      no channel was closed twice and the one in use is still to be closed. */
  lemma ProbesAreSingleFlight(empty: Status, steps: seq<Step>, image: string)
    ensures var w := Run(Start(empty), steps, image);
      && SingleFlight(w) && FlagIsFlight(w) && ClosedOnce(w)
  {
    hide Run, Start;
    StartInv(empty, image);
    RunKeepsInv(Start(empty), steps, image);
  }

  /** A caller that waited and was released got a result completed after it joined. */
  lemma JoinersAreFresh(empty: Status, steps: seq<Step>, image: string, c: nat)
    ensures IsFresh(Run(Start(empty), steps, image), c, image)
  {
    hide Run, Start, IsFresh;
    StartInv(empty, image);
    RunKeepsInv(Start(empty), steps, image);
  }

  lemma {:induction false} RunGoesOn(w: World, steps: seq<Step>, step: Step, image: string)
    ensures Run(w, [], image) == w
    ensures Run(w, steps + [step], image) == Next(Run(w, steps, image), step, image)
    decreases |steps|
  {
    hide Next;
    if steps == [] {
      assert [] + [step] == [step] && [step][1..] == [];
    } else {
      assert (steps + [step])[1..] == steps[1..] + [step];
      RunGoesOn(Next(w, steps[0], image), steps[1..], step, image);
    }
  }

  /** A new call waits for the probe in flight, on its channel, or begins one if there is
      none. */
  lemma CallsJoinOrProbe(empty: Status, steps: seq<Step>, image: string, c: nat)
    requires c !in Run(Start(empty), steps, image).calls
    ensures var w := Run(Start(empty), steps, image); var v := Run(Start(empty), steps + [Arrive(c)], image);
      && c in v.calls && v.results == w.results
      && (forall p :: IsProber(w, p) ==> p in v.calls && v.calls[p] == w.calls[p] && v.calls[c] == Waiting(w.calls[p].channel, |w.results|))
      && ((forall p :: !IsProber(w, p)) ==> IsProber(v, c))
  {
    hide Run, Start;
    StartInv(empty, image);
    RunKeepsInv(Start(empty), steps, image);
    RunGoesOn(Start(empty), steps, Arrive(c), image);
  }

  /** A probe that completes answers its own call, and every call that waits is then released
      with that answer; a call that gives up is told so at once. */
  lemma CallsAreAnswered(empty: Status, steps: seq<Step>, image: string, c: nat, result: Status)
    ensures var w := Run(Start(empty), steps, image); var v := Run(Start(empty), steps + [Complete(c, result)], image);
      IsProber(w, c) ==>
        && c in v.calls && v.calls[c] == Probed(result) && v.results == w.results + [result] && (forall p :: !IsProber(v, p))
        && forall d :: d in v.calls && v.calls[d].Waiting? ==>
             Next(v, Release(d), image).calls[d]
             == Released(if result.image == "" then result.(image := image) else result, v.calls[d].joined)
    ensures var w := Run(Start(empty), steps, image); var v := Run(Start(empty), steps + [GiveUp(c)], image);
      c in w.calls && w.calls[c].Waiting? ==>
        c in v.calls && v.calls[c] == GaveUp(Status(image, "starting", "Docker status probe is still running")) && v.results == w.results
  {
    hide Run, Start;
    StartInv(empty, image);
    RunKeepsInv(Start(empty), steps, image);
    RunGoesOn(Start(empty), steps, Complete(c, result), image);
    RunGoesOn(Start(empty), steps, GiveUp(c), image);
    var w := Run(Start(empty), steps, image);
    if IsProber(w, c) { CompletionFrees(w, c, result, image); }
  }

  lemma CompletionFrees(w: World, c: nat, result: Status, image: string)
    requires Inv(w, image) && IsProber(w, c)
    ensures var v := Next(w, Complete(c, result), image);
      && (forall p :: !IsProber(v, p))
      && forall d :: d in v.calls && v.calls[d].Waiting? ==> v.calls[d].channel in v.shared.closed
  {
    CompleteKeeps(w, c, result, image);
    hide IsFresh;
  }

  /** No caller is left behind: one that waits can be released now, or as soon as the
      one probe in flight completes, whatever that probe finds. */
  lemma WaitersAreReleased(empty: Status, steps: seq<Step>, image: string, c: nat, result: Status)
    requires var w := Run(Start(empty), steps, image); c in w.calls && w.calls[c].Waiting?
    ensures var w := Run(Start(empty), steps, image);
      || Next(w, Release(c), image).calls[c].Released?
      || (exists p :: IsProber(w, p) && Next(Next(w, Complete(p, result), image), Release(c), image).calls[c].Released?)
  {
    hide Run, Start, Filled;
    StartInv(empty, image);
    RunKeepsInv(Start(empty), steps, image);
    var w := Run(Start(empty), steps, image);
    if w.calls[c].channel !in w.shared.closed {
      var p :| IsProber(w, p);
      var v := Next(w, Complete(p, result), image);
      assert v.shared.closed[|w.shared.closed|] == w.calls[p].channel;
      assert Next(v, Release(c), image).calls[c].Released?;
    }
  }

  /** The answer for a running probe without a channel is never given: a call that has not
      probed, been released or is under way gave up by itself. */
  lemma UnknownNeverHappens(empty: Status, steps: seq<Step>, image: string)
    ensures !Enter(Run(Start(empty), steps, image).shared).1.Unknown?
  {
    hide Run, Start;
    StartInv(empty, image);
    RunKeepsInv(Start(empty), steps, image);
  }
}
