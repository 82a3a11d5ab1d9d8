/** The stack refines a map with checkpoints, over every run: any interleaving of calls,
    flush steps, power cuts and reboots. */
module EndToEnd {
  import opened Words
  import opened BlockFormat
  import opened BlockLog
  import opened Recovery
  import opened RegistryBuffer
  import opened PersistentRegistry
  import opened Safety

  // ---------- The specification ----------

  type Map = map<Bytes, Bytes>

  /** The registry as its callers see it, and the checkpoint being saved. */
  datatype SpecLive = SpecLive(registry: Map, pending: Option<Map>)

  /** `disk` is what the next power-on starts from. */
  datatype Spec = Spec(disk: Map, live: Option<SpecLive>)

  /** What a step does, as an observer of the calls and of the flash names it. */
  datatype Event =
    | Puts(name: Bytes, value: Bytes, done: bool) | Removes(name: Bytes)
    | Checkpoint | Wipe | Commit | Crash | Boot | Silent

  /** When a step may happen. Whether a put is done, the map decides. */
  ghost predicate Allowed(capacity: nat, a: Spec, event: Event) {
    match event
    case Puts(name, value, done) =>
      a.live.Some? && (done <==> Accepts(a.live.value.registry, capacity, name, value))
    case Removes(_) => a.live.Some?
    case Checkpoint => a.live.Some? && a.live.value.pending.None?
    case Wipe => a.live.Some? && a.live.value.pending.Some?
    case Commit => a.live.Some? && a.live.value.pending.Some?
    case Crash => a.live.Some?
    case Boot => a.live.None?
    case Silent => true
  }

  /** What it does. Only a save in progress may lose the old data, and only altogether. */
  ghost function Next(capacity: nat, a: Spec, event: Event): Spec
    requires Allowed(capacity, a, event)
  {
    match event
    case Puts(name, value, done) =>
      if done then a.(live := Some(a.live.value.(registry := a.live.value.registry[name := value]))) else a
    case Removes(name) => a.(live := Some(a.live.value.(registry := a.live.value.registry - {name})))
    case Checkpoint => a.(live := Some(a.live.value.(pending := Some(a.live.value.registry))))
    case Wipe => a.(disk := map[])
    case Commit => Spec(a.live.value.pending.value, Some(a.live.value.(pending := None)))
    case Crash => a.(live := None)
    case Boot => a.(live := Some(SpecLive(a.disk, None)))
    case Silent => a
  }

  ghost predicate SpecStep(capacity: nat, a: Spec, event: Event, b: Spec) {
    Allowed(capacity, a, event) && b == Next(capacity, a, event)
  }

  // ---------- Refinement ----------

  ghost function AbsMap(data: Bytes): Map {
    if WellFormed(data) then MapOf(data) else map[]
  }

  ghost function AbsLive(g: Geometry, l: Live): SpecLive
    requires |l.cache| == 4 * g.blockWords
  {
    SpecLive(AbsMap(l.buffer),
             if l.flush.Erasing? || l.flush.Programming? then Some(AbsMap(InFlight(g, l.cache))) else None)
  }

  /** What the machine stands for. The disk is defined as what boot would recover. */
  ghost function Abs(g: Geometry, s: State): Spec {
    if Typed(g, s) then
      Spec(AbsMap(Recovered(g, s.flash)), if s.power.Up? then Some(AbsLive(g, s.power.live)) else None)
    else Spec(map[], None)
  }

  /** This step programs the last flash word of a flush. */
  predicate Completes(g: Geometry, s: State, a: Action) {
    a.ProgramNext? && s.power.Up? && s.power.live.flush.Programming? && s.power.live.flush.steps + 1 == g.Steps()
  }

  /** The event of a machine step: the call's own name and value, and for a flush the
      operation it performs. */
  ghost function EventOf(g: Geometry, s: State, a: Action): Event
    requires Typed(g, s) && Enabled(g, s, a)
  {
    match a
    case PowerCut => if s.power.Up? then Crash else Silent
    case PowerOn(_) => if Best(g, s.flash).Some? then Boot else Silent
    case BootDone => Boot
    case Body => EventOfBody(g, s.power.live)
    case Snapshot => Checkpoint
    case EraseNext => Wipe
    case ProgramNext => if Completes(g, s, a) then Commit else Silent
    case _ => Silent
  }

  ghost function EventOfBody(g: Geometry, l: Live): (event: Event)
    requires l.call.Some? && WellFormed(l.buffer)
    ensures event.Puts? || event.Removes? || event.Silent?
  {
    match l.call.value.op
    case Put(e) => Puts(e.name, e.value, WriteOutcome(l.buffer, e, Capacity(g)) in {Updated, Appended})
    case Remove(name) => Removes(name)
    case Query => Silent
  }

  lemma PowerRefines(g: Geometry, s: State, a: Action)
    requires Inv(g, s) && !s.sentinel && Enabled(g, s, a) && (a.PowerCut? || !s.power.Up?)
    ensures SpecStep(MaxPayload(g.blockWords), Abs(g, s), EventOf(g, s, a), Abs(g, Apply(g, s, a)))
  {
    var after := Apply(g, s, a);
    if a.BootErase? || a.BootDone? {
      NothingCompleteIsEmpty(g, s.flash);
      NothingCompleteIsEmpty(g, after.flash);
    }
  }

  /** What the event of a call's body does to the map. */
  ghost predicate Changes(capacity: nat, was: Map, event: Event, now: Map) {
    match event
    case Puts(name, value, done) =>
      (done <==> Accepts(was, capacity, name, value)) && now == if done then was[name := value] else was
    case Removes(name) => now == was - {name}
    case Silent => now == was
    case _ => false
  }

  /** The map of the buffer changes as the event of the call's body says. */
  lemma BodyChangesMap(g: Geometry, l: Live)
    requires Intact(g, l.buffer) && l.call.Some?
    ensures Changes(MaxPayload(g.blockWords), AbsMap(l.buffer), EventOfBody(g, l), AbsMap(ApplyBody(g, l).buffer))
  {
    match l.call.value.op
    case Put(e) => WriteRefinesUpdate(l.buffer, e, Capacity(g));
    case Remove(name) => DeleteRefinesRemoval(l.buffer, name);
    case Query =>
  }

  lemma ChangeIsStep(capacity: nat, a: Spec, event: Event, now: Map)
    requires a.live.Some? && Changes(capacity, a.live.value.registry, event, now)
    ensures SpecStep(capacity, a, event, a.(live := Some(a.live.value.(registry := now))))
  {
  }

  lemma BodyRefines(g: Geometry, s: State)
    requires Typed(g, s) && Enabled(g, s, Body) && Intact(g, s.power.live.buffer)
    ensures SpecStep(MaxPayload(g.blockWords), Abs(g, s), EventOf(g, s, Body), Abs(g, Apply(g, s, Body)))
  {
    var l := s.power.live;
    var now := AbsMap(ApplyBody(g, l).buffer);
    BodyChangesMap(g, l);
    BodyKeepsFlush(g, l);
    ChangeIsStep(MaxPayload(g.blockWords), Abs(g, s), EventOfBody(g, l), now);
    assert Abs(g, Apply(g, s, Body)) == Abs(g, s).(live := Some(AbsLive(g, l).(registry := now)));
  }

  lemma BodyKeepsFlush(g: Geometry, l: Live)
    requires |l.cache| == 4 * g.blockWords && l.call.Some? && WellFormed(l.buffer)
    ensures ApplyBody(g, l).cache == l.cache
    ensures AbsLive(g, ApplyBody(g, l)) == AbsLive(g, l).(registry := AbsMap(ApplyBody(g, l).buffer))
  {
  }

  lemma SnapshotLive(g: Geometry, l: Live, plan: Plan)
    requires |l.cache| == 4 * g.blockWords && Intact(g, l.buffer) && plan.stamp != UINT32_MAX
    ensures AbsLive(g, AfterSnapshot(g, l, plan)) == SpecLive(AbsMap(l.buffer), Some(AbsMap(l.buffer)))
  {
    SnapshotCache(g, l, plan, plan.stamp);
  }

  lemma SnapshotRefines(g: Geometry, s: State)
    requires Typed(g, s) && Enabled(g, s, Snapshot) && Intact(g, s.power.live.buffer)
    requires !Apply(g, s, Snapshot).sentinel
    ensures SpecStep(MaxPayload(g.blockWords), Abs(g, s), Checkpoint, Abs(g, Apply(g, s, Snapshot)))
  {
    var l := s.power.live;
    var plan := PlanWrite(g, s.flash, l.store);
    SnapshotLive(g, l, plan);
    assert Abs(g, Apply(g, s, Snapshot)) == Abs(g, s).(live := Some(AbsLive(g, AfterSnapshot(g, l, plan))));
  }

  lemma EraseRefines(g: Geometry, s: State)
    requires Inv(g, s) && !s.sentinel && Enabled(g, s, EraseNext)
    ensures SpecStep(MaxPayload(g.blockWords), Abs(g, s), Wipe, Abs(g, Apply(g, s, EraseNext)))
  {
    GoodRuns(g, s);
    EraseRuns(g, s.flash, s.power.live, s.writes);
  }

  lemma ProgramRefines(g: Geometry, s: State)
    requires Typed(g, s) && Enabled(g, s, ProgramNext)
    requires Recovered(g, ProgramFlash(g, s.flash, s.power.live)) ==
      if Completes(g, s, ProgramNext) then InFlight(g, s.power.live.cache) else Recovered(g, s.flash)
    ensures SpecStep(MaxPayload(g.blockWords), Abs(g, s), EventOf(g, s, ProgramNext), Abs(g, Apply(g, s, ProgramNext)))
  {
    var flash := ProgramFlash(g, s.flash, s.power.live);
    assert Abs(g, s) == Spec(AbsMap(Recovered(g, s.flash)), Some(AbsLive(g, s.power.live)));
    AbsAfterProgram(g, s, flash);
    ProgramLive(g, s.power.live);
  }

  lemma AbsAfterProgram(g: Geometry, s: State, flash: Flash)
    requires Typed(g, s) && Enabled(g, s, ProgramNext) && flash == ProgramFlash(g, s.flash, s.power.live)
    ensures Shaped(g, flash)
    ensures Abs(g, Apply(g, s, ProgramNext)) ==
      Spec(AbsMap(Recovered(g, flash)), Some(AbsLive(g, AfterProgram(g, s.power.live))))
  {
    assert Apply(g, s, ProgramNext) == s.(flash := flash, power := Up(AfterProgram(g, s.power.live)));
  }

  lemma ProgramRecovers(g: Geometry, s: State)
    requires Inv(g, s) && !s.sentinel && Enabled(g, s, ProgramNext)
    ensures Recovered(g, ProgramFlash(g, s.flash, s.power.live)) ==
      if Completes(g, s, ProgramNext) then InFlight(g, s.power.live.cache) else Recovered(g, s.flash)
  {
    GoodRuns(g, s);
    ProgramRuns(g, s.flash, s.power.live, s.writes);
  }

  lemma ProgramLive(g: Geometry, l: Live)
    requires |l.cache| == 4 * g.blockWords && l.flush.Programming?
    ensures AbsLive(g, AfterProgram(g, l)) ==
      if l.flush.steps + 1 == g.Steps() then AbsLive(g, l).(pending := None) else AbsLive(g, l)
  {
  }

  /** Locks, flags and the release of the mutex are invisible. */
  lemma BookkeepingRefines(g: Geometry, s: State, a: Action)
    requires Typed(g, s) && s.power.Up? && Enabled(g, s, a)
    requires !(a.PowerCut? || a.Body? || a.Snapshot? || a.EraseNext? || a.ProgramNext?)
    ensures EventOf(g, s, a) == Silent && Abs(g, Apply(g, s, a)) == Abs(g, s)
  {
  }

  lemma FlashStepRefines(g: Geometry, s: State, a: Action)
    requires Inv(g, s) && !s.sentinel && Enabled(g, s, a) && !Apply(g, s, a).sentinel
    requires a.Snapshot? || a.EraseNext? || a.ProgramNext?
    ensures SpecStep(MaxPayload(g.blockWords), Abs(g, s), EventOf(g, s, a), Abs(g, Apply(g, s, a)))
  {
    match a
    case Snapshot => SnapshotRefines(g, s);
    case EraseNext => EraseRefines(g, s);
    case ProgramNext =>
      ProgramRecovers(g, s);
      ProgramRefines(g, s);
  }

  /** Every step of the machine is the step of the specification that its event names. */
  lemma StepRefines(g: Geometry, s: State, a: Action)
    requires Inv(g, s) && !s.sentinel && Enabled(g, s, a) && !Apply(g, s, a).sentinel
    ensures SpecStep(MaxPayload(g.blockWords), Abs(g, s), EventOf(g, s, a), Abs(g, Apply(g, s, a)))
  {
    if a.PowerCut? || !s.power.Up? {
      PowerRefines(g, s, a);
    } else if a.Snapshot? || a.EraseNext? || a.ProgramNext? {
      FlashStepRefines(g, s, a);
    } else if a.Body? {
      BodyRefines(g, s);
    } else {
      BookkeepingRefines(g, s, a);
    }
  }

  // ---------- Runs ----------

  /** A run of the machine from erased flash. */
  ghost predicate Run(g: Geometry, states: seq<State>, actions: seq<Action>) {
    && |states| == |actions| + 1 && Initial(g, states[0])
    && forall i :: 0 <= i < |actions| ==>
         && Typed(g, states[i]) && Enabled(g, states[i], actions[i])
         && states[i + 1] == Apply(g, states[i], actions[i])
  }

  lemma {:induction false} RunKeepsInv(g: Geometry, states: seq<State>, actions: seq<Action>, i: nat)
    requires Run(g, states, actions) && i < |states|
    ensures Inv(g, states[i])
  {
    if i == 0 {
      InitialInv(g, states[0]);
    } else {
      RunKeepsInv(g, states, actions, i - 1);
      StepKeeps(g, states[i - 1], actions[i - 1]);
    }
  }

  ghost predicate SpecRun(capacity: nat, specs: seq<Spec>, events: seq<Event>) {
    && |specs| == |events| + 1 && specs[0] == Spec(map[], None)
    && forall i :: 0 <= i < |events| ==> SpecStep(capacity, specs[i], events[i], specs[i + 1])
  }

  ghost predicate NoSentinel(states: seq<State>) {
    forall i :: 0 <= i < |states| ==> !states[i].sentinel
  }

  /** Up to 2^32 - 2 flushes since the last restart at boot, no write hits the sentinel. */
  lemma BoundedWritesAvoidSentinel(g: Geometry, states: seq<State>, actions: seq<Action>)
    requires Run(g, states, actions)
    requires forall i :: 0 <= i < |states| ==> states[i].writes <= LAST_WRITE
    ensures NoSentinel(states)
  {
    forall i | 0 <= i < |states|
      ensures !states[i].sentinel
    {
      RunKeepsInv(g, states, actions, i);
    }
  }

  ghost function AbsRun(g: Geometry, states: seq<State>): (specs: seq<Spec>)
    ensures |specs| == |states| && forall i :: 0 <= i < |states| ==> specs[i] == Abs(g, states[i])
  {
    seq(|states|, i requires 0 <= i < |states| => Abs(g, states[i]))
  }

  ghost function Events(g: Geometry, states: seq<State>, actions: seq<Action>): (events: seq<Event>)
    requires Run(g, states, actions)
    ensures |events| == |actions|
    ensures forall i :: 0 <= i < |actions| ==> events[i] == EventOf(g, states[i], actions[i])
  {
    seq(|actions|, i requires 0 <= i < |actions| => EventOf(g, states[i], actions[i]))
  }

  lemma InitialAbs(g: Geometry, s: State)
    requires Initial(g, s)
    ensures Abs(g, s) == Spec(map[], None)
  {
    AllErasedIsHealthy(g, s.flash);
    NothingCompleteIsEmpty(g, s.flash);
  }

  /** Every run is, state by state and event by event, a run of the specification. */
  lemma RunRefines(g: Geometry, states: seq<State>, actions: seq<Action>)
    requires Run(g, states, actions) && NoSentinel(states)
    ensures SpecRun(MaxPayload(g.blockWords), AbsRun(g, states), Events(g, states, actions))
  {
    var specs, events := AbsRun(g, states), Events(g, states, actions);
    InitialAbs(g, states[0]);
    forall i | 0 <= i < |events|
      ensures SpecStep(MaxPayload(g.blockWords), specs[i], events[i], specs[i + 1])
    {
      RunStepRefines(g, states, actions, i);
    }
  }

  lemma RunStepRefines(g: Geometry, states: seq<State>, actions: seq<Action>, i: nat)
    requires Run(g, states, actions) && NoSentinel(states) && i < |actions|
    ensures Typed(g, states[i]) && Enabled(g, states[i], actions[i])
    ensures SpecStep(MaxPayload(g.blockWords),
                     Abs(g, states[i]), EventOf(g, states[i], actions[i]), Abs(g, states[i + 1]))
  {
    var s, a, next := states[i], actions[i], states[i + 1];
    assert Enabled(g, s, a) && next == Apply(g, s, a);
    assert !s.sentinel && !next.sentinel;
    assert Inv(g, s) by { RunKeepsInv(g, states, actions, i); }
    StepRefines(g, s, a);
  }

  // ---------- What a specification run can have on disk ----------

  /** Nothing is wiped or committed from step `from` up to step `i`. */
  predicate Untouched(events: seq<Event>, from: nat, i: nat)
    requires i <= |events|
  {
    forall m :: from <= m < i ==> !events[m].Wipe? && !events[m].Commit?
  }

  /** Step `k` takes the latest checkpoint before step `i`, and this is it. */
  predicate LatestCheckpoint(specs: seq<Spec>, events: seq<Event>, k: nat, i: nat, found: Map)
    requires i <= |events| < |specs|
  {
    && k < i && events[k].Checkpoint? && (forall m :: k < m < i ==> !events[m].Checkpoint?)
    && specs[k].live.Some? && specs[k].live.value.registry == found
  }

  /** What is being saved is the latest checkpoint. */
  lemma {:induction false} PendingOrigin(capacity: nat, specs: seq<Spec>, events: seq<Event>, i: nat) returns (k: nat)
    requires SpecRun(capacity, specs, events) && i <= |events|
    requires specs[i].live.Some? && specs[i].live.value.pending.Some?
    ensures LatestCheckpoint(specs, events, k, i, specs[i].live.value.pending.value)
  {
    assert SpecStep(capacity, specs[i - 1], events[i - 1], specs[i - 1 + 1]);
    if events[i - 1].Checkpoint? {
      k := i - 1;
    } else {
      k := PendingOrigin(capacity, specs, events, i - 1);
    }
  }

  datatype Origin = NeverTouched | Saved(start: nat, end: nat) | Wiped(at: nat)

  ghost predicate Explains(specs: seq<Spec>, events: seq<Event>, i: nat, origin: Origin)
    requires i <= |events| < |specs|
  {
    match origin
    case NeverTouched => specs[i].disk == map[] && Untouched(events, 0, i)
    case Saved(k, j) =>
      && j < i && events[j].Commit? && Untouched(events, j + 1, i)
      && LatestCheckpoint(specs, events, k, j, specs[i].disk)
    case Wiped(j) => specs[i].disk == map[] && j < i && events[j].Wipe? && Untouched(events, j + 1, i)
  }

  /** The last step that touched the disk decides what is on it: after a commit the registry
      as it was at the latest checkpoint before, after a wipe nothing. */
  lemma {:induction false} DiskOrigin(capacity: nat, specs: seq<Spec>, events: seq<Event>, i: nat)
    returns (origin: Origin)
    requires SpecRun(capacity, specs, events) && i <= |events|
    ensures Explains(specs, events, i, origin)
  {
    if i == 0 {
      origin := NeverTouched;
    } else {
      assert SpecStep(capacity, specs[i - 1], events[i - 1], specs[i - 1 + 1]);
      if events[i - 1].Commit? {
        var k := PendingOrigin(capacity, specs, events, i - 1);
        origin := Saved(k, i - 1);
      } else if events[i - 1].Wipe? {
        origin := Wiped(i - 1);
      } else {
        origin := DiskOrigin(capacity, specs, events, i - 1);
      }
    }
  }

  // ---------- What this means for the machine ----------

  /** Between `from` and `i`, no flush has erased or programmed its last flash word. */
  ghost predicate NoneErasedOrCompleted(g: Geometry, states: seq<State>, actions: seq<Action>, from: nat, i: nat)
    requires i <= |actions| < |states|
  {
    forall m :: from <= m < i ==> !actions[m].EraseNext? && !Completes(g, states[m], actions[m])
  }

  /** The latest flush to take a snapshot before step `j` did so at step `k`, and the
      registry's map was this one. */
  ghost predicate LatestSnapshot(states: seq<State>, actions: seq<Action>, k: nat, j: nat, found: Map)
    requires j <= |actions| < |states|
  {
    && k < j && actions[k].Snapshot? && (forall m :: k < m < j ==> !actions[m].Snapshot?)
    && states[k].power.Up?
    && WellFormed(states[k].power.live.buffer) && MapOf(states[k].power.live.buffer) == found
  }

  lemma EventMeans(g: Geometry, s: State, a: Action)
    requires Typed(g, s) && Enabled(g, s, a)
    ensures EventOf(g, s, a).Checkpoint? <==> a.Snapshot?
    ensures EventOf(g, s, a).Wipe? <==> a.EraseNext?
    ensures EventOf(g, s, a).Commit? <==> Completes(g, s, a)
  {
  }

  lemma UntouchedMeans(g: Geometry, states: seq<State>, actions: seq<Action>, from: nat, i: nat)
    requires Run(g, states, actions) && i <= |actions| && Untouched(Events(g, states, actions), from, i)
    ensures NoneErasedOrCompleted(g, states, actions, from, i)
  {
    forall m | from <= m < i
      ensures !actions[m].EraseNext? && !Completes(g, states[m], actions[m])
    {
      EventMeans(g, states[m], actions[m]);
      assert !Events(g, states, actions)[m].Wipe?;
    }
  }

  lemma CheckpointMeans(g: Geometry, states: seq<State>, actions: seq<Action>, k: nat, j: nat, found: Map)
    requires Run(g, states, actions) && NoSentinel(states) && j <= |actions|
    requires LatestCheckpoint(AbsRun(g, states), Events(g, states, actions), k, j, found)
    ensures LatestSnapshot(states, actions, k, j, found)
  {
    RunKeepsInv(g, states, actions, k);
    EventMeans(g, states[k], actions[k]);
    forall m | k < m < j
      ensures !actions[m].Snapshot?
    {
      EventMeans(g, states[m], actions[m]);
      assert !Events(g, states, actions)[m].Checkpoint?;
    }
  }

  /** Where the map that a reboot in state `i` finds comes from. */
  ghost predicate BootsFrom(g: Geometry, states: seq<State>, actions: seq<Action>, i: nat, found: Map, origin: Origin)
    requires i <= |actions| < |states|
  {
    match origin
    case NeverTouched => found == map[] && NoneErasedOrCompleted(g, states, actions, 0, i)
    case Saved(k, j) =>
      && j < i && Completes(g, states[j], actions[j]) && NoneErasedOrCompleted(g, states, actions, j + 1, i)
      && LatestSnapshot(states, actions, k, j, found)
    case Wiped(j) =>
      && found == map[] && j < i && actions[j].EraseNext? && NoneErasedOrCompleted(g, states, actions, j + 1, i)
  }

  /** Power may fail in any state of any run. The data a reboot finds is sound, and the last
      flush that got as far as an erase or its last flash word decides it. If that was the
      last flash word, its map is the one the registry held when this flush took its
      snapshot; if it was an erase, or there never was such a flush, it is empty. */
  lemma RebootYieldsSnapshot(g: Geometry, states: seq<State>, actions: seq<Action>, i: nat) returns (origin: Origin)
    requires Run(g, states, actions) && NoSentinel(states) && i < |states|
    ensures Shaped(g, states[i].flash) && Sound(Recovered(g, states[i].flash))
    ensures BootsFrom(g, states, actions, i, MapOf(Recovered(g, states[i].flash)), origin)
  {
    assert Inv(g, states[i]) by { RunKeepsInv(g, states, actions, i); }
    RunRefines(g, states, actions);
    origin := DiskOrigin(MaxPayload(g.blockWords), AbsRun(g, states), Events(g, states, actions), i);
    OriginMeans(g, states, actions, i, MapOf(Recovered(g, states[i].flash)), origin);
  }

  lemma OriginMeans(g: Geometry, states: seq<State>, actions: seq<Action>, i: nat, found: Map, origin: Origin)
    requires Run(g, states, actions) && NoSentinel(states) && i < |states| && Abs(g, states[i]).disk == found
    requires Explains(AbsRun(g, states), Events(g, states, actions), i, origin)
    ensures BootsFrom(g, states, actions, i, found, origin)
  {
    match origin
    case NeverTouched => UntouchedMeans(g, states, actions, 0, i);
    case Saved(k, j) =>
      UntouchedMeans(g, states, actions, j + 1, i);
      EventMeans(g, states[j], actions[j]);
      CheckpointMeans(g, states, actions, k, j, found);
    case Wiped(j) =>
      UntouchedMeans(g, states, actions, j + 1, i);
      EventMeans(g, states[j], actions[j]);
  }

  /** No lost update: whenever the mutex is free, the flag is up or the latest snapshot,
      in the cache or in the flash, is the buffer byte for byte. */
  lemma NoLostUpdate(g: Geometry, states: seq<State>, actions: seq<Action>, i: nat)
    requires Run(g, states, actions) && NoSentinel(states) && i < |states|
    requires states[i].power.Up? && states[i].power.live.owner.None?
    ensures Typed(g, states[i])
    ensures var l := states[i].power.live;
      && (l.needUpdate || Latest(g, states[i].flash, l) == l.buffer)
      && (!l.needUpdate && l.flush.Idle? ==> Recovered(g, states[i].flash) == l.buffer)
  {
    RunKeepsInv(g, states, actions, i);
  }

  /** The flash as it will be once a flush under way has done its erases. */
  ghost function Cleared(g: Geometry, flash: Flash, flush: Flush): (cleared: Flash)
    requires Shaped(g, flash)
    ensures Shaped(g, cleared)
  {
    if flush.Erasing? && flush.done <= |flush.plan.erases| then EraseSectors(g, flash, flush.plan.erases[flush.done..])
    else flash
  }

  /** What the live fields say of the log. At rest they are what a reboot would compute.
      During a flush they are those of the block in the cache, which is for the current
      block: it will be found erased, or holds the flash words programmed so far. At any
      time the next counter is above every one that is going to stay. */
  ghost predicate FieldsDescribe(g: Geometry, flash: Flash, l: Live)
    requires Shaped(g, flash) && |l.cache| == 4 * g.blockWords && l.store.current < |flash|
  {
    var image, cleared := WordsOf(l.cache), Cleared(g, flash, l.flush);
    && (forall i :: 0 <= i < |cleared| && Complete(cleared[i]) ==> CounterOf(cleared[i]) < l.store.counter)
    && (l.flush.Erasing? || l.flush.Programming? ==>
         && Complete(image) && SizeOf(image) == l.store.size && CounterOf(image) + 1 == l.store.counter
         && cleared[l.store.current] ==
              Partial(ErasedBlock(g.blockWords), image, if l.flush.Programming? then 8 * l.flush.steps else 0))
    && (!l.flush.Erasing? && !l.flush.Programming? ==> Settled(g, flash, l.store))
  }

  lemma LiveFieldsDescribe(g: Geometry, flash: Flash, l: Live, writes: nat)
    requires Running(g, flash, l, writes)
    ensures FieldsDescribe(g, flash, l)
  {
    match l.flush {
      case Erasing(_, _) => ErasingDescribes(g, flash, l, writes);
      case Programming(_) => ProgrammingDescribes(g, flash, l, writes);
      case _ => BootScanMeaning(g, flash);
    }
  }

  lemma ErasingDescribes(g: Geometry, flash: Flash, l: Live, writes: nat)
    requires Shaped(g, flash) && |l.cache| == 4 * g.blockWords && l.store.current < |flash|
    requires FlushInv(g, flash, l, writes) && l.flush.Erasing?
    ensures FieldsDescribe(g, flash, l)
  {
    BootScanMeaning(g, Cleared(g, flash, l.flush));
    assert Partial(ErasedBlock(g.blockWords), WordsOf(l.cache), 0) == ErasedBlock(g.blockWords);
  }

  lemma ProgrammingDescribes(g: Geometry, flash: Flash, l: Live, writes: nat)
    requires Shaped(g, flash) && |l.cache| == 4 * g.blockWords && l.store.current < |flash|
    requires FlushInv(g, flash, l, writes) && l.flush.Programming?
    ensures FieldsDescribe(g, flash, l)
  {
    var ready := FlightStart(g, flash, l, writes);
    FlightProgress(g, flash, ready, l.store.current, WordsOf(l.cache), l.flush.steps);
    BootScanMeaning(g, ready);
  }

  /** The log invariant and the capacity in every state of every run: the flash stays
      healthy through every power cut and reboot, the live fields describe it, and the
      buffer stays a packing of distinct keys that fits one block. */
  lemma RunsStayHealthy(g: Geometry, states: seq<State>, actions: seq<Action>, i: nat)
    requires Run(g, states, actions) && NoSentinel(states) && i < |states|
    ensures Typed(g, states[i]) && Healthy(g, states[i].flash)
    ensures states[i].power.Up? ==>
      && FieldsDescribe(g, states[i].flash, states[i].power.live)
      && Sound(states[i].power.live.buffer) && |states[i].power.live.buffer| <= MaxPayload(g.blockWords)
  {
    RunKeepsInv(g, states, actions, i);
    if states[i].power.Up? {
      GoodRuns(g, states[i]);
      LiveFieldsDescribe(g, states[i].flash, states[i].power.live, states[i].writes);
    }
  }

  // ---------- The early returns ----------

  /** A client owns the mutex and has taken it more often than its calls will give it back. */
  predicate Stuck(s: State) {
    && s.power.Up? && s.power.live.owner.Some? && s.power.live.owner != Some(FLUSHER)
    && !s.power.live.flush.Locked? && !s.power.live.flush.Cleared? && !s.power.live.flush.Erasing?
    && s.power.live.count >= if s.power.live.call.Some? then 2 else 1
  }

  /** The `Put` whose body runs in this step is turned away. */
  predicate Rejects(g: Geometry, s: State, a: Action) {
    && a.Body? && s.power.Up? && s.power.live.call.Some? && s.power.live.call.value.op.Put?
    && WellFormed(s.power.live.buffer)
    && WriteOutcome(s.power.live.buffer, s.power.live.call.value.op.entry, Capacity(g)) in {SizeMismatch, NoSpace}
  }

  lemma RejectionSticks(g: Geometry, s: State)
    requires Inv(g, s) && !s.sentinel && Enabled(g, s, Body) && Rejects(g, s, Body)
    ensures Stuck(Apply(g, s, Body)) && Apply(g, s, Body).power.live.owner == s.power.live.owner
  {
  }

  lemma StuckStays(g: Geometry, s: State, a: Action)
    requires Typed(g, s) && Enabled(g, s, a) && Stuck(s) && !a.PowerCut?
    ensures Stuck(Apply(g, s, a)) && !a.Snapshot? && !a.TakeMutex?
    ensures Apply(g, s, a).power.live.owner == s.power.live.owner
    ensures a.Enter? ==> s.power.live.owner == Some(a.task)
  {
  }

  lemma {:induction false} StuckFrom(g: Geometry, states: seq<State>, actions: seq<Action>, i: nat, m: nat)
    requires Run(g, states, actions) && NoSentinel(states) && i < m <= |actions|
    requires Rejects(g, states[i], actions[i])
    requires forall k :: i < k < m ==> !actions[k].PowerCut?
    ensures Stuck(states[m]) && states[m].power.live.owner == states[i].power.live.owner
  {
    if m == i + 1 {
      RunKeepsInv(g, states, actions, i);
      RejectionSticks(g, states[i]);
    } else {
      StuckFrom(g, states, actions, i, m - 1);
      StuckStays(g, states[m - 1], actions[m - 1]);
    }
  }

  /** A rejected write keeps the mutex for good: until power fails, no flush takes a snapshot
      any more, whatever the callers do. Only one that is already programming completes. */
  lemma RejectedWriteStopsSaving(g: Geometry, states: seq<State>, actions: seq<Action>, i: nat, m: nat)
    requires Run(g, states, actions) && NoSentinel(states) && i < m < |actions|
    requires Rejects(g, states[i], actions[i])
    requires forall k :: i < k <= m ==> !actions[k].PowerCut?
    ensures !actions[m].Snapshot?
  {
    StuckFrom(g, states, actions, i, m);
    StuckStays(g, states[m], actions[m]);
  }

  /** Since the last power-on before state `i`, a write has been turned away. */
  ghost predicate RejectedSinceUp(g: Geometry, states: seq<State>, actions: seq<Action>, i: nat)
    requires i <= |actions| < |states|
  {
    exists k :: 0 <= k < i && Rejects(g, states[k], actions[k]) && forall m :: k < m < i ==> !actions[m].PowerCut?
  }

  /** A client that owns the mutex is in a call, and has taken it only for that call. */
  predicate Orderly(l: Live) {
    l.owner.Some? && l.owner != Some(FLUSHER) ==> l.call.Some? && l.count == 1
  }

  lemma OrderlyStays(g: Geometry, flash: Flash, l: Live, a: Action)
    requires Shaped(g, flash) && EnabledLive(g, flash, l, a) && MutexInv(l) && Orderly(l)
    requires !(a.Snapshot? || a.EraseNext? || a.ProgramNext?)
    requires a.Body? && l.call.value.op.Put? ==>
      WriteOutcome(l.buffer, l.call.value.op.entry, Capacity(g)) in {Updated, Appended}
    ensures Orderly(ApplyVolatile(g, flash, l, a))
  {
  }

  lemma OrderlyStep(g: Geometry, s: State, a: Action)
    requires Inv(g, s) && !s.sentinel && Enabled(g, s, a) && !Rejects(g, s, a) && Apply(g, s, a).power.Up?
    requires s.power.Up? ==> Orderly(s.power.live)
    ensures Orderly(Apply(g, s, a).power.live)
  {
    if s.power.Up? && !(a.Snapshot? || a.EraseNext? || a.ProgramNext?) {
      OrderlyStays(g, s.flash, s.power.live, a);
    }
  }

  lemma {:induction false} OrderlyUnlessRejected(g: Geometry, states: seq<State>, actions: seq<Action>, i: nat)
    requires Run(g, states, actions) && NoSentinel(states) && i < |states|
    requires states[i].power.Up? && !RejectedSinceUp(g, states, actions, i)
    ensures Orderly(states[i].power.live)
  {
    if i > 0 {
      RejectedEarlier(g, states, actions, i);
      if states[i - 1].power.Up? {
        OrderlyUnlessRejected(g, states, actions, i - 1);
      }
      OrderlyNext(g, states, actions, i - 1);
    }
  }

  lemma OrderlyNext(g: Geometry, states: seq<State>, actions: seq<Action>, i: nat)
    requires Run(g, states, actions) && NoSentinel(states) && i < |actions| && !Rejects(g, states[i], actions[i])
    requires states[i].power.Up? ==> Orderly(states[i].power.live)
    ensures states[i + 1].power.Up? ==> Orderly(states[i + 1].power.live)
  {
    var s, a := states[i], actions[i];
    assert Enabled(g, s, a) && states[i + 1] == Apply(g, s, a);
    assert Inv(g, s) by { RunKeepsInv(g, states, actions, i); }
    if states[i + 1].power.Up? {
      OrderlyStep(g, s, a);
    }
  }

  lemma RejectedEarlier(g: Geometry, states: seq<State>, actions: seq<Action>, i: nat)
    requires Run(g, states, actions) && 0 < i < |states| && states[i].power.Up?
    requires !RejectedSinceUp(g, states, actions, i)
    ensures !RejectedSinceUp(g, states, actions, i - 1) && !Rejects(g, states[i - 1], actions[i - 1])
  {
    assert states[i - 1 + 1] == Apply(g, states[i - 1], actions[i - 1]);
  }

  /** The mutex is leaked by a rejected write and by nothing else: a client holds it for good
      exactly if a write has been turned away since power came on, and otherwise every
      client that holds it is in a call that will give it back. */
  lemma MutexLeaksIff(g: Geometry, states: seq<State>, actions: seq<Action>, i: nat)
    requires Run(g, states, actions) && NoSentinel(states) && i < |states| && states[i].power.Up?
    ensures Stuck(states[i]) <==> RejectedSinceUp(g, states, actions, i)
    ensures !RejectedSinceUp(g, states, actions, i) ==> Orderly(states[i].power.live)
  {
    if RejectedSinceUp(g, states, actions, i) {
      var k :| 0 <= k < i && Rejects(g, states[k], actions[k]) && forall m :: k < m < i ==> !actions[m].PowerCut?;
      StuckFrom(g, states, actions, k, i);
    } else {
      OrderlyUnlessRejected(g, states, actions, i);
    }
  }
}
