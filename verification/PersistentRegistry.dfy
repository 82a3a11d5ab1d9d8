/** The whole stack as one interleaving machine: client tasks, the flush task, power cuts
    and reboots, one flash operation at a time, over the same functions that specify the
    registry and the flash manager. */
module PersistentRegistry {
  import opened Words
  import opened BlockFormat
  import opened BlockLog
  import opened Recovery
  import opened RegistryBuffer

  type Task = nat

  /** The task that runs the periodic flush; every other task is a client. */
  const FLUSHER: Task := 0

  /** A client call; `Query` stands for `Read`, `IsExist` and `PrintAll`. */
  datatype Op = Put(entry: Entry) | Remove(name: Bytes) | Query

  /** How far the call of the mutex owner has got. */
  datatype Stage = Entered | Mutated | Finished

  datatype Call = Call(op: Op, stage: Stage)

  /** Where the flush task stands inside `EventCheckFlash`. */
  datatype Flush = Idle | Polled | Locked | Cleared | Erasing(plan: Plan, done: nat) | Programming(steps: nat)

  /** All that a power cut loses. */
  datatype Live = Live(
    store: Store, cache: seq<Byte>,
    buffer: Bytes, needUpdate: bool,
    owner: Option<Task>, count: nat, call: Option<Call>,
    flush: Flush)

  datatype Power = Off | Booting(erased: nat, spare: seq<Byte>) | Up(live: Live)

  /** `writes` counts the flushes since boot last restarted the flash, and `sentinel` says
      whether one of them was stamped with the counter that marks incomplete blocks. */
  datatype State = State(flash: Flash, power: Power, writes: nat, sentinel: bool)

  datatype Action =
    | PowerCut | PowerOn(spare: seq<Byte>) | BootErase | BootDone
    | Enter(task: Task, op: Op) | Body | SetFlag | Leave
    | Poll | TakeMutex | ClearFlag | Snapshot | EraseNext | ReleaseMutex | ProgramNext

  // ---------- Steps ----------

  function Capacity(g: Geometry): nat {
    MaxPayload(g.blockWords)
  }

  /** One flash word of the block in flight. */
  function ProgramWord(block: Block, image: Block, step: nat): (result: Block)
    requires |block| == |image|
    ensures |result| == |block|
  {
    seq(|block|, i requires 0 <= i < |block| =>
      if 8 * step <= i < 8 * step + 8 then And(block[i], image[i]) as Word else block[i])
  }

  /** A freshly constructed registry that found this data. */
  function Fresh(store: Store, cache: seq<Byte>, data: Bytes): Live {
    Live(store, cache, data, false, None, 0, None, Idle)
  }

  /** The calls keep to the capacity: a new entry fits as a whole. */
  predicate FitsCapacity(g: Geometry, buffer: Bytes, op: Op)
    requires WellFormed(buffer)
  {
    op.Put? && WriteOutcome(buffer, op.entry, Capacity(g)) == Appended ==>
      |buffer| + |PackEntry(op.entry)| <= Capacity(g)
  }

  ghost predicate Typed(g: Geometry, s: State) {
    && Shaped(g, s.flash)
    && (s.power.Booting? ==> |s.power.spare| == 4 * g.blockWords)
    && (s.power.Up? ==> |s.power.live.cache| == 4 * g.blockWords && s.power.live.store.current < g.blocks)
  }

  ghost predicate Enabled(g: Geometry, s: State, a: Action)
    requires Typed(g, s)
  {
    match a
    case PowerCut => true
    case PowerOn(spare) => s.power.Off? && |spare| == 4 * g.blockWords
    case BootErase => s.power.Booting? && s.power.erased < g.sectors
    case BootDone => s.power.Booting? && s.power.erased == g.sectors
    case _ => s.power.Up? && EnabledLive(g, s.flash, s.power.live, a)
  }

  ghost predicate EnabledLive(g: Geometry, flash: Flash, l: Live, a: Action)
    requires Shaped(g, flash)
  {
    match a
    case Enter(t, op) => t != FLUSHER && l.call.None? && (l.owner.None? || l.owner == Some(t))
    case Body => l.call.Some? && l.call.value.stage.Entered? && WellFormed(l.buffer)
                 && FitsCapacity(g, l.buffer, l.call.value.op)
    case SetFlag => l.call.Some? && l.call.value.stage.Mutated?
    case Leave => l.call.Some? && l.call.value.stage.Finished? && 0 < l.count
    case Poll => l.flush.Idle? && l.needUpdate
    case TakeMutex => l.flush.Polled? && l.owner.None?
    case ClearFlag => l.flush.Locked?
    case Snapshot => l.flush.Cleared? && |l.buffer| <= Capacity(g)
    case EraseNext => l.flush.Erasing? && l.flush.done < |l.flush.plan.erases|
    case ReleaseMutex => l.flush.Erasing? && l.flush.done == |l.flush.plan.erases|
    case ProgramNext => l.flush.Programming? && l.flush.steps < g.Steps()
    case _ => false
  }

  ghost function Apply(g: Geometry, s: State, a: Action): State
    requires Typed(g, s) && Enabled(g, s, a)
  {
    match a
    case PowerCut => s.(power := Off)
    case PowerOn(spare) =>
      if Best(g, s.flash).None? then s.(power := Booting(0, spare))
      else s.(power := Up(Fresh(BootStore(g, s.flash), spare, Recovered(g, s.flash))))
    case BootErase =>
      s.(flash := EraseSector(g, s.flash, s.power.erased), power := s.power.(erased := s.power.erased + 1))
    case BootDone =>
      s.(power := Up(Fresh(Store(0, 1, 0), CacheImage(s.power.spare, [], 0), [])), writes := 0, sentinel := false)
    case Snapshot =>
      var plan := PlanWrite(g, s.flash, s.power.live.store);
      s.(power := Up(AfterSnapshot(g, s.power.live, plan)),
         writes := s.writes + 1,
         sentinel := s.sentinel || plan.stamp == UINT32_MAX)
    case EraseNext =>
      s.(flash := EraseSector(g, s.flash, s.power.live.flush.plan.erases[s.power.live.flush.done]),
         power := Up(AfterErase(s.power.live)))
    case ProgramNext =>
      s.(flash := ProgramFlash(g, s.flash, s.power.live), power := Up(AfterProgram(g, s.power.live)))
    case _ => s.(power := Up(ApplyVolatile(g, s.flash, s.power.live, a)))
  }

  /** `FlashManagment::Write` up to its first erase: fields and cache follow the plan. */
  ghost function AfterSnapshot(g: Geometry, l: Live, plan: Plan): (after: Live)
    requires |l.cache| == 4 * g.blockWords && |l.buffer| <= Capacity(g)
    ensures |after.cache| == 4 * g.blockWords
  {
    l.(store := Store(plan.target, Increment(plan.stamp), |l.buffer|),
       cache := CacheAfterWrite(g, l.cache, plan, l.buffer), flush := Erasing(plan, 0))
  }

  function AfterErase(l: Live): Live
    requires l.flush.Erasing?
  {
    l.(flush := l.flush.(done := l.flush.done + 1))
  }

  /** One flash word of `WriteToFlash`. */
  ghost function ProgramFlash(g: Geometry, flash: Flash, l: Live): (after: Flash)
    requires Shaped(g, flash) && |l.cache| == 4 * g.blockWords && l.store.current < |flash| && l.flush.Programming?
    ensures Shaped(g, after)
  {
    var t := l.store.current;
    flash[t := ProgramWord(flash[t], WordsOf(l.cache), l.flush.steps)]
  }

  function AfterProgram(g: Geometry, l: Live): Live
    requires l.flush.Programming?
  {
    l.(flush := if l.flush.steps + 1 == g.Steps() then Idle else Programming(l.flush.steps + 1))
  }

  /** The steps that touch neither the flash nor the flash manager. */
  ghost function ApplyVolatile(g: Geometry, flash: Flash, l: Live, a: Action): Live
    requires Shaped(g, flash) && EnabledLive(g, flash, l, a)
    requires !(a.Snapshot? || a.EraseNext? || a.ProgramNext?)
  {
    match a
    case Enter(t, op) => l.(owner := Some(t), count := l.count + 1, call := Some(Call(op, Entered)))
    case Body => ApplyBody(g, l)
    case SetFlag => l.(needUpdate := true, call := Some(l.call.value.(stage := Finished)))
    case Leave => l.(owner := if l.count == 1 then None else l.owner, count := l.count - 1, call := None)
    case Poll => l.(flush := Polled)
    case TakeMutex => l.(owner := Some(FLUSHER), count := 1, flush := Locked)
    case ClearFlag => l.(needUpdate := false, flush := Cleared)
    case ReleaseMutex => l.(owner := None, count := 0, flush := Programming(0))
  }

  /** The body of a call. A rejected `Put` returns on the spot and keeps the mutex. */
  ghost function ApplyBody(g: Geometry, l: Live): Live
    requires l.call.Some? && WellFormed(l.buffer)
  {
    var op := l.call.value.op;
    match op
    case Put(e) =>
      if WriteOutcome(l.buffer, e, Capacity(g)) in {Updated, Appended}
      then l.(buffer := Written(l.buffer, e, Capacity(g)), call := Some(Call(op, Mutated)))
      else l.(call := None)
    case Remove(name) =>
      l.(buffer := Deleted(l.buffer, name),
         call := Some(Call(op, if Find(Entries(l.buffer), name).Some? then Mutated else Finished)))
    case Query => l.(call := Some(Call(op, Finished)))
  }

  /** Where a step leads, if it may be taken. */
  ghost function Step(g: Geometry, s: State, a: Action): Option<State> {
    if Typed(g, s) && Enabled(g, s, a) then Some(Apply(g, s, a)) else None
  }

  /** A path of the machine during which power does not fail. */
  ghost predicate LeadsOn(g: Geometry, s: State, states: seq<State>, actions: seq<Action>) {
    && |states| == |actions| + 1 && states[0] == s
    && forall n :: 0 <= n < |actions| ==>
         Step(g, states[n], actions[n]) == Some(states[n + 1]) && !actions[n].PowerCut?
  }

  lemma LeadsFurther(g: Geometry, s: State, states: seq<State>, actions: seq<Action>, a: Action, next: State)
    requires LeadsOn(g, s, states, actions) && Step(g, states[|actions|], a) == Some(next) && !a.PowerCut?
    ensures LeadsOn(g, s, states + [next], actions + [a])
  {
    var more, all := states + [next], actions + [a];
    forall n | 0 <= n < |all|
      ensures Step(g, more[n], all[n]) == Some(more[n + 1]) && !all[n].PowerCut?
    {
      if n < |actions| {
        assert Step(g, states[n], actions[n]) == Some(states[n + 1]);
      }
    }
  }

  // ---------- Invariant ----------

  /** The data of the block in flight. */
  ghost function InFlight(g: Geometry, cache: seq<Byte>): Bytes
    requires |cache| == 4 * g.blockWords
  {
    Payload(WordsOf(cache))
  }

  /** Its counter. */
  ghost function Stamp(g: Geometry, cache: seq<Byte>): Word
    requires |cache| == 4 * g.blockWords
  {
    CounterOf(WordsOf(cache))
  }

  /** The snapshot the flash holds or is about to hold. */
  ghost function Latest(g: Geometry, flash: Flash, l: Live): Bytes
    requires Shaped(g, flash) && |l.cache| == 4 * g.blockWords
  {
    if l.flush.Erasing? || l.flush.Programming? then InFlight(g, l.cache) else Recovered(g, flash)
  }

  ghost predicate Intact(g: Geometry, data: Bytes) {
    Sound(data) && |data| <= Capacity(g)
  }

  ghost predicate MutexInv(l: Live) {
    && (l.owner.None? <==> l.count == 0)
    && (l.call.Some? ==> l.owner.Some? && l.owner != Some(FLUSHER))
    && (l.owner == Some(FLUSHER) <==> l.flush.Locked? || l.flush.Cleared? || l.flush.Erasing?)
  }

  /** The block in the cache carries its stamp, its size and sound data. */
  ghost predicate CacheInv(g: Geometry, cache: seq<Byte>, store: Store, writes: nat)
    requires |cache| == 4 * g.blockWords
  {
    var image := WordsOf(cache);
    && Complete(image) && SizeOf(image) <= Capacity(g) && Intact(g, Payload(image))
    && CounterOf(image) <= writes
    && store.size == SizeOf(image) && store.counter == Increment(CounterOf(image))
  }

  ghost predicate FlushInv(g: Geometry, flash: Flash, l: Live, writes: nat)
    requires Shaped(g, flash) && |l.cache| == 4 * g.blockWords && l.store.current < |flash|
  {
    match l.flush
    case Erasing(plan, done) =>
      && CacheInv(g, l.cache, l.store, writes) && done <= |plan.erases| <= 1 && InFlight(g, l.cache) == l.buffer
      && Ready(g, EraseSectors(g, flash, plan.erases[done..]), l.store.current, Stamp(g, l.cache))
      && (done < |plan.erases| ==> NoneComplete(g, EraseSectors(g, flash, plan.erases)))
    case Programming(steps) =>
      && CacheInv(g, l.cache, l.store, writes) && steps < g.Steps()
      && Ready(g, flash[l.store.current := ErasedBlock(g.blockWords)], l.store.current, Stamp(g, l.cache))
      && flash[l.store.current] == Partial(ErasedBlock(g.blockWords), WordsOf(l.cache), 8 * steps)
    case _ => Settled(g, flash, l.store)
  }

  /** Whatever the flag says, an unsaved change is on its way. */
  ghost predicate NothingLost(g: Geometry, flash: Flash, l: Live)
    requires Shaped(g, flash) && |l.cache| == 4 * g.blockWords
  {
    || l.needUpdate || l.flush.Cleared? || (l.call.Some? && l.call.value.stage.Mutated?)
    || Latest(g, flash, l) == l.buffer
  }

  ghost predicate LiveInv(g: Geometry, flash: Flash, l: Live, writes: nat)
    requires Shaped(g, flash) && |l.cache| == 4 * g.blockWords && l.store.current < |flash|
  {
    && Intact(g, l.buffer) && MutexInv(l) && l.store.counter <= writes + 1
    && FlushInv(g, flash, l, writes) && NothingLost(g, flash, l)
  }

  ghost predicate FlashInv(g: Geometry, flash: Flash, writes: nat) {
    && Healthy(g, flash) && Intact(g, Recovered(g, flash))
    && forall i :: 0 <= i < |flash| && Complete(flash[i]) ==> CounterOf(flash[i]) <= writes
  }

  ghost predicate BootInv(g: Geometry, flash: Flash, erased: nat)
    requires Shaped(g, flash)
  {
    && erased <= g.sectors
    && forall i :: 0 <= i < |flash| && g.Sector(i) < erased ==> flash[i] == ErasedBlock(g.blockWords)
  }

  ghost predicate Good(g: Geometry, s: State)
    requires Typed(g, s)
  {
    && FlashInv(g, s.flash, s.writes)
    && (s.power.Booting? ==> NoneComplete(g, s.flash))
    && (s.power.Up? ==> LiveInv(g, s.flash, s.power.live, s.writes))
  }

  ghost predicate Inv(g: Geometry, s: State) {
    && Typed(g, s)
    && (s.power.Booting? ==> BootInv(g, s.flash, s.power.erased))
    && (!s.sentinel ==> Good(g, s))
    && (s.writes <= LAST_WRITE ==> !s.sentinel)
  }

  ghost predicate Initial(g: Geometry, s: State) {
    AllErased(g, s.flash) && s.power.Off? && s.writes == 0 && !s.sentinel
  }

  lemma InitialInv(g: Geometry, s: State)
    requires Initial(g, s)
    ensures Inv(g, s)
  {
    AllErasedIsHealthy(g, s.flash);
    NothingCompleteIsEmpty(g, s.flash);
  }
}
