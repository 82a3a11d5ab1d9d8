/** The invariant of the interleaving machine, step by step, and what follows from it in
    every reachable state. */
module Safety {
  import opened Words
  import opened BlockFormat
  import opened BlockLog
  import opened Recovery
  import opened RegistryBuffer
  import opened PersistentRegistry

  lemma PowerOnKeeps(g: Geometry, s: State, spare: seq<Byte>)
    requires Inv(g, s) && Enabled(g, s, PowerOn(spare))
    ensures Inv(g, Apply(g, s, PowerOn(spare)))
  {
    if Best(g, s.flash).Some? && !s.sentinel {
      var l := Apply(g, s, PowerOn(spare)).power.live;
      BootSettles(g, s.flash);
      assert LiveInv(g, s.flash, l, s.writes);
    }
  }

  lemma BootEraseKeeps(g: Geometry, s: State)
    requires Inv(g, s) && Enabled(g, s, BootErase)
    ensures Inv(g, Apply(g, s, BootErase))
  {
    var after := Apply(g, s, BootErase);
    if !s.sentinel {
      NothingCompleteIsEmpty(g, after.flash);
    }
  }

  lemma BootDoneKeeps(g: Geometry, s: State)
    requires Inv(g, s) && Enabled(g, s, BootDone)
    ensures Inv(g, Apply(g, s, BootDone))
  {
    var after := Apply(g, s, BootDone);
    forall i | 0 <= i < |s.flash|
      ensures s.flash[i] == ErasedBlock(g.blockWords)
    {
      SectorInRange(g, i);
    }
    AllErasedIsHealthy(g, s.flash);
    NothingCompleteIsEmpty(g, s.flash);
    assert LiveInv(g, s.flash, after.power.live, 0);
  }

  lemma PowerCutKeeps(g: Geometry, s: State)
    requires Inv(g, s)
    ensures Inv(g, Apply(g, s, PowerCut))
  {
  }

  /** What a good machine guarantees while it is up. */
  ghost predicate Running(g: Geometry, flash: Flash, l: Live, writes: nat) {
    && FlashInv(g, flash, writes) && |l.cache| == 4 * g.blockWords && l.store.current < |flash|
    && LiveInv(g, flash, l, writes)
  }

  /** Flash and flush in order, and the rest of the live state too. */
  lemma StillRuns(g: Geometry, flash: Flash, l: Live, writes: nat)
    requires FlashInv(g, flash, writes) && |l.cache| == 4 * g.blockWords && l.store.current < |flash|
    requires FlushInv(g, flash, l, writes) && l.store.counter <= writes + 1
    requires Intact(g, l.buffer) && MutexInv(l) && NothingLost(g, flash, l)
    ensures Running(g, flash, l, writes)
  {
  }

  lemma BodyRuns(g: Geometry, flash: Flash, l: Live, writes: nat)
    requires Running(g, flash, l, writes) && EnabledLive(g, flash, l, Body)
    ensures Running(g, flash, ApplyBody(g, l), writes)
  {
    BodyKeepsData(g, flash, l, writes);
    StillRuns(g, flash, ApplyBody(g, l), writes);
  }

  lemma BodyKeepsData(g: Geometry, flash: Flash, l: Live, writes: nat)
    requires Shaped(g, flash) && |l.cache| == 4 * g.blockWords && l.store.current < |flash|
    requires LiveInv(g, flash, l, writes) && EnabledLive(g, flash, l, Body)
    ensures var after := ApplyBody(g, l);
      && Intact(g, after.buffer) && NothingLost(g, flash, after)
      && after == l.(buffer := after.buffer, call := after.call) && (after.call.Some? ==> l.call.Some?)
  {
    BodyKeepsSound(g, l);
  }

  /** The steps of the calls and of the flush task that leave buffer and flash alone. */
  lemma BookkeepingRuns(g: Geometry, flash: Flash, l: Live, a: Action, writes: nat)
    requires Running(g, flash, l, writes) && EnabledLive(g, flash, l, a)
    requires a.Enter? || a.SetFlag? || a.Leave? || a.Poll? || a.TakeMutex? || a.ClearFlag?
    ensures Running(g, flash, ApplyVolatile(g, flash, l, a), writes)
  {
    var after := ApplyVolatile(g, flash, l, a);
    assert FlushInv(g, flash, after, writes);
    assert MutexInv(after) && NothingLost(g, flash, after);
    StillRuns(g, flash, after, writes);
  }

  /** Every step that touches neither the flash nor the flash manager. */
  lemma VolatileRuns(g: Geometry, flash: Flash, l: Live, a: Action, writes: nat)
    requires Running(g, flash, l, writes) && EnabledLive(g, flash, l, a)
    requires !(a.Snapshot? || a.EraseNext? || a.ProgramNext?)
    ensures Running(g, flash, ApplyVolatile(g, flash, l, a), writes)
  {
    match a
    case Body => BodyRuns(g, flash, l, writes);
    case ReleaseMutex => ReleaseRuns(g, flash, l, writes);
    case _ => BookkeepingRuns(g, flash, l, a, writes);
  }

  lemma ReleaseRuns(g: Geometry, flash: Flash, l: Live, writes: nat)
    requires Running(g, flash, l, writes) && EnabledLive(g, flash, l, ReleaseMutex)
    ensures Running(g, flash, ApplyVolatile(g, flash, l, ReleaseMutex), writes)
  {
    var after := l.(owner := None, count := 0, flush := Programming(0));
    ReleaseFlushes(g, flash, l, writes);
    assert MutexInv(after) && NothingLost(g, flash, after);
    StillRuns(g, flash, after, writes);
  }

  lemma BodyKeepsSound(g: Geometry, l: Live)
    requires Intact(g, l.buffer) && l.call.Some? && FitsCapacity(g, l.buffer, l.call.value.op)
    ensures Intact(g, ApplyBody(g, l).buffer)
    ensures !l.call.value.op.Query? && ApplyBody(g, l).buffer != l.buffer ==>
      ApplyBody(g, l).call.Some? && ApplyBody(g, l).call.value.stage.Mutated?
  {
    match l.call.value.op {
      case Put(e) => WriteRefinesUpdate(l.buffer, e, Capacity(g));
      case Remove(name) => DeleteRefinesRemoval(l.buffer, name);
      case Query =>
    }
  }

  lemma ReleaseFlushes(g: Geometry, flash: Flash, l: Live, writes: nat)
    requires Shaped(g, flash) && |l.cache| == 4 * g.blockWords && l.store.current < |flash|
    requires FlushInv(g, flash, l, writes) && l.flush.Erasing? && l.flush.done == |l.flush.plan.erases|
    ensures FlushInv(g, flash, l.(owner := None, count := 0, flush := Programming(0)), writes)
  {
    assert l.flush.plan.erases[l.flush.done..] == [];
    assert flash[l.store.current := ErasedBlock(g.blockWords)] == flash;
    assert Partial(ErasedBlock(g.blockWords), WordsOf(l.cache), 0) == ErasedBlock(g.blockWords);
  }

  lemma SnapshotCache(g: Geometry, l: Live, plan: Plan, writes: nat)
    requires |l.cache| == 4 * g.blockWords && Intact(g, l.buffer)
    requires plan.stamp <= writes && plan.stamp != UINT32_MAX
    ensures var after := AfterSnapshot(g, l, plan);
      && CacheInv(g, after.cache, after.store, writes) && InFlight(g, after.cache) == l.buffer
      && Stamp(g, after.cache) == plan.stamp
  {
    PlannedImageFields(g, l.cache, plan, l.buffer);
  }

  lemma SnapshotFlush(g: Geometry, flash: Flash, l: Live, writes: nat)
    requires Shaped(g, flash) && |l.cache| == 4 * g.blockWords && l.store.current < |flash|
    requires Settled(g, flash, l.store) && Intact(g, l.buffer)
    requires var plan := PlanWrite(g, flash, l.store); plan.stamp <= writes && plan.stamp != UINT32_MAX
    ensures FlushInv(g, flash, AfterSnapshot(g, l, PlanWrite(g, flash, l.store)), writes)
  {
    var plan := PlanWrite(g, flash, l.store);
    SnapshotCache(g, l, plan, writes);
    PlanIsSound(g, flash, l.store);
    ClearingTheLog(g, flash, l.store);
    assert plan.erases[0..] == plan.erases;
    if plan.erases != [] {
      AllErasedIsHealthy(g, EraseSectors(g, flash, plan.erases));
    }
  }

  lemma SnapshotRuns(g: Geometry, flash: Flash, l: Live, writes: nat)
    requires Running(g, flash, l, writes) && EnabledLive(g, flash, l, Snapshot)
    ensures PlanWrite(g, flash, l.store).stamp <= writes + 1
    ensures var plan := PlanWrite(g, flash, l.store);
      plan.stamp != UINT32_MAX ==> Running(g, flash, AfterSnapshot(g, l, plan), writes + 1)
  {
    var plan := PlanWrite(g, flash, l.store);
    assert plan.stamp <= writes + 1 by { StampIsNext(g, flash, l.store); }
    if plan.stamp != UINT32_MAX {
      var after := AfterSnapshot(g, l, plan);
      SnapshotFlush(g, flash, l, writes + 1);
      SnapshotCache(g, l, plan, writes + 1);
      assert NothingLost(g, flash, after) && MutexInv(after);
      assert FlashInv(g, flash, writes + 1);
      StillRuns(g, flash, after, writes + 1);
    }
  }

  lemma StampIsNext(g: Geometry, flash: Flash, store: Store)
    requires Settled(g, flash, store)
    ensures PlanWrite(g, flash, store).stamp <= store.counter || PlanWrite(g, flash, store).stamp == 1
  {
  }

  lemma EraseRuns(g: Geometry, flash: Flash, l: Live, writes: nat)
    requires Running(g, flash, l, writes) && EnabledLive(g, flash, l, EraseNext)
    ensures var after := EraseSector(g, flash, l.flush.plan.erases[l.flush.done]);
      && Running(g, after, AfterErase(l), writes) && Recovered(g, after) == []
  {
    var after := EraseSector(g, flash, l.flush.plan.erases[l.flush.done]);
    EraseFlushes(g, flash, l, writes);
    EmptyLog(g, after, writes);
    assert NothingLost(g, after, AfterErase(l));
    StillRuns(g, after, AfterErase(l), writes);
  }

  lemma EmptyLog(g: Geometry, flash: Flash, writes: nat)
    requires Healthy(g, flash) && NoneComplete(g, flash)
    ensures FlashInv(g, flash, writes) && Recovered(g, flash) == []
  {
    NothingCompleteIsEmpty(g, flash);
  }

  lemma EraseFlushes(g: Geometry, flash: Flash, l: Live, writes: nat)
    requires Shaped(g, flash) && |l.cache| == 4 * g.blockWords && l.store.current < |flash|
    requires FlushInv(g, flash, l, writes) && l.flush.Erasing? && l.flush.done < |l.flush.plan.erases|
    ensures var after := EraseSector(g, flash, l.flush.plan.erases[l.flush.done]);
      Healthy(g, after) && NoneComplete(g, after) && FlushInv(g, after, AfterErase(l), writes)
  {
    var erases := l.flush.plan.erases;
    assert erases[..|erases| - 1] == [] && erases[0..] == erases && erases[1..] == [];
    assert EraseSectors(g, flash, erases) == EraseSector(g, flash, erases[0]);
  }

  /** One more flash word moves a partly programmed block on by one step. */
  lemma PartialStep(block: Block, image: Block, step: nat)
    requires |block| == |image|
    ensures ProgramWord(Partial(block, image, 8 * step), image, step) == Partial(block, image, 8 * (step + 1))
  {
  }

  /** A log that was ready for a block, with the first flash words of that block in. */
  ghost predicate InProgress(g: Geometry, flash: Flash, ready: Flash, target: nat, image: Block, steps: nat) {
    && |image| == g.blockWords && steps <= g.Steps() && Complete(image) && SizeOf(image) <= Capacity(g)
    && Ready(g, ready, target, CounterOf(image))
    && flash == ready[target := Partial(ErasedBlock(g.blockWords), image, 8 * steps)]
  }

  /** What the block in flight does to a log that is ready for it. */
  lemma FlightProgress(g: Geometry, flash: Flash, ready: Flash, target: nat, image: Block, steps: nat)
    requires InProgress(g, flash, ready, target, image, steps)
    ensures Healthy(g, flash)
    ensures steps < g.Steps() ==>
      Best(g, flash) == Best(g, ready) && Recovered(g, flash) == Recovered(g, ready) && !Complete(flash[target])
    ensures steps == g.Steps() ==> Best(g, flash) == Some(target) && flash[target] == image
  {
    if steps == g.Steps() {
      WholeBlockWins(g, ready, target, image);
    } else {
      TornBlockIsIgnored(g, ready, target, image, steps);
    }
  }

  /** The block before one more flash word, and after it. */
  lemma FlightStart(g: Geometry, flash: Flash, l: Live, writes: nat) returns (ready: Flash)
    requires Shaped(g, flash) && |l.cache| == 4 * g.blockWords && l.store.current < |flash|
    requires FlushInv(g, flash, l, writes) && l.flush.Programming?
    ensures ready == flash[l.store.current := ErasedBlock(g.blockWords)]
    ensures InProgress(g, flash, ready, l.store.current, WordsOf(l.cache), l.flush.steps)
    ensures l.flush.steps < g.Steps()
  {
    ready := flash[l.store.current := ErasedBlock(g.blockWords)];
    Restored(flash, l.store.current, ErasedBlock(g.blockWords));
  }

  lemma Restored(flash: Flash, target: nat, block: Block)
    requires target < |flash|
    ensures flash[target := block][target := flash[target]] == flash
  {
  }

  lemma FlightStep(g: Geometry, flash: Flash, ready: Flash, l: Live)
    requires |l.cache| == 4 * g.blockWords && l.flush.Programming? && l.flush.steps < g.Steps()
    requires InProgress(g, flash, ready, l.store.current, WordsOf(l.cache), l.flush.steps)
    ensures InProgress(g, ProgramFlash(g, flash, l), ready, l.store.current, WordsOf(l.cache), l.flush.steps + 1)
  {
    PartialStep(ErasedBlock(g.blockWords), WordsOf(l.cache), l.flush.steps);
  }

  lemma ProgramFlushes(g: Geometry, flash: Flash, l: Live, writes: nat)
    requires Shaped(g, flash) && |l.cache| == 4 * g.blockWords && l.store.current < |flash|
    requires FlushInv(g, flash, l, writes) && l.flush.Programming?
    ensures var after := ProgramFlash(g, flash, l);
      && FlushInv(g, after, AfterProgram(g, l), writes)
      && Recovered(g, after) == (if l.flush.steps + 1 == g.Steps() then InFlight(g, l.cache) else Recovered(g, flash))
  {
    var after := ProgramFlash(g, flash, l);
    var ready := FlightStart(g, flash, l, writes);
    FlightStep(g, flash, ready, l);
    if l.flush.steps + 1 == g.Steps() {
      FlightLands(g, after, ready, l, writes);
    } else {
      FlightProgress(g, flash, ready, l.store.current, WordsOf(l.cache), l.flush.steps);
      FlightContinues(g, after, ready, l, writes, l.flush.steps + 1);
    }
  }

  lemma FlightContinues(g: Geometry, flash: Flash, ready: Flash, l: Live, writes: nat, steps: nat)
    requires |l.cache| == 4 * g.blockWords && CacheInv(g, l.cache, l.store, writes) && steps < g.Steps()
    requires InProgress(g, flash, ready, l.store.current, WordsOf(l.cache), steps)
    requires |ready| == g.blocks && ready[l.store.current] == ErasedBlock(g.blockWords)
    ensures FlushInv(g, flash, l.(flush := Programming(steps)), writes) && Recovered(g, flash) == Recovered(g, ready)
  {
    assert flash[l.store.current := ErasedBlock(g.blockWords)] == ready;
    FlightProgress(g, flash, ready, l.store.current, WordsOf(l.cache), steps);
  }

  /** With its last flash word in, the block is the one the fields describe. */
  lemma FlightLands(g: Geometry, flash: Flash, ready: Flash, l: Live, writes: nat)
    requires |l.cache| == 4 * g.blockWords && CacheInv(g, l.cache, l.store, writes)
    requires InProgress(g, flash, ready, l.store.current, WordsOf(l.cache), g.Steps())
    ensures FlushInv(g, flash, l.(flush := Idle), writes) && Recovered(g, flash) == InFlight(g, l.cache)
  {
    WholeBlockWins(g, ready, l.store.current, WordsOf(l.cache));
  }

  lemma ProgramRuns(g: Geometry, flash: Flash, l: Live, writes: nat)
    requires Running(g, flash, l, writes) && EnabledLive(g, flash, l, ProgramNext)
    ensures var after := ProgramFlash(g, flash, l);
      && Running(g, after, AfterProgram(g, l), writes)
      && Recovered(g, after) == (if l.flush.steps + 1 == g.Steps() then InFlight(g, l.cache) else Recovered(g, flash))
  {
    var after := ProgramFlash(g, flash, l);
    ProgramFlushes(g, flash, l, writes);
    ProgramKeepsFlash(g, flash, l, writes);
    ProgramLosesNothing(g, flash, after, l);
    StillRuns(g, after, AfterProgram(g, l), writes);
  }

  lemma ProgramLosesNothing(g: Geometry, flash: Flash, after: Flash, l: Live)
    requires Shaped(g, flash) && Shaped(g, after) && |l.cache| == 4 * g.blockWords && l.flush.Programming?
    requires NothingLost(g, flash, l) && MutexInv(l)
    requires l.flush.steps + 1 == g.Steps() ==> Recovered(g, after) == InFlight(g, l.cache)
    ensures NothingLost(g, after, AfterProgram(g, l)) && MutexInv(AfterProgram(g, l))
  {
  }

  lemma ProgramKeepsFlash(g: Geometry, flash: Flash, l: Live, writes: nat)
    requires FlashInv(g, flash, writes) && |l.cache| == 4 * g.blockWords && l.store.current < |flash|
    requires FlushInv(g, flash, l, writes) && l.flush.Programming?
    requires Intact(g, Recovered(g, ProgramFlash(g, flash, l)))
    ensures FlashInv(g, ProgramFlash(g, flash, l), writes)
  {
    var ready := FlightStart(g, flash, l, writes);
    FlightStep(g, flash, ready, l);
    FlightProgress(g, ProgramFlash(g, flash, l), ready, l.store.current, WordsOf(l.cache), l.flush.steps + 1);
  }

  /** A step of a running machine that keeps it running keeps the invariant. */
  lemma RunningKeeps(g: Geometry, before: State, after: State)
    requires Inv(g, before) && before.power.Up? && after.power.Up? && Typed(g, after)
    requires after.writes == before.writes || after.writes == before.writes + 1
    requires before.sentinel ==> after.sentinel
    requires !after.sentinel ==> Running(g, after.flash, after.power.live, after.writes)
    requires after.writes <= LAST_WRITE ==> !after.sentinel
    ensures Inv(g, after)
  {
  }

  lemma GoodRuns(g: Geometry, s: State)
    requires Inv(g, s) && !s.sentinel && s.power.Up?
    ensures Running(g, s.flash, s.power.live, s.writes)
  {
  }

  lemma SnapshotKeeps(g: Geometry, s: State)
    requires Inv(g, s) && Enabled(g, s, Snapshot)
    ensures Inv(g, Apply(g, s, Snapshot))
  {
    if !s.sentinel {
      GoodRuns(g, s);
      SnapshotRuns(g, s.flash, s.power.live, s.writes);
    }
    RunningKeeps(g, s, Apply(g, s, Snapshot));
  }

  lemma FlashStepKeeps(g: Geometry, s: State, a: Action)
    requires Inv(g, s) && Enabled(g, s, a) && (a.EraseNext? || a.ProgramNext?)
    ensures Inv(g, Apply(g, s, a))
  {
    if !s.sentinel {
      GoodRuns(g, s);
      if a.EraseNext? {
        EraseRuns(g, s.flash, s.power.live, s.writes);
      } else {
        ProgramRuns(g, s.flash, s.power.live, s.writes);
      }
    }
    RunningKeeps(g, s, Apply(g, s, a));
  }

  lemma VolatileStepKeeps(g: Geometry, s: State, a: Action)
    requires Inv(g, s) && s.power.Up? && Enabled(g, s, a)
    requires !(a.PowerCut? || a.Snapshot? || a.EraseNext? || a.ProgramNext?)
    ensures Inv(g, Apply(g, s, a))
  {
    if !s.sentinel {
      GoodRuns(g, s);
      VolatileRuns(g, s.flash, s.power.live, a, s.writes);
    }
    RunningKeeps(g, s, Apply(g, s, a));
  }

  lemma PowerStepKeeps(g: Geometry, s: State, a: Action)
    requires Inv(g, s) && Enabled(g, s, a) && (a.PowerCut? || !s.power.Up?)
    ensures Inv(g, Apply(g, s, a))
  {
    match a
    case PowerCut => PowerCutKeeps(g, s);
    case PowerOn(spare) => PowerOnKeeps(g, s, spare);
    case BootErase => BootEraseKeeps(g, s);
    case BootDone => BootDoneKeeps(g, s);
  }

  /** Every step keeps the invariant. */
  lemma StepKeeps(g: Geometry, s: State, a: Action)
    requires Inv(g, s) && Enabled(g, s, a)
    ensures Inv(g, Apply(g, s, a))
  {
    if a.PowerCut? || !s.power.Up? {
      PowerStepKeeps(g, s, a);
    } else if a.Snapshot? {
      SnapshotKeeps(g, s);
    } else if a.EraseNext? || a.ProgramNext? {
      FlashStepKeeps(g, s, a);
    } else {
      VolatileStepKeeps(g, s, a);
    }
  }
}
