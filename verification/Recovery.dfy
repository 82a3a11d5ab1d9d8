/** Crash recovery of the block log: what every flash operation of a write keeps, and
    what a reboot reads back after any of them. */
module Recovery {
  import opened Words
  import opened BlockFormat
  import opened BlockLog
  import opened Arithmetic

  lemma NothingCompleteIsEmpty(g: Geometry, flash: Flash)
    requires Shaped(g, flash) && NoneComplete(g, flash)
    ensures Best(g, flash) == None && Recovered(g, flash) == []
  {
  }

  lemma AllErasedIsHealthy(g: Geometry, flash: Flash)
    requires AllErased(g, flash)
    ensures Healthy(g, flash) && NoneComplete(g, flash)
  {
    forall i | 0 <= i < |flash|
      ensures Formatted(g, flash[i]) && !Complete(flash[i])
    {
    }
    NothingCompleteIsEmpty(g, flash);
  }

  lemma SectorOfFirst(g: Geometry)
    ensures g.Sector(0) == 0
  {
  }

  lemma SectorOfLast(g: Geometry)
    ensures g.Sector(g.blocks - 1) == g.sectors - 1
  {
    var last := g.blocks - 1;
    SectorInRange(g, last);
    assert last == g.perSector * (g.sectors - 1) + (g.perSector - 1);
    SectorFrom(g, g.sectors - 1, last);
  }

  lemma SectorFrom(g: Geometry, sector: nat, block: nat)
    requires g.perSector * sector <= block
    ensures sector <= g.Sector(block)
  {
    var s := g.Sector(block);
    assert block == g.perSector * s + block % g.perSector;
    if s < sector {
      ProductMonotone(s + 1, sector, g.perSector);
    }
  }

  /** With two or more sectors, some block lies outside the current block's sector. */
  lemma AnotherSector(g: Geometry, block: nat) returns (other: nat)
    requires 2 <= g.sectors && block < g.blocks
    ensures other < g.blocks && g.Sector(other) != g.Sector(block)
    ensures other == 0 || (other == g.blocks - 1 && g.Sector(block) == 0)
  {
    SectorOfFirst(g);
    SectorOfLast(g);
    other := if g.Sector(block) == 0 then g.blocks - 1 else 0;
  }

  lemma FoundIsFree(g: Geometry, flash: Flash, from: nat)
    requires Shaped(g, flash) && from < |flash| && FindGood(g, flash, from).Some?
    ensures FindGood(g, flash, from).value < |flash| && HeaderErased(flash[FindGood(g, flash, from).value])
  {
    FindGoodMeaning(g, flash, from);
  }

  lemma SkippedIsUsed(g: Geometry, flash: Flash, from: nat, i: nat)
    requires Shaped(g, flash) && from < |flash| && i < |flash| && FindGood(g, flash, from).Some?
    requires FindGood(g, flash, from).value < |flash|
    requires RingDistance(g, from, i) < RingDistance(g, from, FindGood(g, flash, from).value)
    ensures !HeaderErased(flash[i])
  {
    FindGoodMeaning(g, flash, from);
  }

  /** With two or more sectors the walk never fails, so the restart in `Write` is dead. */
  lemma FindGoodSucceeds(g: Geometry, flash: Flash, current: nat)
    requires Contained(g, flash, current) && 2 <= g.sectors
    ensures FindGood(g, flash, current).Some?
  {
    var other := AnotherSector(g, current);
    FindGoodMeaning(g, flash, current);
    assert HeaderErased(flash[other]);
  }

  /** The restart in `Write` is taken exactly when there is one sector and all its blocks
      are in use. */
  lemma RestartedIff(g: Geometry, flash: Flash, store: Store)
    requires Contained(g, flash, store.current)
    ensures PlanWrite(g, flash, store).restarted <==>
      g.sectors == 1 && forall i :: 0 <= i < |flash| ==> !HeaderErased(flash[i])
  {
    FindGoodMeaning(g, flash, store.current);
    if 2 <= g.sectors {
      FindGoodSucceeds(g, flash, store.current);
    }
  }

  /** With two or more sectors, the block found has a larger index than the current one
      unless it lies in another sector. */
  lemma FoundBehind(g: Geometry, flash: Flash, current: nat)
    requires Contained(g, flash, current) && 2 <= g.sectors && FindGood(g, flash, current).Some?
    ensures var t := FindGood(g, flash, current).value;
      g.Sector(t) == g.Sector(current) ==> current < t
  {
    FoundIsFree(g, flash, current);
    var other := AnotherSector(g, current);
    var t := FindGood(g, flash, current).value;
    if t <= current && g.Sector(t) == g.Sector(current) {
      SkippedIsUsed(g, flash, current, other);
      assert false;
    }
  }

  /** With one sector, it is the very next one in the order of use that is not taken. */
  lemma FoundNext(g: Geometry, flash: Flash, store: Store)
    requires Settled(g, flash, store) && g.sectors == 1 && FindGood(g, flash, store.current).Some?
    ensures var t := FindGood(g, flash, store.current).value;
      && (Best(g, flash).Some? ==> Position(g, store.current) < Position(g, t)) && Filled(g, flash, t)
  {
    FindGoodMeaning(g, flash, store.current);
    var t := FindGood(g, flash, store.current).value;
    if Best(g, flash).None? {
      assert RingDistance(g, 0, 1) == 1 && HeaderErased(flash[1]);
    } else {
      PassesNoneOver(g, flash, store.current, t);
    }
  }

  lemma PassesNoneOver(g: Geometry, flash: Flash, current: nat, t: nat)
    requires Shaped(g, flash) && g.sectors == 1 && current < |flash| && FindGood(g, flash, current) == Some(t)
    requires Filled(g, flash, current) && !HeaderErased(flash[current])
    ensures t < |flash| && Position(g, current) < Position(g, t) && Filled(g, flash, t)
  {
    FoundIsFree(g, flash, current);
    forall i | 0 <= i < |flash| && Position(g, i) < Position(g, t)
      ensures !HeaderErased(flash[i])
    {
      if Position(g, current) < Position(g, i) {
        SkippedIsUsed(g, flash, current, i);
      }
    }
  }

  /** Once there is data, the block found comes after the current one in the order of use
      unless it lies in another sector; none is passed over if there is only one sector. */
  lemma FoundAfterCurrent(g: Geometry, flash: Flash, store: Store)
    requires Settled(g, flash, store) && !PlanWrite(g, flash, store).restarted
    ensures var t := PlanWrite(g, flash, store).target;
      g.Sector(t) == g.Sector(store.current) ==>
        (Best(g, flash).Some? ==> Position(g, store.current) < Position(g, t)) && Filled(g, flash, t)
  {
    if g.sectors == 1 {
      FoundNext(g, flash, store);
    } else {
      FoundBehind(g, flash, store.current);
    }
  }

  lemma SectorMonotone(g: Geometry, i: nat, j: nat)
    requires i <= j
    ensures g.Sector(i) <= g.Sector(j)
  {
    assert i == g.perSector * g.Sector(i) + i % g.perSector;
    SectorFrom(g, g.Sector(i), j);
  }

  /** When a write erases, and so when a power cut before its last flash word loses the old
      data, read off the flash: exactly when no block is free behind the current one in its
      sector. */
  lemma EraseIff(g: Geometry, flash: Flash, store: Store)
    requires Contained(g, flash, store.current) && 2 <= g.sectors
    ensures PlanWrite(g, flash, store).erases != [] <==>
      forall i :: store.current < i < |flash| && g.Sector(i) == g.Sector(store.current) ==> !HeaderErased(flash[i])
  {
    FindGoodSucceeds(g, flash, store.current);
    FoundBehind(g, flash, store.current);
    var t := FindGood(g, flash, store.current).value;
    forall i | store.current < i < |flash| && g.Sector(i) == g.Sector(store.current) && HeaderErased(flash[i])
      ensures g.Sector(t) == g.Sector(store.current)
    {
      FoundFirst(g, flash, store.current, i);
      SectorMonotone(g, store.current, t);
      SectorMonotone(g, t, i);
    }
    FindGoodMeaning(g, flash, store.current);
  }

  /** A free block behind the current one is not passed over. */
  lemma FoundFirst(g: Geometry, flash: Flash, current: nat, i: nat)
    requires Shaped(g, flash) && current < i < |flash| && HeaderErased(flash[i])
    ensures FindGood(g, flash, current).Some? && current < FindGood(g, flash, current).value <= i
  {
    FindGoodMeaning(g, flash, current);
    var t := FindGood(g, flash, current).value;
    assert RingDistance(g, current, t) <= RingDistance(g, current, i);
  }

  /** Where a write goes, whatever the counters are: to a block that is erased as a whole
      once the plan's erases are done. Either nothing is erased and the new block shares the
      sector of the current one, or nothing is left. */
  lemma PlanFindsErased(g: Geometry, flash: Flash, store: Store)
    requires Contained(g, flash, store.current)
    ensures var plan := PlanWrite(g, flash, store);
      var erased := EraseSectors(g, flash, plan.erases);
      && erased[plan.target] == ErasedBlock(g.blockWords) && |plan.erases| <= 1
      && (plan.erases == [] ==>
           && erased == flash && plan.stamp == store.counter && !plan.restarted
           && g.Sector(plan.target) == g.Sector(store.current))
      && (plan.erases != [] ==> AllErased(g, erased))
  {
    var plan := PlanWrite(g, flash, store);
    if plan.restarted {
      RestartedPlan(g, flash, store);
    } else {
      FoundPlan(g, flash, store);
    }
  }

  lemma RestartedPlan(g: Geometry, flash: Flash, store: Store)
    requires Contained(g, flash, store.current) && PlanWrite(g, flash, store).restarted
    ensures PlanWrite(g, flash, store) == Plan(1, 1, true, [0])
    ensures AllErased(g, EraseSectors(g, flash, [0]))
  {
    if 2 <= g.sectors {
      FindGoodSucceeds(g, flash, store.current);
    }
    SectorInRange(g, 0);
    SectorInRange(g, 1);
    RestartErasesAll(g, flash);
    assert PlanWrite(g, flash, store).erases == AllSectors(g) == [0];
  }

  lemma FoundPlan(g: Geometry, flash: Flash, store: Store)
    requires Contained(g, flash, store.current) && !PlanWrite(g, flash, store).restarted
    ensures var plan := PlanWrite(g, flash, store);
      && HeaderErased(flash[plan.target]) && |plan.erases| <= 1 && plan.stamp == store.counter
      && (plan.erases == [] ==> g.Sector(plan.target) == g.Sector(store.current))
      && (plan.erases != [] ==> AllErased(g, EraseSectors(g, flash, plan.erases)))
  {
    var plan := PlanWrite(g, flash, store);
    FindGoodMeaning(g, flash, store.current);
    if plan.erases != [] {
      EraseSectorsMeaning(g, flash, plan.erases);
    }
  }

  /** In a settled log, a write either keeps the current data or leaves an erased log. */
  lemma PlanIsSound(g: Geometry, flash: Flash, store: Store)
    requires Settled(g, flash, store)
    ensures var plan := PlanWrite(g, flash, store);
      var erased := EraseSectors(g, flash, plan.erases);
      && Healthy(g, erased)
      && erased[plan.target] == ErasedBlock(g.blockWords)
      && |plan.erases| <= 1
      && (plan.erases == [] ==>
           && erased == flash && plan.stamp == store.counter
           && (Best(g, flash).Some? ==>
                g.Sector(plan.target) == g.Sector(Best(g, flash).value)))
      && (plan.erases != [] ==> AllErased(g, erased))
  {
    var plan := PlanWrite(g, flash, store);
    PlanFindsErased(g, flash, store);
    if plan.erases != [] {
      AllErasedIsHealthy(g, EraseSectors(g, flash, plan.erases));
    }
  }

  /** Where a block may be programmed: it is erased as a whole, and it does not leave the
      sector that holds the data. */
  ghost predicate Programmable(g: Geometry, flash: Flash, target: nat) {
    && Healthy(g, flash) && target < |flash| && flash[target] == ErasedBlock(g.blockWords)
    && (Best(g, flash).Some? ==> g.Sector(target) == g.Sector(Best(g, flash).value))
    && (Best(g, flash).None? ==> AllErased(g, flash))
  }

  /** A block stamped with this counter, programmed there, would be the newest, and the next
      in the order of use. */
  ghost predicate Ready(g: Geometry, flash: Flash, target: nat, stamp: Word) {
    && Programmable(g, flash, target) && Filled(g, flash, target)
    && (Best(g, flash).Some? ==>
         && Position(g, Best(g, flash).value) < Position(g, target)
         && CounterOf(flash[Best(g, flash).value]) < stamp)
  }

  /** A block without a counter changes nothing that boot looks at. */
  lemma IncompleteBlockIsIgnored(g: Geometry, flash: Flash, target: nat, block: Block)
    requires Programmable(g, flash, target)
    requires |block| == g.blockWords && !Complete(block) && Formatted(g, block)
    ensures var after := flash[target := block];
      && Healthy(g, after) && Best(g, after) == Best(g, flash) && Recovered(g, after) == Recovered(g, flash)
  {
    var after := flash[target := block];
    ScanUnaffected(g, flash, after, |flash|);
    if Best(g, flash).Some? {
      NewestKept(g, flash, target, block, Best(g, flash).value);
    }
  }

  lemma NewestKept(g: Geometry, flash: Flash, target: nat, block: Block, newest: nat)
    requires Shaped(g, flash) && target < |flash| && newest < |flash| && !Complete(flash[target])
    requires |block| == g.blockWords && !Complete(block)
    requires HeaderErased(flash[target]) && g.Sector(target) == g.Sector(newest)
    requires Newest(g, flash, newest) && OthersErased(g, flash, newest)
    requires Ascending(g, flash) && Filled(g, flash, newest)
    ensures var after := flash[target := block];
      Newest(g, after, newest) && OthersErased(g, after, newest) && Ascending(g, after) && Filled(g, after, newest)
  {
    OrderKept(g, flash, flash[target := block]);
  }

  /** Fewer complete blocks are still in order. */
  lemma OrderKept(g: Geometry, flash: Flash, after: Flash)
    requires Shaped(g, flash) && Shaped(g, after)
    requires forall i :: 0 <= i < |after| ==> after[i] == flash[i] || !Complete(after[i])
    ensures Ascending(g, flash) ==> Ascending(g, after)
  {
  }

  /** A complete block with a counter above all others becomes the one boot selects. */
  lemma CompleteBlockWins(g: Geometry, flash: Flash, target: nat, block: Block)
    requires |block| == g.blockWords && Complete(block) && SizeOf(block) <= MaxPayload(g.blockWords)
    requires Ready(g, flash, target, CounterOf(block))
    ensures var after := flash[target := block];
      && Healthy(g, after) && Best(g, after) == Some(target) && Recovered(g, after) == Payload(block)
  {
    var after := flash[target := block];
    assert Newest(g, after, target);
    NewestIsBest(g, after, target);
    OrderExtended(g, flash, target, block);
  }

  lemma OrderExtended(g: Geometry, flash: Flash, target: nat, block: Block)
    requires |block| == g.blockWords && Complete(block) && Ready(g, flash, target, CounterOf(block))
    ensures Ascending(g, flash[target := block]) && Filled(g, flash[target := block], target)
  {
  }

  /** Once its erases are done, a planned write has a place to go. */
  lemma ClearingTheLog(g: Geometry, flash: Flash, store: Store)
    requires Settled(g, flash, store)
    ensures var plan := PlanWrite(g, flash, store);
      var erased := EraseSectors(g, flash, plan.erases);
      && Ready(g, erased, plan.target, plan.stamp)
      && Recovered(g, erased) == (if plan.erases == [] then Recovered(g, flash) else [])
  {
    var plan := PlanWrite(g, flash, store);
    PlanIsSound(g, flash, store);
    if plan.erases == [] {
      PlanFindsErased(g, flash, store);
      FoundAfterCurrent(g, flash, store);
    } else {
      AllErasedIsHealthy(g, EraseSectors(g, flash, plan.erases));
      if g.sectors == 1 {
        FirstInUse(g, flash, store);
      }
    }
  }

  /** A write that erases with a single sector goes to the block that is used first. */
  lemma FirstInUse(g: Geometry, flash: Flash, store: Store)
    requires Contained(g, flash, store.current) && PlanWrite(g, flash, store).erases != [] && g.sectors == 1
    ensures PlanWrite(g, flash, store).target == 1
  {
    if !PlanWrite(g, flash, store).restarted {
      SectorInRange(g, store.current);
      SectorInRange(g, PlanWrite(g, flash, store).target);
    }
  }

  /** The image a plan programs carries its stamp, its size and its data. */
  lemma PlannedImageFields(g: Geometry, cache: seq<Byte>, plan: Plan, data: seq<Byte>)
    requires |cache| == 4 * g.blockWords && |data| <= MaxPayload(g.blockWords)
    ensures var image := PlannedImage(g, cache, plan, data);
      && |image| == g.blockWords && HasMagic(image) && SizeOf(image) == |data| && CounterOf(image) == plan.stamp
      && Payload(image) == data
  {
    if plan.restarted {
      CacheImageFields(CacheImage(cache, [], 0), data, plan.stamp);
    } else {
      CacheImageFields(cache, data, plan.stamp);
    }
  }

  /** A block of which not all flash words are in changes nothing that boot looks at. */
  lemma TornBlockIsIgnored(g: Geometry, ready: Flash, target: nat, image: Block, steps: nat)
    requires Programmable(g, ready, target) && |image| == g.blockWords && HasMagic(image) && steps < g.Steps()
    ensures var block := Partial(ready[target], image, 8 * steps);
      var after := ready[target := block];
      && Healthy(g, after) && Best(g, after) == Best(g, ready) && Recovered(g, after) == Recovered(g, ready)
      && !Complete(block)
  {
    TornWriteShape(image, steps);
    IncompleteBlockIsIgnored(g, ready, target, Partial(ready[target], image, 8 * steps));
  }

  /** With its last flash word in, the block is the one that boot selects. */
  lemma WholeBlockWins(g: Geometry, ready: Flash, target: nat, image: Block)
    requires |image| == g.blockWords && Complete(image) && SizeOf(image) <= MaxPayload(g.blockWords)
    requires Ready(g, ready, target, CounterOf(image))
    ensures var block := Partial(ready[target], image, 8 * g.Steps());
      var after := ready[target := block];
      && block == image && Best(g, after) == Some(target) && Recovered(g, after) == Payload(image)
      && Settled(g, after, Store(target, Increment(CounterOf(image)), SizeOf(image)))
  {
    TornWriteShape(image, g.Steps());
    CompleteBlockWins(g, ready, target, image);
  }

  lemma TornWrite(g: Geometry, flash: Flash, store: Store, cache: seq<Byte>, data: seq<Byte>, steps: nat)
    requires Settled(g, flash, store) && steps < g.Steps()
    requires |cache| == 4 * g.blockWords && |data| <= MaxPayload(g.blockWords)
    ensures var plan := PlanWrite(g, flash, store);
      var after := AfterSteps(g, flash, plan, PlannedImage(g, cache, plan, data), steps);
      Healthy(g, after) && Recovered(g, after) == (if plan.erases == [] then Recovered(g, flash) else [])
  {
    var plan := PlanWrite(g, flash, store);
    ClearingTheLog(g, flash, store);
    PlannedImageFields(g, cache, plan, data);
    TornBlockIsIgnored(g, EraseSectors(g, flash, plan.erases), plan.target, PlannedImage(g, cache, plan, data), steps);
  }

  lemma CompletedWrite(g: Geometry, flash: Flash, store: Store, cache: seq<Byte>, data: seq<Byte>)
    requires Settled(g, flash, store) && PlanWrite(g, flash, store).stamp != UINT32_MAX
    requires |cache| == 4 * g.blockWords && |data| <= MaxPayload(g.blockWords)
    ensures var plan := PlanWrite(g, flash, store);
      var after := AfterSteps(g, flash, plan, PlannedImage(g, cache, plan, data), g.Steps());
      && Recovered(g, after) == data
      && Settled(g, after, Store(plan.target, Increment(plan.stamp), |data|))
  {
    var plan := PlanWrite(g, flash, store);
    ClearingTheLog(g, flash, store);
    PlannedImageFields(g, cache, plan, data);
    WholeBlockWins(g, EraseSectors(g, flash, plan.erases), plan.target, PlannedImage(g, cache, plan, data));
  }

  /** Crash atomicity. A power cut after the erases of a write and any number of its flash
      words leaves a healthy log that boots to the new data if all flash words are in, and
      otherwise to the old data, or to nothing if the write had to erase. Once all are in,
      the fields the write has set are those a reboot would compute. */
  lemma CrashAtomicity(g: Geometry, flash: Flash, store: Store, cache: seq<Byte>, data: seq<Byte>, steps: nat)
    requires Settled(g, flash, store) && steps <= g.Steps()
    requires |cache| == 4 * g.blockWords && |data| <= MaxPayload(g.blockWords)
    requires PlanWrite(g, flash, store).stamp != UINT32_MAX
    ensures var plan := PlanWrite(g, flash, store);
      var after := AfterSteps(g, flash, plan, PlannedImage(g, cache, plan, data), steps);
      && Healthy(g, after)
      && Recovered(g, after) ==
           (if steps == g.Steps() then data else if plan.erases == [] then Recovered(g, flash) else [])
      && (steps == g.Steps() ==> Settled(g, after, Store(plan.target, Increment(plan.stamp), |data|)))
  {
    if steps == g.Steps() {
      CompletedWrite(g, flash, store, cache, data);
    } else {
      TornWrite(g, flash, store, cache, data, steps);
    }
  }

  /** The block of a write that is stamped with the sentinel counts as torn. */
  lemma SentinelWriteIsLost(g: Geometry, flash: Flash, store: Store, cache: seq<Byte>, data: seq<Byte>)
    requires Settled(g, flash, store) && PlanWrite(g, flash, store).stamp == UINT32_MAX
    requires |cache| == 4 * g.blockWords && |data| <= MaxPayload(g.blockWords)
    ensures var plan := PlanWrite(g, flash, store);
      Recovered(g, AfterSteps(g, flash, plan, PlannedImage(g, cache, plan, data), g.Steps()))
      == Recovered(g, EraseSectors(g, flash, plan.erases))
  {
    var plan := PlanWrite(g, flash, store);
    var image := PlannedImage(g, cache, plan, data);
    ClearingTheLog(g, flash, store);
    PlannedImageFields(g, cache, plan, data);
    TornWriteShape(image, g.Steps());
    IncompleteBlockIsIgnored(g, EraseSectors(g, flash, plan.erases), plan.target, image);
  }

  /** A write of this data, once programmed, is what a reboot finds. */
  ghost predicate Survives(g: Geometry, flash: Flash, store: Store, cache: seq<Byte>, data: seq<Byte>)
    requires Shaped(g, flash) && store.current < |flash|
    requires |cache| == 4 * g.blockWords && |data| <= MaxPayload(g.blockWords)
  {
    var plan := PlanWrite(g, flash, store);
    Recovered(g, AfterSteps(g, flash, plan, PlannedImage(g, cache, plan, data), g.Steps())) == data
  }

  lemma SomethingIsLost(g: Geometry, flash: Flash, store: Store, cache: seq<Byte>) returns (data: seq<Byte>)
    requires Settled(g, flash, store) && PlanWrite(g, flash, store).stamp == UINT32_MAX
    requires |cache| == 4 * g.blockWords
    ensures |data| <= MaxPayload(g.blockWords) && !Survives(g, flash, store, cache, data)
  {
    var erased := EraseSectors(g, flash, PlanWrite(g, flash, store).erases);
    data := if Recovered(g, erased) == [0] then [1] else [0];
    SentinelWriteIsLost(g, flash, store, cache, data);
  }

  /** The counter bound is exact: a write survives a reboot, whatever its data, if and only
      if its counter is not the one that marks an incomplete block. */
  lemma WriteSurvivesIff(g: Geometry, flash: Flash, store: Store, cache: seq<Byte>)
    requires Settled(g, flash, store) && |cache| == 4 * g.blockWords
    ensures PlanWrite(g, flash, store).stamp != UINT32_MAX <==>
      forall data: seq<Byte> :: |data| <= MaxPayload(g.blockWords) ==> Survives(g, flash, store, cache, data)
  {
    if PlanWrite(g, flash, store).stamp != UINT32_MAX {
      forall data: seq<Byte> | |data| <= MaxPayload(g.blockWords)
        ensures Survives(g, flash, store, cache, data)
      {
        CompletedWrite(g, flash, store, cache, data);
      }
    } else {
      var _ := SomethingIsLost(g, flash, store, cache);
    }
  }

  // ---------- Whatever the counters are ----------

  /** A block with this counter would be selected by the scan in place of its answer. */
  ghost predicate Outranks(g: Geometry, flash: Flash, target: nat, stamp: Word)
    requires Shaped(g, flash)
  {
    match Best(g, flash)
    case None => true
    case Some(b) => CounterOf(flash[b]) < stamp || (CounterOf(flash[b]) == stamp && target < b)
  }

  lemma BestIs(g: Geometry, flash: Flash, b: nat)
    requires Shaped(g, flash) && b < |flash| && Complete(flash[b])
    requires forall i :: 0 <= i < |flash| && Complete(flash[i]) ==> CounterOf(flash[i]) <= CounterOf(flash[b])
    requires forall i :: 0 <= i < b && Complete(flash[i]) ==> CounterOf(flash[i]) < CounterOf(flash[b])
    ensures Best(g, flash) == Some(b)
  {
  }

  /** Over arbitrary contents: programming a block decides the scan exactly if it outranks
      the block selected before. */
  lemma NewBlockDecides(g: Geometry, flash: Flash, target: nat, block: Block)
    requires Shaped(g, flash) && target < |flash| && !Complete(flash[target])
    requires |block| == g.blockWords && Complete(block)
    ensures Best(g, flash[target := block]) ==
      if Outranks(g, flash, target, CounterOf(block)) then Some(target) else Best(g, flash)
  {
    var after := flash[target := block];
    if Outranks(g, flash, target, CounterOf(block)) {
      BestIs(g, after, target);
    } else {
      BestIs(g, after, Best(g, flash).value);
    }
  }

  lemma RecoveredAfterBlock(g: Geometry, flash: Flash, target: nat, image: Block)
    requires Shaped(g, flash) && target < |flash| && flash[target] == ErasedBlock(g.blockWords)
    requires |image| == g.blockWords && HasMagic(image)
    ensures Recovered(g, flash[target := Partial(flash[target], image, 8 * g.Steps())]) ==
      if Complete(image) && Outranks(g, flash, target, CounterOf(image)) then Payload(image) else Recovered(g, flash)
  {
    TornWriteShape(image, g.Steps());
    assert Partial(flash[target], image, 8 * g.Steps()) == image;
    if Complete(image) {
      NewBlockDecides(g, flash, target, image);
    } else {
      ScanUnaffected(g, flash, flash[target := image], |flash|);
    }
  }

  /** The next write will be what a reboot finds: its counter is not the one that marks an
      incomplete block, and it erases or its block outranks the one selected now. */
  ghost predicate Prevails(g: Geometry, flash: Flash, store: Store)
    requires Shaped(g, flash) && store.current < |flash|
  {
    var plan := PlanWrite(g, flash, store);
    plan.stamp != UINT32_MAX && (plan.erases != [] || Outranks(g, flash, plan.target, plan.stamp))
  }

  /** What a reboot finds after any write to a contained log, its counters in order or not. */
  lemma RecoveredAfterWrite(g: Geometry, flash: Flash, store: Store, cache: seq<Byte>, data: seq<Byte>)
    requires Contained(g, flash, store.current)
    requires |cache| == 4 * g.blockWords && |data| <= MaxPayload(g.blockWords)
    ensures var plan := PlanWrite(g, flash, store);
      Recovered(g, AfterSteps(g, flash, plan, PlannedImage(g, cache, plan, data), g.Steps())) ==
        if Prevails(g, flash, store) then data else if plan.erases == [] then Recovered(g, flash) else []
  {
    var plan := PlanWrite(g, flash, store);
    var erased, image := EraseSectors(g, flash, plan.erases), PlannedImage(g, cache, plan, data);
    PlanFindsErased(g, flash, store);
    PlannedImageFields(g, cache, plan, data);
    RecoveredAfterBlock(g, erased, plan.target, image);
    if plan.erases != [] {
      AllErasedIsHealthy(g, erased);
      NothingCompleteIsEmpty(g, erased);
    }
  }

  /** For logs whose counters have come out of order, as after a write stamped with the
      sentinel: a write survives a reboot whatever its data if and only if it prevails. */
  lemma AnyWriteSurvivesIff(g: Geometry, flash: Flash, store: Store, cache: seq<Byte>)
    requires Contained(g, flash, store.current) && |cache| == 4 * g.blockWords
    ensures Prevails(g, flash, store) <==>
      forall data: seq<Byte> :: |data| <= MaxPayload(g.blockWords) ==> Survives(g, flash, store, cache, data)
  {
    if Prevails(g, flash, store) {
      forall data: seq<Byte> | |data| <= MaxPayload(g.blockWords)
        ensures Survives(g, flash, store, cache, data)
      {
        RecoveredAfterWrite(g, flash, store, cache, data);
      }
    } else {
      var _ := SomethingElseIsFound(g, flash, store, cache);
    }
  }

  lemma SomethingElseIsFound(g: Geometry, flash: Flash, store: Store, cache: seq<Byte>) returns (data: seq<Byte>)
    requires Contained(g, flash, store.current) && |cache| == 4 * g.blockWords && !Prevails(g, flash, store)
    ensures |data| <= MaxPayload(g.blockWords) && !Survives(g, flash, store, cache, data)
  {
    var kept := if PlanWrite(g, flash, store).erases == [] then Recovered(g, flash) else [];
    data := if kept == [0] then [1] else [0];
    RecoveredAfterWrite(g, flash, store, cache, data);
  }

  /** A write leaves the log contained after any number of its flash words. */
  lemma WriteContains(g: Geometry, flash: Flash, store: Store, image: Block, steps: nat)
    requires Contained(g, flash, store.current)
    requires |image| == g.blockWords && HasMagic(image) && steps <= g.Steps()
    ensures var plan := PlanWrite(g, flash, store);
      Contained(g, AfterSteps(g, flash, plan, image, steps), plan.target)
  {
    PlanFindsErased(g, flash, store);
    var plan := PlanWrite(g, flash, store);
    StaysContained(g, EraseSectors(g, flash, plan.erases), plan.target, image, steps);
  }

  lemma StaysContained(g: Geometry, flash: Flash, target: nat, image: Block, steps: nat)
    requires Contained(g, flash, target) && flash[target] == ErasedBlock(g.blockWords)
    requires |image| == g.blockWords && HasMagic(image) && steps <= g.Steps()
    ensures Contained(g, flash[target := Partial(flash[target], image, 8 * steps)], target)
  {
    PartialHeader(image, steps);
  }

  // ---------- All images of a flush ----------

  /** Every flash image a flush goes through, one after each flash operation. */
  ghost function FlushImages(g: Geometry, flash: Flash, plan: Plan, image: Block): seq<Flash>
    requires Shaped(g, flash) && plan.target < |flash| && |image| == g.blockWords
  {
    EraseImages(g, flash, plan.erases)
    + ProgramImages(g, EraseSectors(g, flash, plan.erases), plan.target, image)
  }

  lemma WholeBlock(g: Geometry, flash: Flash, plan: Plan, image: Block)
    requires Shaped(g, flash) && plan.target < |flash| && |image| == g.blockWords
    ensures var erased := EraseSectors(g, flash, plan.erases);
      AfterSteps(g, flash, plan, image, g.Steps())
      == erased[plan.target := Partial(erased[plan.target], image, g.blockWords)]
  {
    assert 8 * g.Steps() == g.blockWords;
  }

  lemma FlushImageAt(g: Geometry, flash: Flash, plan: Plan, image: Block, k: nat)
    requires Shaped(g, flash) && plan.target < |flash| && |image| == g.blockWords && |plan.erases| <= 1
    requires k < |plan.erases| + g.Steps()
    ensures FlushImages(g, flash, plan, image)[k]
      == AfterSteps(g, flash, plan, image, if k < |plan.erases| then 0 else k - |plan.erases| + 1)
  {
    if k < |plan.erases| {
      assert plan.erases[..k + 1] == plan.erases;
      var erased := EraseSectors(g, flash, plan.erases);
      assert Partial(erased[plan.target], image, 0) == erased[plan.target];
    }
  }

  /** Crash atomicity for all images of a flush at once: cut anywhere, the log is healthy
      and boots to the new data only after the last operation. */
  lemma FlushImagesRecover(g: Geometry, flash: Flash, store: Store, cache: seq<Byte>, data: seq<Byte>, k: nat)
    requires Settled(g, flash, store) && PlanWrite(g, flash, store).stamp != UINT32_MAX
    requires |cache| == 4 * g.blockWords && |data| <= MaxPayload(g.blockWords)
    requires k < |PlanWrite(g, flash, store).erases| + g.Steps()
    ensures var plan := PlanWrite(g, flash, store);
      var images := FlushImages(g, flash, plan, PlannedImage(g, cache, plan, data));
      && |images| == |plan.erases| + g.Steps()
      && Healthy(g, images[k])
      && Recovered(g, images[k]) ==
           (if k == |images| - 1 then data else if plan.erases == [] then Recovered(g, flash) else [])
  {
    var plan := PlanWrite(g, flash, store);
    PlanIsSound(g, flash, store);
    FlushImageAt(g, flash, plan, PlannedImage(g, cache, plan, data), k);
    CrashAtomicity(g, flash, store, cache, data, if k < |plan.erases| then 0 else k - |plan.erases| + 1);
  }

  /** A reboot of a healthy log settles it and loses nothing; a second one changes nothing. */
  lemma BootSettles(g: Geometry, flash: Flash)
    requires Healthy(g, flash)
    ensures var after := AfterBoot(g, flash);
      && Settled(g, after, BootStore(g, flash)) && Recovered(g, after) == Recovered(g, flash)
      && AfterBoot(g, after) == after
  {
    if Best(g, flash).None? {
      RestartErasesAll(g, flash);
      AllErasedIsHealthy(g, AfterBoot(g, flash));
      RestartErasesAll(g, AfterBoot(g, flash));
      assert AfterBoot(g, AfterBoot(g, flash)) == AfterBoot(g, flash);
    }
  }

  /** The log as one sees it: complete blocks only in the sector of the newest one, not after
      it, their counters rising in the order of use; every other block of that sector is
      erased or torn; every other sector is erased; a single sector has no gaps. */
  lemma LogShape(g: Geometry, flash: Flash)
    requires Healthy(g, flash) && Best(g, flash).Some?
    ensures var newest := Best(g, flash).value;
      && (forall i :: 0 <= i < |flash| && Complete(flash[i]) ==>
            g.Sector(i) == g.Sector(newest) && Position(g, i) <= Position(g, newest))
      && (forall i, j :: 0 <= i < |flash| && 0 <= j < |flash| && Position(g, i) < Position(g, j) ==>
            Complete(flash[i]) && Complete(flash[j]) ==>
              CounterOf(flash[i]) < CounterOf(flash[j]) < BootStore(g, flash).counter)
      && (forall i :: 0 <= i < |flash| && !Complete(flash[i]) ==>
            flash[i] == ErasedBlock(g.blockWords) || (Torn(flash[i]) && g.Sector(i) == g.Sector(newest)))
      && (g.sectors == 1 ==>
            forall i :: 0 <= i < |flash| && Position(g, i) < Position(g, newest) ==> HasMagic(flash[i]))
  {
    BootScanMeaning(g, flash);
  }

  /** The same through the eyes of the running manager: without any complete block the
      fields are those of a restart and all is erased; otherwise the current block is the
      newest, of the recorded size, the next counter is one above its counter, and so above
      every other, and the complete blocks are in its sector, not after it. */
  lemma LiveLogShape(g: Geometry, flash: Flash, store: Store)
    requires Settled(g, flash, store)
    ensures if NoneComplete(g, flash) then store == Store(0, 1, 0) && AllErased(g, flash)
      else
        && Complete(flash[store.current]) && SizeOf(flash[store.current]) == store.size
        && CounterOf(flash[store.current]) + 1 == store.counter
        && (forall i :: 0 <= i < |flash| && Complete(flash[i]) ==>
              && g.Sector(i) == g.Sector(store.current) && Position(g, i) <= Position(g, store.current)
              && CounterOf(flash[i]) < store.counter)
        && (forall i :: 0 <= i < |flash| && g.Sector(i) != g.Sector(store.current) ==>
              flash[i] == ErasedBlock(g.blockWords))
  {
    BootScanMeaning(g, flash);
    if Best(g, flash).Some? {
      LogShape(g, flash);
    }
  }
}
