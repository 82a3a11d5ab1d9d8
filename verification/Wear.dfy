/** Crash-free service from erased flash: where each write goes, when sectors are erased,
    and how evenly. */
module Wear {
  import opened Words
  import opened BlockFormat
  import opened BlockLog
  import opened Recovery
  import opened Arithmetic

  /** The device with its fields, its cache and, per sector, the erases since the restart. */
  datatype Device = Device(flash: Flash, store: Store, cache: seq<Byte>, wear: seq<nat>)

  ghost predicate Sane(g: Geometry, d: Device) {
    && Shaped(g, d.flash) && d.store.current < g.blocks
    && |d.cache| == 4 * g.blockWords && |d.wear| == g.sectors
  }

  predicate Legal(g: Geometry, data: seq<Byte>) {
    |data| <= MaxPayload(g.blockWords)
  }

  function CountOf(sectors: seq<nat>, sector: nat): nat {
    if sectors == [] then 0 else (if sectors[0] == sector then 1 else 0) + CountOf(sectors[1..], sector)
  }

  function Worn(g: Geometry, wear: seq<nat>, erases: seq<nat>): (after: seq<nat>)
    requires |wear| == g.sectors
    ensures |after| == g.sectors
  {
    seq(g.sectors, s requires 0 <= s < g.sectors => wear[s] + CountOf(erases, s))
  }

  /** `Write` followed by `WriteToFlash`. */
  ghost function Stored(g: Geometry, d: Device, data: seq<Byte>): (after: Device)
    requires Sane(g, d) && Legal(g, data)
    ensures Sane(g, after)
  {
    var plan := PlanWrite(g, d.flash, d.store);
    Device(AfterSteps(g, d.flash, plan, PlannedImage(g, d.cache, plan, data), g.Steps()),
           Store(plan.target, Increment(plan.stamp), |data|), CacheAfterWrite(g, d.cache, plan, data),
           Worn(g, d.wear, plan.erases))
  }

  ghost function StoredAll(g: Geometry, d: Device, writes: seq<seq<Byte>>): (after: Device)
    requires Sane(g, d) && forall i :: 0 <= i < |writes| ==> Legal(g, writes[i])
    ensures Sane(g, after)
  {
    if writes == [] then d
    else Stored(g, StoredAll(g, d, writes[..|writes| - 1]), writes[|writes| - 1])
  }

  /** Just restarted. */
  ghost predicate New(g: Geometry, d: Device) {
    && Sane(g, d) && AllErased(g, d.flash) && d.store == Store(0, 1, 0)
    && forall s :: 0 <= s < g.sectors ==> d.wear[s] == 0
  }

  /** Erases of sector `s` among the first `erases` ones, taken in turn. */
  function Share(g: Geometry, erases: nat, s: nat): nat {
    erases / g.sectors + (if s < erases % g.sectors then 1 else 0)
  }

  /** Only erased blocks follow in the same sector. */
  ghost predicate FreeAhead(g: Geometry, flash: Flash, current: nat)
    requires Shaped(g, flash)
  {
    forall i :: current < i < |flash| && g.Sector(i) == g.Sector(current) ==> flash[i] == ErasedBlock(g.blockWords)
  }

  /** The sectors left behind, and so erased, by `n` writes. */
  function LeftBehind(g: Geometry, n: nat): nat {
    n / g.perSector
  }

  /** The erases that `n` writes take. A single sector is erased when it is full. */
  function Erases(g: Geometry, n: nat): nat {
    if g.sectors >= 2 then LeftBehind(g, n) else if n == 0 then 0 else (n - 1) / g.blocks
  }

  /** Each sector has had its share of `erases` erases. */
  ghost predicate Shared(g: Geometry, wear: seq<nat>, erases: nat) {
    |wear| == g.sectors && forall s :: 0 <= s < g.sectors ==> wear[s] == Share(g, erases, s)
  }

  /** The device after `n` writes: `n` blocks on in ring order, `n / perSector` sectors
      left behind, nothing but erased blocks ahead. */
  ghost predicate At(g: Geometry, d: Device, n: nat) {
    && Sane(g, d) && Settled(g, d.flash, d.store)
    && d.store.current == n % g.blocks && d.store.counter == n + 1
    && Shared(g, d.wear, LeftBehind(g, n)) && FreeAhead(g, d.flash, d.store.current)
  }

  lemma NewIsAt(g: Geometry, d: Device)
    requires New(g, d)
    ensures At(g, d, 0)
  {
    AllErasedIsHealthy(g, d.flash);
    NothingCompleteIsEmpty(g, d.flash);
  }

  // ---------- Taking turns ----------

  lemma LastOffset(g: Geometry)
    ensures (g.blocks - 1) % g.perSector == g.perSector - 1
  {
    SectorOfLast(g);
    var last := g.blocks - 1;
    assert last == g.perSector * g.Sector(last) + last % g.perSector;
    assert g.perSector * (g.sectors - 1) == g.sectors * g.perSector - g.perSector;
  }

  /** The block of turn `i` lies in the sector whose turn it is, at the offset of the turn. */
  ghost predicate InTurn(g: Geometry, i: nat) {
    && g.Sector(i % g.blocks) == LeftBehind(g, i) % g.sectors
    && (i % g.blocks) % g.perSector == i % g.perSector
  }

  lemma NextInTurn(g: Geometry, i: nat)
    requires InTurn(g, i)
    ensures InTurn(g, i + 1)
  {
    var m := i % g.blocks;
    NextTurn(i, g.blocks);
    NextTurn(i, g.perSector);
    NextTurn(LeftBehind(g, i), g.sectors);
    NextTurn(m, g.perSector);
    if m + 1 == g.blocks {
      SectorOfLast(g);
      LastOffset(g);
      SectorOfFirst(g);
    } else {
      SectorInRange(g, m + 1);
    }
  }

  lemma {:induction false} SectorOfTurn(g: Geometry, i: nat)
    ensures InTurn(g, i)
  {
    if i == 0 {
      FirstTurn(g.blocks);
      FirstTurn(g.perSector);
      FirstTurn(g.sectors);
    } else {
      SectorOfTurn(g, i - 1);
      NextInTurn(g, i - 1);
    }
  }

  lemma FirstTurn(n: nat)
    requires 1 <= n
    ensures 0 % n == 0 && 0 / n == 0
  {
  }

  lemma ShareOfNext(g: Geometry, erases: nat, s: nat)
    requires s < g.sectors
    ensures Share(g, erases + 1, s) == Share(g, erases, s) + (if s == erases % g.sectors then 1 else 0)
  {
    NextTurn(erases, g.sectors);
  }

  /** Moving from turn `n` to the next: inside a sector to the block behind, otherwise to
      the sector whose turn comes next. */
  lemma TurnMoves(g: Geometry, n: nat)
    requires 2 <= g.sectors
    ensures var current, next := n % g.blocks, (n + 1) % g.blocks;
      && next == Ahead(g, current, 1)
      && (if LeftBehind(g, n + 1) == LeftBehind(g, n)
          then g.Sector(next) == g.Sector(current) && next == current + 1
          else LeftBehind(g, n + 1) == LeftBehind(g, n) + 1 && g.Sector(next) != g.Sector(current))
  {
    SectorOfTurn(g, n);
    SectorOfTurn(g, n + 1);
    NextTurn(n, g.blocks);
    NextTurn(n, g.perSector);
    NextTurn(LeftBehind(g, n), g.sectors);
    SectorOfFirst(g);
    SectorOfLast(g);
  }

  // ---------- One write ----------

  /** With only erased blocks ahead in the sector, the very next block of the ring is free. */
  lemma NextIsFree(g: Geometry, flash: Flash, store: Store)
    requires Contained(g, flash, store.current) && FreeAhead(g, flash, store.current) && 2 <= g.sectors
    ensures var next := Ahead(g, store.current, 1);
      PlanWrite(g, flash, store) == Plan(next, store.counter, false, Crossing(g, store.current, next))
  {
    var next := Ahead(g, store.current, 1);
    if next == 0 {
      SectorOfFirst(g);
      SectorOfLast(g);
    }
    assert HeaderErased(flash[next]);
  }

  /** The plan of the next write: none erased inside a sector, otherwise the sector whose
      turn is over. */
  lemma NextPlan(g: Geometry, d: Device, n: nat)
    requires At(g, d, n) && 2 <= g.sectors
    ensures PlanWrite(g, d.flash, d.store) == Plan((n + 1) % g.blocks, d.store.counter, false,
      if LeftBehind(g, n + 1) == LeftBehind(g, n) then [] else [LeftBehind(g, n) % g.sectors])
    ensures LeftBehind(g, n + 1) == LeftBehind(g, n) ==>
      d.store.current < (n + 1) % g.blocks && g.Sector((n + 1) % g.blocks) == g.Sector(d.store.current)
  {
    NextIsFree(g, d.flash, d.store);
    TurnMoves(g, n);
    SectorOfTurn(g, n);
  }

  lemma StoredSettles(g: Geometry, d: Device, data: seq<Byte>)
    requires Sane(g, d) && Settled(g, d.flash, d.store) && Legal(g, data)
    requires PlanWrite(g, d.flash, d.store).stamp != UINT32_MAX
    ensures Settled(g, Stored(g, d, data).flash, Stored(g, d, data).store)
    ensures Recovered(g, Stored(g, d, data).flash) == data
  {
    CompletedWrite(g, d.flash, d.store, d.cache, data);
  }

  /** Both ways a write can move on leave only erased blocks ahead in the sector. */
  lemma StepsFreeAhead(g: Geometry, flash: Flash, store: Store, image: Block)
    requires Settled(g, flash, store) && FreeAhead(g, flash, store.current) && |image| == g.blockWords
    requires var plan := PlanWrite(g, flash, store);
      plan.erases == [] ==> store.current < plan.target && g.Sector(plan.target) == g.Sector(store.current)
    ensures var plan := PlanWrite(g, flash, store);
      FreeAhead(g, AfterSteps(g, flash, plan, image, g.Steps()), plan.target)
  {
    var plan := PlanWrite(g, flash, store);
    PlanIsSound(g, flash, store);
    assert FreeAhead(g, EraseSectors(g, flash, plan.erases), plan.target);
  }

  /** Erasing the sector whose turn it is keeps the shares. */
  lemma SharedAfter(g: Geometry, wear: seq<nat>, erases: nat)
    requires Shared(g, wear, erases)
    ensures Shared(g, Worn(g, wear, []), erases)
    ensures Shared(g, Worn(g, wear, [erases % g.sectors]), erases + 1)
  {
    forall s | 0 <= s < g.sectors
      ensures Worn(g, wear, [])[s] == wear[s]
      ensures Worn(g, wear, [erases % g.sectors])[s] == Share(g, erases + 1, s)
    {
      ShareOfNext(g, erases, s);
      OneCounts(erases % g.sectors, s);
    }
  }

  lemma OneCounts(sector: nat, s: nat)
    ensures CountOf([sector], s) == (if sector == s then 1 else 0) && CountOf([], s) == 0
  {
  }

  /** One write moves one turn on. */
  lemma StoredIsAt(g: Geometry, d: Device, data: seq<Byte>, n: nat)
    requires At(g, d, n) && 2 <= g.sectors && Legal(g, data) && n < LAST_WRITE
    ensures At(g, Stored(g, d, data), n + 1) && Recovered(g, Stored(g, d, data).flash) == data
  {
    var plan := PlanWrite(g, d.flash, d.store);
    NextPlan(g, d, n);
    StoredSettles(g, d, data);
    StepsFreeAhead(g, d.flash, d.store, PlannedImage(g, d.cache, plan, data));
    StoredShares(g, d, n);
  }

  lemma StoredShares(g: Geometry, d: Device, n: nat)
    requires At(g, d, n) && 2 <= g.sectors
    ensures Shared(g, Worn(g, d.wear, PlanWrite(g, d.flash, d.store).erases), LeftBehind(g, n + 1))
  {
    NextPlan(g, d, n);
    SharedAfter(g, d.wear, LeftBehind(g, n));
    NextTurn(n, g.perSector);
  }

  // ---------- All writes ----------

  lemma {:induction false} AfterWrites(g: Geometry, d: Device, writes: seq<seq<Byte>>)
    requires New(g, d) && 2 <= g.sectors && |writes| <= LAST_WRITE
    requires forall i :: 0 <= i < |writes| ==> Legal(g, writes[i])
    ensures At(g, StoredAll(g, d, writes), |writes|)
    ensures writes != [] ==> Recovered(g, StoredAll(g, d, writes).flash) == writes[|writes| - 1]
  {
    var n := |writes|;
    if n == 0 {
      NewIsAt(g, d);
    } else {
      AfterWrites(g, d, writes[..n - 1]);
      StoredIsAt(g, StoredAll(g, d, writes[..n - 1]), writes[n - 1], n - 1);
    }
  }

  // ---------- A single sector ----------

  /** The blocks in use after `n` writes to a single sector. */
  function Used(g: Geometry, n: nat): (used: nat)
    ensures used <= g.blocks && used <= n
  {
    if n == 0 then 0 else if Used(g, n - 1) == g.blocks then 1 else Used(g, n - 1) + 1
  }

  /** How often the sector has been found full by then. */
  function Refills(g: Geometry, n: nat): nat {
    if n == 0 then 0 else Refills(g, n - 1) + (if Used(g, n - 1) == g.blocks then 1 else 0)
  }

  /** The block that stands at this position in the order of use. */
  function BlockAt(g: Geometry, position: nat): nat {
    if position == g.blocks then 0 else position
  }

  lemma {:induction false} UsedInTurn(g: Geometry, n: nat)
    requires 1 <= n
    ensures Used(g, n) == (n - 1) % g.blocks + 1 && Refills(g, n) == (n - 1) / g.blocks
  {
    if n == 1 {
      FirstTurn(g.blocks);
      assert Used(g, 0) == 0;
    } else {
      UsedInTurn(g, n - 1);
      NextTurn(n - 2, g.blocks);
    }
  }

  lemma TurnsOfSingle(g: Geometry, n: nat)
    requires g.sectors == 1
    ensures BlockAt(g, Used(g, n)) == n % g.blocks && Refills(g, n) == Erases(g, n)
  {
    if n == 0 {
      FirstTurn(g.blocks);
      assert Used(g, 0) == 0 && Refills(g, 0) == 0;
    } else {
      var before, used := n - 1, Used(g, n);
      assert used == before % g.blocks + 1 && Refills(g, n) == before / g.blocks by {
        UsedInTurn(g, n);
      }
      NextTurn(before, g.blocks);
    }
  }

  ghost predicate FreeBeyond(g: Geometry, flash: Flash, used: nat)
    requires Shaped(g, flash)
  {
    forall i :: 0 <= i < |flash| && used < Position(g, i) ==> flash[i] == ErasedBlock(g.blockWords)
  }

  /** The device after `n` writes to a single sector: the blocks up to the current one are
      in use, the others erased, and the counters start again at each restart. */
  ghost predicate AtSingle(g: Geometry, d: Device, n: nat) {
    && Sane(g, d) && Settled(g, d.flash, d.store)
    && d.store.current == BlockAt(g, Used(g, n)) && d.store.counter == Used(g, n) + 1
    && d.wear == [Refills(g, n)] && FreeBeyond(g, d.flash, Used(g, n))
  }

  /** The next block in the order of use, or a restart once all are in use. */
  lemma SinglePlan(g: Geometry, d: Device, n: nat)
    requires AtSingle(g, d, n) && g.sectors == 1
    ensures PlanWrite(g, d.flash, d.store) ==
      if Used(g, n) == g.blocks then Plan(1, 1, true, [0])
      else Plan(BlockAt(g, Used(g, n) + 1), Used(g, n) + 1, false, [])
  {
    var current := d.store.current;
    if Used(g, n) == g.blocks {
      RestartedIff(g, d.flash, d.store);
      RestartedPlan(g, d.flash, d.store);
    } else {
      var next := Ahead(g, current, 1);
      assert HeaderErased(d.flash[next]);
      SectorInRange(g, current);
      SectorInRange(g, next);
    }
  }

  lemma StoredSingle(g: Geometry, d: Device, data: seq<Byte>, n: nat)
    requires AtSingle(g, d, n) && g.sectors == 1 && Legal(g, data) && Bounded(g, n + 1)
    ensures AtSingle(g, Stored(g, d, data), n + 1) && Recovered(g, Stored(g, d, data).flash) == data
  {
    SinglePlan(g, d, n);
    StoredSettles(g, d, data);
    SingleStaysFree(g, d, data, n);
    SingleWears(g, d, n);
  }

  lemma SingleStaysFree(g: Geometry, d: Device, data: seq<Byte>, n: nat)
    requires AtSingle(g, d, n) && g.sectors == 1 && Legal(g, data)
    ensures FreeBeyond(g, Stored(g, d, data).flash, Used(g, n + 1))
  {
    var plan := PlanWrite(g, d.flash, d.store);
    SinglePlan(g, d, n);
    var erased := EraseSectors(g, d.flash, plan.erases);
    if plan.restarted {
      PlanFindsErased(g, d.flash, d.store);
      assert FreeBeyond(g, erased, 0);
    } else {
      assert erased == d.flash;
    }
  }

  lemma SingleWears(g: Geometry, d: Device, n: nat)
    requires AtSingle(g, d, n) && g.sectors == 1
    ensures Worn(g, d.wear, PlanWrite(g, d.flash, d.store).erases) == [Refills(g, n + 1)]
  {
    SinglePlan(g, d, n);
    OneCounts(0, 0);
  }

  lemma ShareOfOne(g: Geometry, erases: nat)
    requires g.sectors == 1
    ensures Shared(g, [erases], erases)
  {
  }

  lemma NewIsSingle(g: Geometry, d: Device)
    requires New(g, d) && g.sectors == 1
    ensures AtSingle(g, d, 0)
  {
    NewIsAt(g, d);
  }

  /** How many writes keep clear of the sentinel: with a single sector that is not too long,
      any number. */
  predicate Bounded(g: Geometry, n: nat) {
    n <= LAST_WRITE || (g.sectors == 1 && g.blocks <= LAST_WRITE)
  }

  lemma {:induction false} AfterSingleWrites(g: Geometry, d: Device, writes: seq<seq<Byte>>, n: nat)
    requires New(g, d) && g.sectors == 1 && Bounded(g, n) && n == |writes|
    requires forall i :: 0 <= i < n ==> Legal(g, writes[i])
    ensures AtSingle(g, StoredAll(g, d, writes), n)
    ensures n > 0 ==> Recovered(g, StoredAll(g, d, writes).flash) == writes[n - 1]
  {
    if n == 0 {
      NewIsSingle(g, d);
    } else {
      AfterSingleWrites(g, d, writes[..n - 1], n - 1);
      StoredSingle(g, StoredAll(g, d, writes[..n - 1]), writes[n - 1], n - 1);
    }
  }

  // ---------- Any number of sectors ----------

  /** The wear bound: after `n` writes from a restart the current block is `n` modulo the
      ring, the erases have been shared out with a spread of at most one, one for each time
      a sector was left behind or a single sector was full, and the last write is what a
      reboot reads back. */
  lemma WearBound(g: Geometry, d: Device, writes: seq<seq<Byte>>)
    requires New(g, d) && Bounded(g, |writes|)
    requires forall i :: 0 <= i < |writes| ==> Legal(g, writes[i])
    ensures var after := StoredAll(g, d, writes);
      && after.store.current == |writes| % g.blocks
      && Sum(after.wear) == Erases(g, |writes|)
      && (forall s, t :: 0 <= s < g.sectors && 0 <= t < g.sectors ==> after.wear[s] <= after.wear[t] + 1)
      && Settled(g, after.flash, after.store)
      && (writes != [] ==> Recovered(g, after.flash) == writes[|writes| - 1])
  {
    if g.sectors == 1 {
      AfterSingleWrites(g, d, writes, |writes|);
      TurnsOfSingle(g, |writes|);
      ShareOfOne(g, Refills(g, |writes|));
    } else {
      AfterWrites(g, d, writes);
    }
    SharesAddUp(g, StoredAll(g, d, writes).wear, Erases(g, |writes|));
    SharesAreEven(g, StoredAll(g, d, writes).wear, Erases(g, |writes|));
  }

  lemma SharesAreEven(g: Geometry, wear: seq<nat>, erases: nat)
    requires Shared(g, wear, erases)
    ensures forall s, t :: 0 <= s < g.sectors && 0 <= t < g.sectors ==> wear[s] <= wear[t] + 1
  {
  }

  function Sum(counts: seq<nat>): nat {
    if counts == [] then 0 else Sum(counts[..|counts| - 1]) + counts[|counts| - 1]
  }

  lemma {:induction false} PrefixSum(g: Geometry, wear: seq<nat>, erases: nat, s: nat)
    requires Shared(g, wear, erases) && s <= g.sectors
    ensures Sum(wear[..s]) == s * (erases / g.sectors) + (if s < erases % g.sectors then s else erases % g.sectors)
  {
    if s > 0 {
      PrefixSum(g, wear, erases, s - 1);
      assert wear[..s][..s - 1] == wear[..s - 1];
      assert s * (erases / g.sectors) == (s - 1) * (erases / g.sectors) + erases / g.sectors;
    }
  }

  /** The shares of all sectors are all the erases there were. */
  lemma SharesAddUp(g: Geometry, wear: seq<nat>, erases: nat)
    requires Shared(g, wear, erases)
    ensures Sum(wear) == erases
  {
    PrefixSum(g, wear, erases, g.sectors);
    assert wear[..g.sectors] == wear;
  }

  /** The bound is tight: after exactly as many writes the next one is stamped with the
      sentinel, and a reboot finds what it would have found without its block. */
  lemma NextWriteIsLost(g: Geometry, d: Device, writes: seq<seq<Byte>>, data: seq<Byte>)
    requires New(g, d) && 2 <= g.sectors && |writes| == LAST_WRITE && Legal(g, data)
    requires forall i :: 0 <= i < |writes| ==> Legal(g, writes[i])
    ensures var before := StoredAll(g, d, writes);
      var plan := PlanWrite(g, before.flash, before.store);
      && plan.stamp == UINT32_MAX
      && Recovered(g, Stored(g, before, data).flash) == if plan.erases == [] then writes[LAST_WRITE - 1] else []
  {
    var before := StoredAll(g, d, writes);
    AfterWrites(g, d, writes);
    NextPlan(g, before, LAST_WRITE);
    SentinelWriteIsLost(g, before.flash, before.store, before.cache, data);
    ClearingTheLog(g, before.flash, before.store);
  }

  /** The device once the write stamped with the sentinel is in: its counter has wrapped
      around, and the newest data is that of the write before, if its sector is still there. */
  lemma SentinelLeaves(g: Geometry, d: Device, lost: seq<Byte>)
    requires At(g, d, LAST_WRITE) && 2 <= g.sectors && Legal(g, lost)
    ensures var after := Stored(g, d, lost);
      && after.store.current == (LAST_WRITE + 1) % g.blocks && after.store.counter == 0
      && Contained(g, after.flash, after.store.current) && FreeAhead(g, after.flash, after.store.current)
      && (if LeftBehind(g, LAST_WRITE + 1) == LeftBehind(g, LAST_WRITE)
          then Best(g, after.flash) == Best(g, d.flash) == Some(d.store.current)
               && after.flash[d.store.current] == d.flash[d.store.current]
               && CounterOf(d.flash[d.store.current]) == LAST_WRITE
          else Best(g, after.flash) == None)
  {
    var plan := PlanWrite(g, d.flash, d.store);
    var image := PlannedImage(g, d.cache, plan, lost);
    NextPlan(g, d, LAST_WRITE);
    StoredContained(g, d, lost);
    StepsFreeAhead(g, d.flash, d.store, image);
    SentinelIsIgnored(g, d, lost);
  }

  lemma SentinelIsIgnored(g: Geometry, d: Device, lost: seq<Byte>)
    requires Sane(g, d) && Settled(g, d.flash, d.store) && Legal(g, lost)
    requires PlanWrite(g, d.flash, d.store).stamp == UINT32_MAX
    ensures var plan := PlanWrite(g, d.flash, d.store);
      var after := Stored(g, d, lost).flash;
      && Best(g, after) == (if plan.erases == [] then Best(g, d.flash) else None)
      && (plan.erases == [] ==> forall i :: 0 <= i < |after| && i != plan.target ==> after[i] == d.flash[i])
  {
    var plan := PlanWrite(g, d.flash, d.store);
    var erased, image := EraseSectors(g, d.flash, plan.erases), PlannedImage(g, d.cache, plan, lost);
    ClearingTheLog(g, d.flash, d.store);
    PlanIsSound(g, d.flash, d.store);
    PlannedImageFields(g, d.cache, plan, lost);
    TornWriteShape(image, g.Steps());
    IncompleteBlockIsIgnored(g, erased, plan.target, image);
    if plan.erases != [] {
      AllErasedIsHealthy(g, erased);
      NothingCompleteIsEmpty(g, erased);
    }
  }

  /** The write after the lost one is stamped 0. A reboot finds it, whatever its data, if and
      only if one of the two has left a sector behind; otherwise the last write before the
      lost one is found again. */
  lemma WriteAfterSentinel(g: Geometry, d: Device, writes: seq<seq<Byte>>, lost: seq<Byte>, data: seq<Byte>)
    requires New(g, d) && 2 <= g.sectors && |writes| == LAST_WRITE && Legal(g, lost) && Legal(g, data)
    requires forall i :: 0 <= i < |writes| ==> Legal(g, writes[i])
    ensures var after := Stored(g, StoredAll(g, d, writes), lost);
      var left := LeftBehind(g, LAST_WRITE) != LeftBehind(g, LAST_WRITE + 2);
      && PlanWrite(g, after.flash, after.store).stamp == 0
      && (Prevails(g, after.flash, after.store) <==> left)
      && Recovered(g, Stored(g, after, data).flash) == if left then data else writes[LAST_WRITE - 1]
  {
    var before := StoredAll(g, d, writes);
    AfterWrites(g, d, writes);
    SentinelLeaves(g, before, lost);
    SecondStep(g, before, Stored(g, before, lost));
    var after := Stored(g, before, lost);
    RecoveredAfterWrite(g, after.flash, after.store, after.cache, data);
  }

  lemma SecondStep(g: Geometry, before: Device, after: Device)
    requires At(g, before, LAST_WRITE) && Sane(g, after) && 2 <= g.sectors
    requires after.store.current == (LAST_WRITE + 1) % g.blocks && after.store.counter == 0
    requires Contained(g, after.flash, after.store.current) && FreeAhead(g, after.flash, after.store.current)
    requires if LeftBehind(g, LAST_WRITE + 1) == LeftBehind(g, LAST_WRITE)
      then Best(g, after.flash) == Best(g, before.flash) == Some(before.store.current)
           && after.flash[before.store.current] == before.flash[before.store.current]
           && CounterOf(before.flash[before.store.current]) == LAST_WRITE
      else Best(g, after.flash) == None
    ensures var plan := PlanWrite(g, after.flash, after.store);
      var left := LeftBehind(g, LAST_WRITE) != LeftBehind(g, LAST_WRITE + 2);
      && plan.stamp == 0 && (Prevails(g, after.flash, after.store) <==> left)
      && (!left ==> plan.erases == [] && Recovered(g, after.flash) == Recovered(g, before.flash))
  {
    NextIsFree(g, after.flash, after.store);
    TurnMoves(g, LAST_WRITE);
    TurnMoves(g, LAST_WRITE + 1);
  }

  /** In particular, when the blocks of a sector divide 2^32, as with sectors and blocks of a
      power of two, the write after the lost one leaves the sector, and is found. */
  lemma OneWriteIsLost(g: Geometry, d: Device, writes: seq<seq<Byte>>, lost: seq<Byte>, data: seq<Byte>)
    requires New(g, d) && 2 <= g.sectors && |writes| == LAST_WRITE && Legal(g, lost) && Legal(g, data)
    requires forall i :: 0 <= i < |writes| ==> Legal(g, writes[i])
    requires 0x1_0000_0000 % g.perSector == 0
    ensures Recovered(g, Stored(g, Stored(g, StoredAll(g, d, writes), lost), data).flash) == data
  {
    LeavesSector(g);
    WriteAfterSentinel(g, d, writes, lost, data);
  }

  lemma LeavesSector(g: Geometry)
    requires 0x1_0000_0000 % g.perSector == 0
    ensures LeftBehind(g, LAST_WRITE) != LeftBehind(g, LAST_WRITE + 2)
  {
    NextTurn(LAST_WRITE, g.perSector);
    NextTurn(LAST_WRITE + 1, g.perSector);
  }

  /** Such a device is within reach of every registry of two or more sectors. */
  lemma SentinelIsReached(g: Geometry) returns (d: Device, writes: seq<seq<Byte>>, data: seq<Byte>)
    requires 2 <= g.sectors
    ensures New(g, d) && |writes| == LAST_WRITE && Legal(g, data)
    ensures forall i :: 0 <= i < |writes| ==> Legal(g, writes[i])
    ensures var before := StoredAll(g, d, writes);
      Settled(g, before.flash, before.store) && !Survives(g, before.flash, before.store, before.cache, data)
  {
    d := Device(seq(g.blocks, _ => ErasedBlock(g.blockWords)), Store(0, 1, 0),
                seq(4 * g.blockWords, _ => 0), seq(g.sectors, _ => 0));
    writes := seq(LAST_WRITE, _ => []);
    AfterWrites(g, d, writes);
    NextWriteIsLost(g, d, writes, []);
    var before := StoredAll(g, d, writes);
    data := SomethingIsLost(g, before.flash, before.store, before.cache);
  }

  // ---------- Any number of writes ----------

  /** The sentinel does not stop the log from being contained. */
  lemma StoredContained(g: Geometry, d: Device, data: seq<Byte>)
    requires Sane(g, d) && Contained(g, d.flash, d.store.current) && Legal(g, data)
    ensures Contained(g, Stored(g, d, data).flash, Stored(g, d, data).store.current)
  {
    var plan := PlanWrite(g, d.flash, d.store);
    PlannedImageFields(g, d.cache, plan, data);
    WriteContains(g, d.flash, d.store, PlannedImage(g, d.cache, plan, data), g.Steps());
  }

  lemma {:induction false} AlwaysContained(g: Geometry, d: Device, writes: seq<seq<Byte>>)
    requires New(g, d) && forall i :: 0 <= i < |writes| ==> Legal(g, writes[i])
    ensures Contained(g, StoredAll(g, d, writes).flash, StoredAll(g, d, writes).store.current)
  {
    if writes == [] {
      AllErasedIsHealthy(g, d.flash);
    } else {
      AlwaysContained(g, d, writes[..|writes| - 1]);
      StoredContained(g, StoredAll(g, d, writes[..|writes| - 1]), writes[|writes| - 1]);
    }
  }

  /** After any number of writes, past the sentinel or not: the next one is what a reboot
      finds, whatever its data, if and only if it prevails. */
  lemma LaterWriteSurvivesIff(g: Geometry, d: Device, writes: seq<seq<Byte>>)
    requires New(g, d) && forall i :: 0 <= i < |writes| ==> Legal(g, writes[i])
    ensures var before := StoredAll(g, d, writes);
      Prevails(g, before.flash, before.store) <==>
      forall data: seq<Byte> :: Legal(g, data) ==> Survives(g, before.flash, before.store, before.cache, data)
  {
    AlwaysContained(g, d, writes);
    var before := StoredAll(g, d, writes);
    AnyWriteSurvivesIff(g, before.flash, before.store, before.cache);
  }

  /** No block is programmed twice between erases: each write, past the sentinel or not,
      finds its block erased, and leaves exactly its image there. */
  lemma EveryWriteFindsErased(g: Geometry, d: Device, writes: seq<seq<Byte>>, data: seq<Byte>)
    requires New(g, d) && Legal(g, data) && forall i :: 0 <= i < |writes| ==> Legal(g, writes[i])
    ensures var before := StoredAll(g, d, writes);
      var plan := PlanWrite(g, before.flash, before.store);
      && EraseSectors(g, before.flash, plan.erases)[plan.target] == ErasedBlock(g.blockWords)
      && Stored(g, before, data).flash[plan.target] == PlannedImage(g, before.cache, plan, data)
  {
    AlwaysContained(g, d, writes);
    ImageLands(g, StoredAll(g, d, writes), data);
  }

  lemma ImageLands(g: Geometry, d: Device, data: seq<Byte>)
    requires Sane(g, d) && Contained(g, d.flash, d.store.current) && Legal(g, data)
    ensures var plan := PlanWrite(g, d.flash, d.store);
      && EraseSectors(g, d.flash, plan.erases)[plan.target] == ErasedBlock(g.blockWords)
      && Stored(g, d, data).flash[plan.target] == PlannedImage(g, d.cache, plan, data)
  {
    var plan := PlanWrite(g, d.flash, d.store);
    PlanFindsErased(g, d.flash, d.store);
    PlannedImageFields(g, d.cache, plan, data);
    TornWriteShape(PlannedImage(g, d.cache, plan, data), g.Steps());
  }
}
