/** The log of blocks over a ring of sectors, on values: boot scan, ring walk, the plan
    of a write, its crash states, and the invariant that recovery rests on. */
module BlockLog {
  import opened Words
  import opened BlockFormat
  import opened Arithmetic

  type Flash = seq<Block>

  /** Sectors, blocks per sector, blocks in all, and words per block. */
  datatype Shape = Shape(sectors: nat, perSector: nat, blocks: nat, blockWords: nat) {
    predicate Valid() {
      && 1 <= sectors && 1 <= perSector && blocks == sectors * perSector && 2 <= blocks
      && 8 <= blockWords && blockWords % 8 == 0 && 4 * blockWords <= UINT32_MAX
    }

    function Sector(block: nat): nat
      requires 1 <= perSector
    {
      block / perSector
    }

    /** Flash words in a block. */
    function Steps(): nat {
      blockWords / 8
    }
  }

  type Geometry = shape: Shape | shape.Valid() witness Shape(2, 1, 2, 8)

  /** Nothing else is asked of a device: any number of sectors and blocks, but for a single
      block, which a log cannot live on, and blocks of whole flash words. */
  lemma EveryDeviceIsCovered(sectors: nat, perSector: nat, blockWords: nat)
    requires 1 <= sectors && 1 <= perSector && 2 <= sectors * perSector
    requires 8 <= blockWords && blockWords % 8 == 0 && 4 * blockWords <= 0xFFFF_FFFF
    ensures Shape(sectors, perSector, sectors * perSector, blockWords).Valid()
  {
  }

  ghost predicate Shaped(g: Geometry, flash: Flash) {
    |flash| == g.blocks && forall i :: 0 <= i < |flash| ==> |flash[i]| == g.blockWords
  }

  // ---------- Boot scan ----------

  /** The block that the boot scan has selected after looking at the first `n` blocks. */
  ghost function Scan(g: Geometry, flash: Flash, n: nat): (best: Option<nat>)
    requires Shaped(g, flash) && n <= |flash|
    ensures best.None? ==> forall i :: 0 <= i < n ==> !Complete(flash[i])
    ensures best.Some? ==>
      && best.value < n && Complete(flash[best.value])
      && (forall i :: 0 <= i < n && Complete(flash[i]) ==> CounterOf(flash[i]) <= CounterOf(flash[best.value]))
      && (forall i :: 0 <= i < best.value && Complete(flash[i]) ==> CounterOf(flash[i]) < CounterOf(flash[best.value]))
  {
    if n == 0 then None
    else
      var best := Scan(g, flash, n - 1);
      if Complete(flash[n - 1]) && (best.None? || CounterOf(flash[n - 1]) > CounterOf(flash[best.value]))
      then Some(n - 1)
      else best
  }

  ghost function Best(g: Geometry, flash: Flash): Option<nat>
    requires Shaped(g, flash)
  {
    Scan(g, flash, |flash|)
  }

  ghost predicate NoneComplete(g: Geometry, flash: Flash)
    requires Shaped(g, flash)
  {
    forall i :: 0 <= i < |flash| ==> !Complete(flash[i])
  }

  /** Block `b` is complete and carries a strictly larger counter than any other. */
  ghost predicate Newest(g: Geometry, flash: Flash, b: nat)
    requires Shaped(g, flash)
  {
    && b < |flash| && Complete(flash[b])
    && forall i :: 0 <= i < |flash| && i != b && Complete(flash[i]) ==> CounterOf(flash[i]) < CounterOf(flash[b])
  }

  lemma NewestIsBest(g: Geometry, flash: Flash, b: nat)
    requires Shaped(g, flash) && Newest(g, flash, b)
    ensures Best(g, flash) == Some(b)
  {
  }

  /** What a fresh constructor hands to the registry. */
  ghost function Recovered(g: Geometry, flash: Flash): seq<Byte>
    requires Shaped(g, flash)
  {
    match Best(g, flash)
    case None => []
    case Some(b) => Payload(flash[b])
  }

  /** A change that touches no complete block and completes none leaves the scan's answer
      alone, block by block. */
  lemma {:induction false} ScanUnaffected(g: Geometry, before: Flash, after: Flash, n: nat)
    requires Shaped(g, before) && Shaped(g, after) && n <= |before|
    requires forall i :: 0 <= i < |before| ==> before[i] == after[i] || (!Complete(before[i]) && !Complete(after[i]))
    ensures Scan(g, before, n) == Scan(g, after, n)
  {
    if n > 0 {
      ScanUnaffected(g, before, after, n - 1);
    }
  }

  // ---------- Ring walk ----------

  /** The block `distance` steps further in ring order. */
  function Ahead(g: Geometry, from: nat, distance: nat): nat
    requires from < g.blocks && distance <= g.blocks
    ensures Ahead(g, from, distance) < g.blocks
  {
    if from + distance < g.blocks then from + distance else from + distance - g.blocks
  }

  /** The distance of the first block at `distance` or more with an erased header. */
  ghost function Walk(g: Geometry, flash: Flash, from: nat, distance: nat): (found: Option<nat>)
    requires Shaped(g, flash) && from < |flash| && 1 <= distance <= |flash| + 1
    ensures found.None? ==> forall d :: distance <= d <= |flash| ==> !HeaderErased(flash[Ahead(g, from, d)])
    ensures found.Some? ==>
      && distance <= found.value <= |flash| && HeaderErased(flash[Ahead(g, from, found.value)])
      && forall d :: distance <= d < found.value ==> !HeaderErased(flash[Ahead(g, from, d)])
    decreases |flash| + 1 - distance
  {
    if distance > |flash| then None
    else if HeaderErased(flash[Ahead(g, from, distance)]) then Some(distance)
    else Walk(g, flash, from, distance + 1)
  }

  ghost function FindGood(g: Geometry, flash: Flash, from: nat): Option<nat>
    requires Shaped(g, flash) && from < |flash|
  {
    FoundAt(g, from, Walk(g, flash, from, 1))
  }

  function FoundAt(g: Geometry, from: nat, distance: Option<nat>): Option<nat>
    requires from < g.blocks && (distance.Some? ==> distance.value <= g.blocks)
  {
    match distance
    case None => None
    case Some(d) => Some(Ahead(g, from, d))
  }

  lemma WalkStep(g: Geometry, flash: Flash, from: nat, distance: nat)
    requires Shaped(g, flash) && from < |flash| && 1 <= distance <= |flash|
    ensures var block := Ahead(g, from, distance);
      && (if HeaderErased(flash[block]) then Walk(g, flash, from, distance) == Some(distance)
          else Walk(g, flash, from, distance) == Walk(g, flash, from, distance + 1))
      && (block == from <==> distance == |flash|)
      && Walk(g, flash, from, |flash| + 1) == None
  {
  }

  function RingDistance(g: Geometry, from: nat, to: nat): (distance: nat)
    requires from < g.blocks && to < g.blocks
    ensures 1 <= distance <= g.blocks && Ahead(g, from, distance) == to
  {
    if from < to then to - from else to - from + g.blocks
  }

  /** Over arbitrary contents: the walk fails exactly when every block is used, and
      otherwise finds the first erased header in ring order. */
  lemma FindGoodMeaning(g: Geometry, flash: Flash, from: nat)
    requires Shaped(g, flash) && from < |flash|
    ensures FindGood(g, flash, from).None? <==> forall i :: 0 <= i < |flash| ==> !HeaderErased(flash[i])
    ensures forall t :: FindGood(g, flash, from) == Some(t) <==>
      && 0 <= t < |flash| && HeaderErased(flash[t])
      && forall i :: 0 <= i < |flash| && RingDistance(g, from, i) < RingDistance(g, from, t) ==> !HeaderErased(flash[i])
  {
    if FindGood(g, flash, from).None? {
      forall i | 0 <= i < |flash|
        ensures !HeaderErased(flash[i])
      {
        assert flash[i] == flash[Ahead(g, from, RingDistance(g, from, i))];
      }
    } else {
      var d := Walk(g, flash, from, 1).value;
      var found := Ahead(g, from, d);
      assert RingDistance(g, from, found) == d;
      forall i | 0 <= i < |flash| && RingDistance(g, from, i) < d
        ensures !HeaderErased(flash[i])
      {
        assert flash[i] == flash[Ahead(g, from, RingDistance(g, from, i))];
      }
    }
  }

  // ---------- Erase and write ----------

  ghost function EraseSector(g: Geometry, flash: Flash, sector: nat): (result: Flash)
    requires Shaped(g, flash)
    ensures Shaped(g, result)
  {
    seq(|flash|, i requires 0 <= i < |flash| => if g.Sector(i) == sector then ErasedBlock(g.blockWords) else flash[i])
  }

  ghost function EraseSectors(g: Geometry, flash: Flash, sectors: seq<nat>): (result: Flash)
    requires Shaped(g, flash)
    ensures Shaped(g, result)
  {
    if sectors == [] then flash
    else EraseSector(g, EraseSectors(g, flash, sectors[..|sectors| - 1]), sectors[|sectors| - 1])
  }

  lemma {:induction false} EraseSectorsMeaning(g: Geometry, flash: Flash, sectors: seq<nat>)
    requires Shaped(g, flash)
    ensures forall i :: 0 <= i < |flash| ==>
      EraseSectors(g, flash, sectors)[i] == if g.Sector(i) in sectors then ErasedBlock(g.blockWords) else flash[i]
  {
    if sectors != [] {
      var init := sectors[..|sectors| - 1];
      EraseSectorsMeaning(g, flash, init);
      assert sectors == init + [sectors[|sectors| - 1]];
    }
  }

  function AllSectors(g: Geometry): seq<nat> {
    seq(g.sectors, i => i)
  }

  lemma SectorInRange(g: Geometry, i: nat)
    requires i < g.blocks
    ensures g.Sector(i) < g.sectors
  {
    QuotientBelow(i, g.sectors, g.perSector);
  }

  ghost predicate AllErased(g: Geometry, flash: Flash) {
    Shaped(g, flash) && forall i :: 0 <= i < |flash| ==> flash[i] == ErasedBlock(g.blockWords)
  }

  lemma RestartErasesAll(g: Geometry, flash: Flash)
    requires Shaped(g, flash)
    ensures AllErased(g, EraseSectors(g, flash, AllSectors(g)))
  {
    EraseSectorsMeaning(g, flash, AllSectors(g));
    forall i | 0 <= i < |flash|
      ensures g.Sector(i) in AllSectors(g)
    {
      SectorInRange(g, i);
      assert AllSectors(g)[g.Sector(i)] == g.Sector(i);
    }
  }

  /** The volatile fields of the manager: current block, next counter, current size. */
  datatype Store = Store(current: nat, counter: Word, size: Word)

  /** The number of writes that keep clear of the counter marking incomplete blocks. */
  const LAST_WRITE := 0xFFFF_FFFE

  /** What `Write` decides before any flash operation: the block to program, the counter
      stamped into it, whether the not-found restart was taken, and the sectors to erase. */
  datatype Plan = Plan(target: nat, stamp: Word, restarted: bool, erases: seq<nat>)

  /** The old block's sector, when the new block lies in another one. */
  function Crossing(g: Geometry, last: nat, current: nat): seq<nat> {
    if g.Sector(last) == g.Sector(current) then [] else [g.Sector(last)]
  }

  ghost function PlanWrite(g: Geometry, flash: Flash, store: Store): (plan: Plan)
    requires Shaped(g, flash) && store.current < |flash|
    ensures plan.target < |flash|
  {
    match FindGood(g, flash, store.current)
    case Some(t) => Plan(t, store.counter, false, Crossing(g, store.current, t))
    case None => Plan(1, 1, true, AllSectors(g) + Crossing(g, 0, 1))
  }

  /** The flash after each erase, one sector after the other. */
  ghost function EraseImages(g: Geometry, flash: Flash, sectors: seq<nat>): (images: seq<Flash>)
    requires Shaped(g, flash)
    ensures |images| == |sectors|
    ensures forall k :: 0 <= k < |images| ==> images[k] == EraseSectors(g, flash, sectors[..k + 1])
  {
    seq(|sectors|, k requires 0 <= k < |sectors| => EraseSectors(g, flash, sectors[..k + 1]))
  }

  lemma OneMoreErase(g: Geometry, flash: Flash, sectors: seq<nat>, sector: nat)
    requires Shaped(g, flash)
    ensures var next := EraseSector(g, EraseSectors(g, flash, sectors), sector);
      && next == EraseSectors(g, flash, sectors + [sector])
      && EraseImages(g, flash, sectors + [sector]) == EraseImages(g, flash, sectors) + [next]
  {
    var more := sectors + [sector];
    assert more[..|more| - 1] == sectors;
    assert more[..|more|] == more;
    forall k | 0 <= k < |sectors|
      ensures EraseImages(g, flash, more)[k] == EraseImages(g, flash, sectors)[k]
    {
      assert more[..k + 1] == sectors[..k + 1];
    }
  }

  /** The flash after each flash word of a block program. */
  ghost function ProgramImages(g: Geometry, flash: Flash, target: nat, image: Block): (images: seq<Flash>)
    requires Shaped(g, flash) && target < |flash| && |image| == g.blockWords
    ensures |images| == g.Steps()
    ensures forall k :: 0 <= k < |images| ==>
      images[k] == flash[target := Partial(flash[target], image, 8 * (k + 1))]
  {
    seq(g.Steps(), k requires 0 <= k < g.Steps() => flash[target := Partial(flash[target], image, 8 * (k + 1))])
  }

  /** The cache buffer once `Write` has filled it; a restart fills it once more before. */
  function CacheAfterWrite(g: Geometry, cache: seq<Byte>, plan: Plan, data: seq<Byte>): (result: seq<Byte>)
    requires |cache| == 4 * g.blockWords && HEADER + |data| <= |cache|
    ensures |result| == |cache|
  {
    CacheImage(if plan.restarted then CacheImage(cache, [], 0) else cache, data, plan.stamp)
  }

  /** That cache buffer as the block it will become. */
  function PlannedImage(g: Geometry, cache: seq<Byte>, plan: Plan, data: seq<Byte>): (image: Block)
    requires |cache| == 4 * g.blockWords && HEADER + |data| <= |cache|
    ensures |image| == g.blockWords
  {
    var bytes := CacheAfterWrite(g, cache, plan, data);
    WordsOf(bytes)
  }

  /** The flash after the erases of a plan and the first `steps` flash words of its block. */
  ghost function AfterSteps(g: Geometry, flash: Flash, plan: Plan, image: Block, steps: nat): (result: Flash)
    requires Shaped(g, flash) && plan.target < |flash| && |image| == g.blockWords
    ensures Shaped(g, result)
  {
    var erased := EraseSectors(g, flash, plan.erases);
    erased[plan.target := Partial(erased[plan.target], image, 8 * steps)]
  }

  // ---------- Invariant ----------

  /** Each block is erased as a whole, torn, or complete with a size that fits. */
  ghost predicate Formatted(g: Geometry, block: Block)
    requires |block| == g.blockWords
  {
    && (HeaderErased(block) ==> block == ErasedBlock(g.blockWords))
    && (!HeaderErased(block) ==> HasMagic(block))
    && (Complete(block) ==> SizeOf(block) <= MaxPayload(g.blockWords))
  }

  /** The order in which the blocks of a log are used: by index, except that with a single
      sector a restart goes on with block 1, so that block 0 comes last. */
  function Position(g: Geometry, block: nat): nat {
    if g.sectors == 1 && block == 0 then g.blocks else block
  }

  /** Counters strictly increase in the order of use. */
  ghost predicate Ascending(g: Geometry, flash: Flash)
    requires Shaped(g, flash)
  {
    forall i, j :: 0 <= i < |flash| && 0 <= j < |flash| && Position(g, i) < Position(g, j) ==>
      Complete(flash[i]) && Complete(flash[j]) ==> CounterOf(flash[i]) < CounterOf(flash[j])
  }

  /** With a single sector no block before block `b` in the order of use is free. */
  ghost predicate Filled(g: Geometry, flash: Flash, b: nat)
    requires Shaped(g, flash)
  {
    g.sectors == 1 ==>
      forall i :: 0 <= i < |flash| && Position(g, i) < Position(g, b) ==> !HeaderErased(flash[i])
  }

  ghost predicate OthersErased(g: Geometry, flash: Flash, b: nat)
    requires Shaped(g, flash)
  {
    forall i :: 0 <= i < |flash| && g.Sector(i) != g.Sector(b) ==> flash[i] == ErasedBlock(g.blockWords)
  }

  /** The log invariant of the flash itself; it survives power cuts at any flash operation. */
  ghost predicate Healthy(g: Geometry, flash: Flash) {
    && Shaped(g, flash)
    && (forall i :: 0 <= i < |flash| ==> Formatted(g, flash[i]))
    && (Best(g, flash).Some? ==>
         && Newest(g, flash, Best(g, flash).value)
         && OthersErased(g, flash, Best(g, flash).value)
         && Ascending(g, flash) && Filled(g, flash, Best(g, flash).value))
  }

  /** The fields a fresh constructor would set. */
  ghost function BootStore(g: Geometry, flash: Flash): Store
    requires Shaped(g, flash)
  {
    match Best(g, flash)
    case None => Store(0, 1, 0)
    case Some(b) => Store(b, Increment(CounterOf(flash[b])), SizeOf(flash[b]))
  }

  /** The flash after a reboot: unchanged if a complete block was found, erased otherwise. */
  ghost function AfterBoot(g: Geometry, flash: Flash): (after: Flash)
    requires Shaped(g, flash)
    ensures Shaped(g, after)
  {
    if Best(g, flash).Some? then flash else EraseSectors(g, flash, AllSectors(g))
  }

  /** What the log keeps whatever its counters are: free blocks are erased as a whole, and
      used ones lie in the sector of the current block. */
  ghost predicate Contained(g: Geometry, flash: Flash, current: nat) {
    && Shaped(g, flash) && current < |flash| && OthersErased(g, flash, current)
    && forall i :: 0 <= i < |flash| && HeaderErased(flash[i]) ==> flash[i] == ErasedBlock(g.blockWords)
  }

  /** The volatile fields are what a reboot would compute, and a flash without any
      complete block has just been erased. */
  ghost predicate Settled(g: Geometry, flash: Flash, store: Store) {
    && Healthy(g, flash)
    && store == BootStore(g, flash)
    && (Best(g, flash).None? ==> AllErased(g, flash))
  }

  /** The boot scan over arbitrary contents: nothing is selected exactly when no block has
      the magic and a counter; otherwise a block of maximal counter is, the first of them if
      there are several, with its size, and the next counter is above the counter of every
      complete block. */
  lemma BootScanMeaning(g: Geometry, flash: Flash)
    requires Shaped(g, flash)
    ensures Best(g, flash).None? <==> NoneComplete(g, flash)
    ensures var store := BootStore(g, flash);
      Best(g, flash).Some? ==>
        && Complete(flash[store.current]) && store.size == SizeOf(flash[store.current])
        && store.counter == CounterOf(flash[store.current]) + 1
        && (forall i :: 0 <= i < |flash| && Complete(flash[i]) ==> CounterOf(flash[i]) < store.counter)
        && (forall i :: 0 <= i < store.current && Complete(flash[i]) ==> CounterOf(flash[i]) + 1 < store.counter)
    ensures Best(g, flash).None? ==> BootStore(g, flash) == Store(0, 1, 0)
  {
    var best := Scan(g, flash, |flash|);
    if best.Some? {
      assert Complete(flash[best.value]);
    }
  }

  /** What the scan accepts as a block, in the words of the flash. */
  lemma CompleteInWords(g: Geometry, flash: Flash, i: nat)
    requires Shaped(g, flash) && i < |flash|
    ensures var block, n := flash[i], g.blockWords;
      Complete(block) <==> block[0] == 0x0FEF_A13E && block[1] == 0x74BD_C5A5 && block[n - 1] != 0xFFFF_FFFF
    ensures HeaderErased(flash[i]) <==> flash[i][0] == 0xFFFF_FFFF && flash[i][1] == 0xFFFF_FFFF
    ensures SizeOf(flash[i]) == flash[i][g.blockWords - 2] && CounterOf(flash[i]) == flash[i][g.blockWords - 1]
  {
  }
}
