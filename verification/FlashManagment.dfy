/** The flash manager itself: addresses, fields and the cache buffer, over the driver. */
module FlashManagment {
  import opened Words
  import opened FlashDriver
  import opened BlockFormat
  import opened BlockLog
  import opened FlashView
  import opened Arithmetic

  class FlashManagment {
    const driver: InternalFlashDriver
    const startAddress: nat
    const numSector: nat
    const blockSize: nat
    const totalSize: nat
    const cache: array<Byte>
    var counter: Word
    var currentAddress: Word
    var size: Word

    ghost const g: Geometry
    /** The start address, in sectors. */
    ghost const firstSector: nat
    /** The index of the block at `currentAddress`. */
    ghost var current: nat

    /** What the constructor's parameters must satisfy, and what they fix for good. */
    ghost predicate Configured() {
      && driver.Valid() && driver.base == startAddress
      && BANK_1 <= startAddress && startAddress == SECTOR_SIZE * firstSector
      && g.sectors == numSector && blockSize == 4 * g.blockWords && Tiled(g)
      && totalSize == numSector * SECTOR_SIZE && startAddress + totalSize <= FLASH_END
      && 4 * driver.memory.Length == totalSize
      && driver.memory.Length == Span(g.blocks, g.blockWords)
      && cache.Length == blockSize
      && (cache as object) != driver.memory && (cache as object) != driver.scratch
      && (forall i :: 0 <= i < numSector ==>
            SectorNumber(startAddress + SECTOR_SIZE * i, driver.halError) != driver.halError)
    }

    ghost predicate Valid()
      reads this`current, this`currentAddress
    {
      Configured() && Located()
    }

    /** `currentAddress` is the address of a block, the one at `current`. */
    ghost predicate Located()
      reads this`current, this`currentAddress
    {
      current < g.blocks && currentAddress == AddressOf(current)
    }

    /** The byte address of block `i`. */
    ghost function AddressOf(i: nat): nat {
      startAddress + 4 * Span(i, g.blockWords)
    }

    ghost function Flash(): Flash
      requires driver.memory.Length == Span(g.blocks, g.blockWords)
      reads driver.memory
      ensures Shaped(g, Flash())
    {
      View(g, driver.memory[..])
    }

    ghost function Fields(): Store
      reads this`current, this`counter, this`size
    {
      Store(current, counter, size)
    }

    /** The trace has grown from `before` by exactly these images. */
    ghost predicate Recorded(before: seq<seq<Word>>, trace: seq<seq<Word>>, images: seq<Flash>) {
      && before <= trace && |trace| == |before| + |images|
      && forall k :: 0 <= k < |images| ==> Pictures(trace[|before| + k], images[k])
    }

    ghost predicate Pictures(memory: seq<Word>, flash: Flash) {
      |memory| == Span(g.blocks, g.blockWords) && View(g, memory) == flash
    }

    /** Two recordings, one after the other. */
    lemma RecordedInTwoParts(before: seq<seq<Word>>, middle: seq<seq<Word>>, trace: seq<seq<Word>>,
                             first: seq<Flash>, second: seq<Flash>)
      requires Recorded(before, middle, first) && Recorded(middle, trace, second)
      ensures Recorded(before, trace, first + second)
    {
      forall k | 0 <= k < |first + second|
        ensures Pictures(trace[|before| + k], (first + second)[k])
      {
        if k < |first| {
          assert Pictures(middle[|before| + k], first[k]);
        } else {
          assert Pictures(trace[|middle| + (k - |first|)], second[k - |first|]);
        }
      }
    }

    /** Since the flash was `flash` and the trace `before`, these sectors have been erased,
        one after the other, and nothing else has changed. */
    ghost predicate HasErased(flash: Flash, before: seq<seq<Word>>, sectors: seq<nat>)
      requires Configured() && Shaped(g, flash)
      reads driver.memory, driver`trace
    {
      Flash() == EraseSectors(g, flash, sectors) && Recorded(before, driver.trace, EraseImages(g, flash, sectors))
    }

    lemma BlockAddress(i: nat)
      requires Configured() && i < g.blocks
      ensures AddressOf(i) % 4 == 0 && startAddress <= AddressOf(i) <= UINT32_MAX
      ensures Span(i, g.blockWords) + g.blockWords <= driver.memory.Length
      ensures AddressOf(i + 1) == AddressOf(i) + blockSize && 4 * (blockSize / 4) == blockSize
    {
      Below(i, g.blocks, g.blockWords);
      WordAligned(driver.base, Span(i, g.blockWords));
      WordAligned(0, g.blockWords);
    }

    /** Word `offset` of block `i`, by its address. */
    lemma WordAddress(i: nat, offset: nat)
      requires Configured() && i < g.blocks && offset <= g.blockWords
      ensures var address := AddressOf(i) + 4 * offset;
        && address % 4 == 0 && driver.Index(address) == Span(i, g.blockWords) + offset
        && driver.Covers(address, g.blockWords - offset)
    {
      Below(i, g.blocks, g.blockWords);
      assert AddressOf(i) + 4 * offset == driver.base + 4 * (Span(i, g.blockWords) + offset);
      WordAligned(driver.base, Span(i, g.blockWords) + offset);
    }

    lemma RegionEnd()
      requires Configured()
      ensures AddressOf(g.blocks) == startAddress + totalSize && AddressOf(0) == startAddress
      ensures totalSize / blockSize == g.blocks
    {
      BlocksInRegion(g.blocks, g.blockWords);
    }

    static lemma BlocksInRegion(blocks: nat, words: nat)
      requires 0 < words
      ensures 4 * Span(blocks, words) / (4 * words) == blocks
    {
      SpanScales(blocks, words);
      QuotientOfSpan(blocks, 4 * words);
    }

    static lemma {:induction false} SpanScales(n: nat, width: nat)
      ensures 4 * Span(n, width) == Span(n, 4 * width)
    {
      if n > 0 {
        SpanScales(n - 1, width);
      }
    }

    static lemma {:induction false} QuotientOfSpan(n: nat, size: nat)
      requires 0 < size
      ensures Span(n, size) / size == n
    {
      if n > 0 {
        QuotientOfSpan(n - 1, size);
        OneMore(Span(n - 1, size), size);
      }
    }

    constructor (driver: InternalFlashDriver, numSector: nat, blockSize: nat, cache: array<Byte>, ghost g: Geometry)
      requires driver.Valid() && BANK_1 <= driver.base && driver.base % SECTOR_SIZE == 0
      requires g.sectors == numSector && blockSize == 4 * g.blockWords && Tiled(g)
      requires driver.base + numSector * SECTOR_SIZE <= FLASH_END
      requires 4 * driver.memory.Length == numSector * SECTOR_SIZE
      requires driver.memory.Length == Span(g.blocks, g.blockWords) && cache.Length == blockSize
      requires (cache as object) != driver.memory && (cache as object) != driver.scratch
      requires forall i :: 0 <= i < numSector ==>
        SectorNumber(driver.base + SECTOR_SIZE * i, driver.halError) != driver.halError
      modifies driver.memory, driver`trace, cache
      ensures Valid() && this.driver == driver && this.cache == cache && this.g == g
      ensures Sized(g, old(driver.memory[..])) && Fields() == BootStore(g, View(g, old(driver.memory[..])))
      ensures Flash() == AfterBoot(g, View(g, old(driver.memory[..])))
    {
      this.driver := driver;
      this.startAddress := driver.base;
      this.numSector := numSector;
      this.blockSize := blockSize;
      this.totalSize := numSector * SECTOR_SIZE;
      this.cache := cache;
      this.g := g;
      this.firstSector := driver.base / SECTOR_SIZE;
      this.currentAddress := 0;
      new;
      FindLastLogicalBlock();
    }

    /** The fields hold what the scan of the first `n` blocks has found. */
    ghost predicate Scanned(flash: Flash, n: nat)
      requires Shaped(g, flash) && n <= g.blocks
      reads this
    {
      && (counter == UINT32_MAX <==> Scan(g, flash, n).None?)
      && (counter != UINT32_MAX ==>
           && Scan(g, flash, n) == Some(current) && currentAddress == AddressOf(current)
           && counter == CounterOf(flash[current]) && size == SizeOf(flash[current]))
    }

    /** One step of the scan, in terms of the block looked at. */
    static lemma ScanOneMore(g: Geometry, flash: Flash, n: nat)
      requires Shaped(g, flash) && n < |flash|
      ensures Scan(g, flash, n + 1) ==
        if Complete(flash[n])
           && (Scan(g, flash, n).None? || CounterOf(flash[n]) > CounterOf(flash[Scan(g, flash, n).value]))
        then Some(n) else Scan(g, flash, n)
    {
    }

    /** One iteration of the boot scan. */
    method ScanBlock(address: nat, ghost flash: Flash, ghost i: nat)
      requires Configured() && i < g.blocks && address == AddressOf(i)
      requires flash == Flash() && Scanned(flash, i)
      modifies this
      ensures Scanned(flash, i + 1)
    {
      BlockAddress(i);
      ScanOneMore(g, flash, i);
      var low, high := ReadStartHeader(address, i);
      if low == MAGIC_LOW && high == MAGIC_HIGH {
        var blockBytes, blockCounter := ReadEndHeader(address, i);
        if blockCounter != UINT32_MAX {
          if counter == UINT32_MAX || blockCounter > counter {
            counter := blockCounter;
            currentAddress := address;
            size := blockBytes;
            current := i;
          }
        }
      }
    }

    /** The boot scan, over arbitrary flash contents. It restarts the flash exactly when no
        block is complete, and otherwise adopts the block with the highest counter. */
    method FindLastLogicalBlock()
      requires Configured()
      modifies this, driver.memory, driver`trace, cache
      ensures Located() && Fields() == BootStore(g, old(Flash()))
      ensures Best(g, old(Flash())).Some? ==>
        Flash() == old(Flash()) && cache[..] == old(cache[..]) && driver.trace == old(driver.trace)
      ensures Best(g, old(Flash())).None? ==>
        && HasErased(old(Flash()), old(driver.trace), AllSectors(g))
        && cache[..] == CacheImage(old(cache[..]), [], 0)
    {
      ghost var flash := Flash();
      RegionEnd();
      var address := startAddress;
      counter := UINT32_MAX;
      for i := 0 to totalSize / blockSize
        invariant address == AddressOf(i) && Scanned(flash, i)
        invariant driver.memory[..] == old(driver.memory[..])
        invariant driver.trace == old(driver.trace) && cache[..] == old(cache[..])
      {
        ScanBlock(address, flash, i);
        BlockAddress(i);
        address := address + 4 * (blockSize / 4);
      }
      if counter == UINT32_MAX {
        RestartFlash();
      } else {
        counter := Increment(counter);
      }
    }

    /** Reads the start header of block `i`. */
    method ReadStartHeader(address: nat, ghost i: nat) returns (low: Word, high: Word)
      requires Configured() && i < g.blocks && address == AddressOf(i)
      ensures low == Flash()[i][0] && high == Flash()[i][1]
    {
      WordAddress(i, 0);
      var header := new Word[2];
      var _ := driver.Read(address, header, 2);
      low, high := header[0], header[1];
    }

    /** Reads the end header of block `i`. */
    method ReadEndHeader(address: nat, ghost i: nat) returns (blockBytes: Word, blockCounter: Word)
      requires Configured() && i < g.blocks && address == AddressOf(i)
      ensures blockBytes == SizeOf(Flash()[i]) && blockCounter == CounterOf(Flash()[i])
    {
      var offset := (blockSize - HEADER) / 4;
      assert offset == g.blockWords - 2;
      WordAddress(i, offset);
      var header := new Word[2];
      var _ := driver.Read(address + 4 * offset, header, 2);
      blockBytes, blockCounter := header[0], header[1];
    }

    /** Fills the cache with magic, data, size and counter, and advances the counter. */
    method WriteToCache(data: seq<Byte>)
      requires Configured() && HEADER + |data| <= blockSize
      modifies this`counter, this`size, cache
      ensures cache[..] == CacheImage(old(cache[..]), data, old(counter))
      ensures counter == (old(counter) + 1) % 0x1_0000_0000 == Increment(old(counter)) && size == |data|
    {
      MemCopy(cache, 0, BytesOf([MAGIC_LOW, MAGIC_HIGH]));
      MemCopy(cache, HEADER, data);
      var bytes: Word := |data|;
      MemCopy(cache, blockSize - HEADER, BytesOf([bytes, counter]));
      counter := Increment(counter);
      size := bytes;
    }

    /** Erases the sector around an address of sector `sector` of the registry. */
    method EraseSector(address: nat, ghost sector: nat)
      requires Configured() && sector < numSector
      requires startAddress + SECTOR_SIZE * sector <= address < startAddress + SECTOR_SIZE * (sector + 1)
      modifies driver.memory, driver`trace
      ensures Flash() == BlockLog.EraseSector(g, old(Flash()), sector)
      ensures driver.trace == old(driver.trace) + [driver.memory[..]]
    {
      SectorAddress(address, sector);
      ViewOfErased(g, driver.memory[..], sector);
      var _ := driver.Earse(address);
    }

    /** One more erase after those of `done`, with its image. */
    method EraseNext(address: nat, ghost sector: nat,
                     ghost flash: Flash, ghost before: seq<seq<Word>>, ghost done: seq<nat>)
      requires Configured() && sector < numSector
      requires startAddress + SECTOR_SIZE * sector <= address < startAddress + SECTOR_SIZE * (sector + 1)
      requires Shaped(g, flash) && HasErased(flash, before, done)
      modifies driver.memory, driver`trace
      ensures HasErased(flash, before, done + [sector])
    {
      ghost var middle := driver.trace;
      EraseSector(address, sector);
      OneMoreErase(g, flash, done, sector);
      RecordedInTwoParts(before, middle, driver.trace, EraseImages(g, flash, done), [Flash()]);
    }

    lemma SectorAddress(address: nat, sector: nat)
      requires Configured() && sector < numSector
      requires startAddress + SECTOR_SIZE * sector <= address < startAddress + SECTOR_SIZE * (sector + 1)
      ensures SectorStart(address) == startAddress + SECTOR_SIZE * sector
      ensures driver.Index(SectorStart(address)) == sector * 0x8000
      ensures driver.Covers(SectorStart(address), 0x8000)
      ensures SectorNumber(address, driver.halError) != driver.halError
    {
      SectorAround(firstSector + sector, address);
      SameSectorNumber(firstSector + sector, address, driver.halError);
      assert SectorNumber(startAddress + SECTOR_SIZE * sector, driver.halError) != driver.halError;
    }

    /** The erasing loop of the restart. */
    method EraseAll()
      requires Configured()
      modifies driver.memory, driver`trace
      ensures HasErased(old(Flash()), old(driver.trace), AllSectors(g))
    {
      ghost var flash, before, all := Flash(), driver.trace, AllSectors(g);
      assert all[..0] == [];
      for i := 0 to numSector
        invariant HasErased(flash, before, all[..i])
      {
        EraseNext(startAddress + i * SECTOR_SIZE, i, flash, before, all[..i]);
        assert all[..i + 1] == all[..i] + [i];
      }
      assert all[..numSector] == all;
    }

    /** Erases every sector of the registry and starts the log afresh at its first block. */
    method RestartFlash()
      requires Configured()
      modifies this, driver.memory, driver`trace, cache
      ensures Located() && Fields() == Store(0, 1, 0)
      ensures HasErased(old(Flash()), old(driver.trace), AllSectors(g))
      ensures cache[..] == CacheImage(old(cache[..]), [], 0)
    {
      EraseAll();
      RegionEnd();
      counter := 0;
      currentAddress, current := startAddress, 0;
      size := 0;
      WriteToCache([]);
    }

    lemma AddressesDiffer(i: nat, j: nat)
      requires Configured() && i < j
      ensures AddressOf(i) < AddressOf(j)
    {
      Below(i, j, g.blockWords);
    }

    lemma AddressNamesBlock(i: nat, j: nat)
      requires Configured()
      ensures AddressOf(i) == AddressOf(j) <==> i == j
    {
      if i < j {
        AddressesDiffer(i, j);
      } else if j < i {
        AddressesDiffer(j, i);
      }
    }

    /** Steps to the next block of the ring. */
    method NextBlock()
      requires Valid()
      modifies this`currentAddress, this`current
      ensures Located() && current == Ahead(g, old(current), 1)
    {
      BlockAddress(current);
      RegionEnd();
      if current + 1 < g.blocks {
        AddressesDiffer(current + 1, g.blocks);
        BlockAddress(current + 1);
      }
      currentAddress := currentAddress + blockSize;
      current := current + 1;
      var endAddress := startAddress + totalSize;
      if currentAddress == endAddress {
        currentAddress := startAddress;
        current := 0;
      }
    }

    /** The walk from block `from` has come this far and found nothing yet. */
    ghost predicate Walked(flash: Flash, from: nat, distance: nat)
      requires Shaped(g, flash) && from < g.blocks
      reads this`current
    {
      && distance < g.blocks && current == Ahead(g, from, distance)
      && FindGood(g, flash, from) == FoundAt(g, from, Walk(g, flash, from, distance + 1))
    }

    /** Steps to the next block and looks at its header. */
    method ProbeNext(ghost flash: Flash, ghost from: nat, ghost distance: nat) returns (free: bool)
      requires Valid() && from < g.blocks && flash == Flash() && Walked(flash, from, distance)
      modifies this`currentAddress, this`current
      ensures Located() && flash == Flash()
      ensures if free then FindGood(g, flash, from) == Some(current)
              else if current == from then FindGood(g, flash, from) == None
              else Walked(flash, from, distance + 1)
    {
      NextBlock();
      var low, high := ReadStartHeader(currentAddress, current);
      free := low == UINT32_MAX && high == UINT32_MAX;
      WalkStep(g, flash, from, distance + 1);
    }

    /** The ring walk: stop at the first block, after the current one, whose header is erased. */
    method FindGoodBlock() returns (found: bool)
      requires Valid()
      modifies this`currentAddress, this`current
      ensures Located()
      ensures FindGood(g, Flash(), old(current)) == if found then Some(current) else None
      ensures !found ==> current == old(current)
    {
      var firstAddress := currentAddress;
      ghost var flash, from, distance := Flash(), current, 0;
      while true
        invariant Located() && flash == Flash() && Walked(flash, from, distance)
        decreases g.blocks - distance
      {
        var free := ProbeNext(flash, from, distance);
        if free {
          return true;
        }
        AddressNamesBlock(from, current);
        if firstAddress == currentAddress {
          return false;
        }
        distance := distance + 1;
      }
    }

    predicate InRegion(address: nat) {
      startAddress <= address < startAddress + totalSize
    }

    /** The sector loop. For an address of the region it compares quotients by the sector
        size; any other first address makes it restart the flash. */
    method IsAdressInSameSector(first: nat, second: nat) returns (same: bool)
      requires Valid()
      modifies this, driver.memory, driver`trace, cache
      ensures Located()
      ensures InRegion(first) ==>
        && same == (InRegion(second) && (first - startAddress) / SECTOR_SIZE == (second - startAddress) / SECTOR_SIZE)
        && Fields() == old(Fields()) && Flash() == old(Flash()) && cache[..] == old(cache[..])
        && driver.trace == old(driver.trace)
      ensures !InRegion(first) ==>
        && same && Fields() == Store(0, 1, 0) && Flash() == EraseSectors(g, old(Flash()), AllSectors(g))
    {
      for i := 0 to numSector
        invariant InRegion(first) ==> startAddress + i * SECTOR_SIZE <= first
      {
        var sector := startAddress + i * SECTOR_SIZE;
        if sector <= first < sector + SECTOR_SIZE {
          assert (first - startAddress) / SECTOR_SIZE == i;
          return sector <= second < sector + SECTOR_SIZE;
        }
      }
      RestartFlash();
      return true;
    }

    lemma SectorOfAddress(i: nat)
      requires Configured() && i < g.blocks
      ensures InRegion(AddressOf(i)) && (AddressOf(i) - startAddress) / SECTOR_SIZE == g.Sector(i)
      ensures g.Sector(i) < numSector
      ensures startAddress + SECTOR_SIZE * g.Sector(i) <= AddressOf(i) < startAddress + SECTOR_SIZE * (g.Sector(i) + 1)
    {
      SectorInRange(g, i);
      BlockAddress(i);
      BlockInSector(g, i, g.Sector(i));
    }

    /** Comparing the quotients of two block addresses decides the erase between them. */
    lemma CrossingByAddress(i: nat, j: nat)
      requires Configured() && i < g.blocks && j < g.blocks
      ensures InRegion(AddressOf(i)) && InRegion(AddressOf(j)) && g.Sector(i) < numSector
      ensures startAddress + SECTOR_SIZE * g.Sector(i) <= AddressOf(i) < startAddress + SECTOR_SIZE * (g.Sector(i) + 1)
      ensures Crossing(g, i, j) ==
        if (AddressOf(i) - startAddress) / SECTOR_SIZE == (AddressOf(j) - startAddress) / SECTOR_SIZE then []
        else [g.Sector(i)]
    {
      SectorOfAddress(i);
      SectorOfAddress(j);
    }

    /** What a plan erases before it looks at sectors: everything if it restarts. */
    ghost function Opening(plan: Plan): seq<nat> {
      if plan.restarted then AllSectors(g) else []
    }

    /** The first half of `Write`: find a block, or restart and take the second one. */
    method PickBlock() returns (lastAddress: nat, ghost last: nat)
      requires Valid()
      modifies this, driver.memory, driver`trace, cache
      ensures Located() && last < g.blocks && lastAddress == AddressOf(last)
      ensures var plan := PlanWrite(g, old(Flash()), old(Fields()));
        && current == plan.target && counter == plan.stamp
        && cache[..] == (if plan.restarted then CacheImage(old(cache[..]), [], 0) else old(cache[..]))
        && plan.erases == Opening(plan) + Crossing(g, last, current)
        && HasErased(old(Flash()), old(driver.trace), Opening(plan))
    {
      lastAddress, last := currentAddress, current;
      var found := FindGoodBlock();
      if !found {
        RestartFlash();
        NextBlock();
        lastAddress, last := startAddress, 0;
        RegionEnd();
      }
    }

    /** The second half: erase the sector of the last address unless the new block shares it. */
    method LeaveSector(lastAddress: nat, ghost last: nat,
                       ghost flash: Flash, ghost before: seq<seq<Word>>, ghost opening: seq<nat>)
      requires Valid() && last < g.blocks && lastAddress == AddressOf(last)
      requires Shaped(g, flash) && HasErased(flash, before, opening)
      modifies this, driver.memory, driver`trace, cache
      ensures Located() && Fields() == old(Fields()) && cache[..] == old(cache[..])
      ensures HasErased(flash, before, opening + Crossing(g, last, current))
    {
      CrossingByAddress(last, current);
      ghost var all := opening + Crossing(g, last, current);
      var same := IsAdressInSameSector(lastAddress, currentAddress);
      assert all == if same then opening else opening + [g.Sector(last)];
      assert HasErased(flash, before, opening);
      if !same {
        EraseNext(lastAddress, g.Sector(last), flash, before, opening);
      }
    }

    /** Prepares a write: picks the block, fills the cache, and erases the sector that is
        left behind. An oversized buffer is only reported, so all that is asked of the
        caller is that the copy stays inside the cache. */
    method Write(buffer: seq<Byte>)
      requires Valid() && HEADER + |buffer| <= blockSize
      modifies this, driver.memory, driver`trace, cache
      ensures Located()
      ensures var plan := PlanWrite(g, old(Flash()), old(Fields()));
        && Fields() == Store(plan.target, Increment(plan.stamp), |buffer|)
        && cache[..] == CacheAfterWrite(g, old(cache[..]), plan, buffer)
        && HasErased(old(Flash()), old(driver.trace), plan.erases)
    {
      ghost var flash, before := Flash(), driver.trace;
      ghost var plan := PlanWrite(g, flash, Fields());
      var lastAddress, last := PickBlock();
      WriteToCache(buffer);
      assert HasErased(flash, before, Opening(plan));
      LeaveSector(lastAddress, last, flash, before, Opening(plan));
    }

    lemma WholeBlockIsAligned(i: nat)
      requires Configured() && i < g.blocks
      ensures Span(i, g.blockWords) % 8 == 0
      ensures ProgramSteps(Span(i, g.blockWords), g.blockWords) == g.Steps()
    {
      SpanIsAligned(i, g.blockWords);
    }

    static lemma {:induction false} SpanIsAligned(n: nat, width: nat)
      requires width % 8 == 0
      ensures Span(n, width) % 8 == 0
    {
      if n > 0 {
        SpanIsAligned(n - 1, width);
      }
    }

    /** Each image of the driver's write, as blocks: the block is in up to a flash word. */
    lemma ProgramImage(memory: seq<Word>, i: nat, image: Block, steps: nat)
      requires Configured() && Sized(g, memory) && i < g.blocks && |image| == g.blockWords && 1 <= steps <= g.Steps()
      ensures Span(i, g.blockWords) + g.blockWords <= |memory|
      ensures Pictures(Programmed(memory, Span(i, g.blockWords),
                                  image[..WordsDone(Span(i, g.blockWords), g.blockWords, steps)]),
                       ProgramImages(g, View(g, memory), i, image)[steps - 1])
    {
      WholeBlockIsAligned(i);
      assert WordsDone(Span(i, g.blockWords), g.blockWords, steps) == 8 * steps;
      ViewOfProgrammed(g, memory, i, image, 8 * steps);
      Below(i, g.blocks, g.blockWords);
    }

    /** Programs the cache into the current block. */
    method WriteToFlash()
      requires Valid()
      modifies driver.memory, driver.scratch, driver`trace
      ensures var image := WordsOf(cache[..]);
        && Flash() == old(Flash())[current := Partial(old(Flash())[current], image, g.blockWords)]
        && Recorded(old(driver.trace), driver.trace, ProgramImages(g, old(Flash()), current, image))
    {
      ghost var memory, before := driver.memory[..], driver.trace;
      var image := WordsOf(cache[..]);
      WordAddress(current, 0);
      var _ := driver.Write(currentAddress, image);
      ViewOfProgrammed(g, memory, current, image, g.blockWords);
      assert image[..g.blockWords] == image;
      RecordedProgram(before, driver.trace, memory, current, image);
    }

    /** The images of the driver's write are those of programming the block. */
    lemma RecordedProgram(before: seq<seq<Word>>, trace: seq<seq<Word>>, memory: seq<Word>, i: nat, image: Block)
      requires Configured() && Sized(g, memory) && i < g.blocks && |image| == g.blockWords && before <= trace
      requires Span(i, g.blockWords) + g.blockWords <= |memory|
      requires TracesWrite(trace[|before|..], memory, Span(i, g.blockWords), image)
      ensures Recorded(before, trace, ProgramImages(g, View(g, memory), i, image))
    {
      WholeBlockIsAligned(i);
      forall k | 0 <= k < g.Steps()
        ensures Pictures(trace[|before| + k], ProgramImages(g, View(g, memory), i, image)[k])
      {
        ProgramImage(memory, i, image, k + 1);
        assert trace[|before| + k] == trace[|before|..][k];
      }
    }

    function GetMaxFlashSize(): nat
      requires Configured()
    {
      blockSize - HEADER - HEADER
    }

    /** `ALIGN_TO_4`. */
    static function AlignTo4(a: nat): (r: nat)
      ensures a <= r < a + 4 && r % 4 == 0
    {
      if a % 4 == 0 then a else a + 4 - a % 4
    }

    /** Reads `words` words behind the start header into the cache. */
    method FetchToCache(words: nat)
      requires Valid() && 2 + words <= g.blockWords
      modifies cache
      ensures cache[..] == Splice(old(cache[..]), 0, BytesOf(Flash()[current])[HEADER..HEADER + 4 * words])
    {
      var raw := FetchWords(words);
      BytesOfSlice(Flash()[current], 2, words);
      MemCopy(cache, 0, BytesOf(raw[..]));
    }

    /** Reads `words` words behind the start header of the current block. */
    method FetchWords(words: nat) returns (raw: array<Word>)
      requires Valid() && 2 + words <= g.blockWords
      ensures fresh(raw) && raw[..] == Flash()[current][2..2 + words]
    {
      raw := new Word[words];
      WordAddress(current, 2);
      ghost var memory, at := driver.memory[..], Span(current, g.blockWords);
      var _ := driver.Read(currentAddress + HEADER, raw, words);
      assert driver.memory[..] == memory;
      SameWords(raw[..], memory, at + 2);
      WordsOfBlock(g, memory, current, 2, words);
    }

    static lemma SameWords(copy: seq<Word>, memory: seq<Word>, at: nat)
      requires at + |copy| <= |memory| && forall k :: 0 <= k < |copy| ==> copy[k] == memory[at + k]
      ensures copy == memory[at..at + |copy|]
    {
    }

    /** Copies the data of the current block out, through the cache. The read is rounded up
        to whole words and still fits the cache. */
    method Read(buffer: array<Byte>, count: nat) returns (done: nat)
      requires Valid() && count <= buffer.Length && buffer != cache
      requires (buffer as object) != driver.memory
      requires size != 0 && count <= size ==> HEADER + count <= blockSize
      modifies buffer, cache
      ensures done == if size == 0 || count > size then 0 else count
      ensures buffer[..] == Splice(old(buffer[..]), 0, BytesOf(Flash()[current])[HEADER..HEADER + done])
    {
      if size == 0 {
        return 0;
      }
      if count > size {
        return 0;
      }
      FetchToCache(AlignTo4(count) / 4);
      MemCopy(buffer, 0, cache[..count]);
      assert cache[..count] == BytesOf(Flash()[current])[HEADER..HEADER + count];
      return count;
    }

    static lemma BytesOfSlice(words: seq<Word>, at: nat, count: nat)
      requires at + count <= |words|
      ensures BytesOf(words[at..at + count]) == BytesOf(words)[4 * at..4 * at + 4 * count]
    {
    }
  }
}
