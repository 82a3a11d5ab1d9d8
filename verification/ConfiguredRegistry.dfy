/** The registry as it is configured for its board, and a reboot of a whole registry: what a
    client writes is there again after a flush and a power cycle. */
module ConfiguredRegistry {
  import opened Words
  import opened BlockFormat
  import opened BlockLog
  import opened Recovery
  import opened FlashDriver
  import opened FlashView
  import opened RegistryBuffer
  import opened InternalRegistry

  /** `INTERNAL_REGISTRY_START_ADDRESS`, `_NUM_SECTOR` and `_LOGICAL_BLOCK_SIZE`. */
  const START_ADDRESS := 0x081C_0000
  const NUM_SECTOR := 2
  const LOGICAL_BLOCK_SIZE := 512

  ghost function Configuration(): Geometry {
    Shape(2, 256, 512, 128)
  }

  lemma ConfigurationTiles()
    ensures var g := Configuration();
      Tiled(g) && Span(g.blocks, g.blockWords) == 0x1_0000 && MaxPayload(g.blockWords) == 496
  {
    SpanIsProduct(256, 128);
    SpanIsProduct(512, 128);
  }

  /** The two sectors are the seventh and eighth of the second bank. */
  lemma SectorsOfRegistry(halError: nat, i: nat)
    requires halError != 6 && halError != 7 && i < NUM_SECTOR
    ensures SectorNumber(START_ADDRESS + SECTOR_SIZE * i, halError) != halError
  {
  }

  /** A device fresh from the factory. */
  method ErasedDevice(halError: nat) returns (driver: InternalFlashDriver)
    ensures fresh(driver) && fresh(driver.memory) && fresh(driver.scratch) && driver.Valid()
    ensures driver.base == START_ADDRESS && driver.halError == halError && driver.memory.Length == 0x1_0000
    ensures forall i :: 0 <= i < driver.memory.Length ==> driver.memory[i] == UINT32_MAX
  {
    var memory := new Word[0x1_0000](_ => UINT32_MAX);
    driver := new InternalFlashDriver(START_ADDRESS, halError, memory);
  }

  lemma ErasedView(g: Geometry, memory: seq<Word>)
    requires Sized(g, memory) && forall i :: 0 <= i < |memory| ==> memory[i] == UINT32_MAX
    ensures AllErased(g, View(g, memory))
  {
    forall i | 0 <= i < g.blocks
      ensures BlockAt(g, memory, i) == ErasedBlock(g.blockWords)
    {
      Below(i, g.blocks, g.blockWords);
    }
  }

  /** The first power-on of such a device: an empty registry. */
  method FirstBoot(driver: InternalFlashDriver) returns (registry: InternalRegistry)
    requires driver.Valid() && driver.base == START_ADDRESS && driver.memory.Length == 0x1_0000
    requires driver.halError != 6 && driver.halError != 7
    requires forall i :: 0 <= i < driver.memory.Length ==> driver.memory[i] == UINT32_MAX
    modifies driver.memory, driver`trace
    ensures fresh(registry) && fresh(registry.flash) && fresh(registry.flash.cache) && fresh(registry.buffer)
    ensures registry.flash.driver == driver && registry.flash.g == Configuration()
    ensures registry.Valid() && registry.flash.Located() && registry.buffer.Length == 496
    ensures registry.Contents() == [] && !registry.needUpdate && registry.lockCount == 0
    ensures Settled(registry.flash.g, registry.flash.Flash(), registry.flash.Fields())
    ensures registry.flash.counter == 1
  {
    ConfigurationTiles();
    ghost var g := Configuration();
    ErasedView(g, driver.memory[..]);
    AllErasedIsHealthy(g, View(g, driver.memory[..]));
    NothingCompleteIsEmpty(g, View(g, driver.memory[..]));
    forall i | 0 <= i < NUM_SECTOR
      ensures SectorNumber(driver.base + SECTOR_SIZE * i, driver.halError) != driver.halError
    {
      SectorsOfRegistry(driver.halError, i);
    }
    registry := new InternalRegistry(driver, NUM_SECTOR, LOGICAL_BLOCK_SIZE, g);
  }

  /** Power off and on again: a new registry over the same flash, with what the flash holds. */
  method Reboot(registry: InternalRegistry) returns (again: InternalRegistry)
    requires registry.Separate() && Healthy(registry.flash.g, registry.flash.Flash())
    requires Sound(Recovered(registry.flash.g, registry.flash.Flash()))
    modifies registry.flash.driver.memory, registry.flash.driver`trace
    ensures fresh(again) && fresh(again.flash) && fresh(again.flash.cache) && fresh(again.buffer)
    ensures again.flash.driver == registry.flash.driver && again.flash.g == registry.flash.g
    ensures again.Valid() && again.flash.Located() && !again.needUpdate && again.lockCount == 0
    ensures again.Contents() == Recovered(registry.flash.g, old(registry.flash.Flash()))
    ensures Settled(again.flash.g, again.flash.Flash(), again.flash.Fields())
  {
    var manager := registry.flash;
    WholeSectors(manager.firstSector);
    again := new InternalRegistry(manager.driver, manager.numSector, manager.blockSize, manager.g);
  }

  lemma WholeSectors(sectors: nat)
    ensures SECTOR_SIZE * sectors % SECTOR_SIZE == 0
  {
  }

  /** Flush, then lose power: the new registry holds what the old one did. */
  method SaveAndReboot(registry: InternalRegistry) returns (again: InternalRegistry)
    requires registry.Valid() && registry.flash.Located() && registry.needUpdate
    requires Settled(registry.flash.g, registry.flash.Flash(), registry.flash.Fields())
    requires registry.FlushPlan().stamp != UINT32_MAX
    modifies registry, registry.flash, registry.flash.driver.memory, registry.flash.driver.scratch
    modifies registry.flash.driver`trace, registry.flash.cache
    ensures fresh(again) && again.Valid() && again.flash.driver == registry.flash.driver
    ensures again.Contents() == old(registry.Contents())
    ensures Settled(again.flash.g, again.flash.Flash(), again.flash.Fields())
  {
    FlushAtomically(registry);
    again := Reboot(registry);
  }

  /** On the configured device, from the factory on: a value written once is in the registry
      after a flush and a reboot. */
  method WriteSaveReboot(halError: nat, name: Bytes, value: Bytes) returns (again: InternalRegistry)
    requires halError != 6 && halError != 7
    requires |name| < 0x100 && |value| < 0x100 && |PackEntry(Entry(name, value))| <= 496
    ensures fresh(again) && again.Valid() && MapOf(again.Contents()) == map[name := value]
  {
    var driver := ErasedDevice(halError);
    var registry := FirstBoot(driver);
    WriteRefinesUpdate([], Entry(name, value), 496);
    registry.Write(name, value);
    assert MapOf(registry.Contents()) == map[name := value];
    again := SaveAndReboot(registry);
  }
}
