# Persistent registry: a verified model

This project models the persistent registry of ThreadX++ and proves what its flash log is
for: a map that survives power cuts. The whole stack is modelled as it is compiled with
`INTERNAL_REGISTRY_ENABLE`:

* `FlashDriver.dfy`: word reads, the three-phase write, sector erase. Programming a flash
  word of 8 words ANDs it into the array, erasing sets a sector to ones. The ghost field
  `trace` records the flash image after every program and every erase, which is what a
  power cut can leave.
* `BlockFormat.dfy`, `BlockLog.dfy`, `Recovery.dfy`: one logical block, the ring of blocks
  as values (boot scan, ring walk, the plan of a write, the log invariant), and crash
  recovery.
* `FlashView.dfy`, `FlashManagment.dfy`: the flash manager as a class over addresses, fields
  and the cache buffer, proved against the value-level log.
* `RegistryBuffer.dfy`, `InternalRegistry.dfy`: the packed byte buffer as a map, and the
  registry class with its lookups, updates, deletes and its flush.
* `PersistentRegistry.dfy`, `Safety.dfy`, `EndToEnd.dfy`: client tasks, the flush task, power
  cuts and reboots as one interleaving machine, its invariant, and its refinement of a map
  with checkpoints. The machine takes its steps with the same functions (`Written`,
  `Deleted`, `PlanWrite`, `CacheAfterWrite`, `EraseSector`, `BootStore`) that the contracts of
  the classes use.
* `FlushRun.dfy`: the undisturbed flush of that machine, step by step, against the contract of
  the class's flush, and when a change can be saved at all.
* `Tasks.dfy`: what the mutex and the flag owe the tasks, over every run: exclusion, whole
  calls, and no flush without a change.
* `CallRun.dfy`, `BootRun.dfy`: the undisturbed call and the undisturbed boot of the machine
  against the contracts of the classes, and a power cycle in any state of any run.
* `ConfiguredRegistry.dfy`: the registry as configured for its board, from an erased device
  through a write, a flush and a reboot.
* `Wear.dfy`: crash-free service, block positions and erase counts.
* `Words.dfy`, `Arithmetic.dfy`: 32-bit words and bytes as bounded naturals, bitwise AND, little
  endian; products and quotients.

Main results: `EndToEnd.RunRefines`, `EndToEnd.RebootYieldsSnapshot` and
`EndToEnd.NoLostUpdate` over every run; `Recovery.CrashAtomicity`, `Recovery.EraseIff` and
`Recovery.WriteSurvivesIff` for one write; `InternalRegistry.FlushAtomically` for the
imperative flush, joined to the machine by `FlushRun.UndisturbedFlush`;
`EndToEnd.MutexLeaksIff` and `FlushRun.ChangesAreSavedIff` for the rejected writes;
`Tasks.SnapshotsNeedChanges` and `Tasks.CallsRunWhole` for the tasks;
`FlashDriver.InternalFlashDriver.Write` for the driver; `Wear.WearBound` and
`Wear.NextWriteIsLost` for crash-free service.

With a single sector the log is refilled from block 1 on, so that block 0 is used last;
`BlockLog.Position` is that order, and the plain index otherwise.

Sector count, blocks per sector and words per block are symbolic (`BlockLog.Shape`): at
least one sector, at least two blocks in all, blocks of a multiple of 32 bytes. The classes
fix the sector size to 0x20000 bytes, as the driver does, and ask that blocks tile a sector
and that the region is sector-aligned inside the flash. One flash-word program and one
sector erase are atomic; power may fail between any two.

Where the code and its comments or its obvious intent differ, the model follows the code:

* `FlashManagment::Write` prints on an oversized buffer and goes on. The model asks only that
  the copy stays inside the cache; `BlockFormat.ReadBackIff` says exactly which sizes read back.
* `InternalRegistry::Write` counts only the value in its space test. That the entry fits is a
  precondition; `RegistryBuffer.SpaceTestSufficesIff` says when the test is enough, and
  `RegistryBuffer.SpaceTestAdmitsOverrun` gives an entry it wrongly lets through.
* Both early returns of `InternalRegistry::Write` keep the mutex. The class counts it
  (`lockCount`), and in the machine the caller stays owner. `EndToEnd.MutexLeaksIff` says that
  this is the only way to lose the mutex, `EndToEnd.RejectedWriteStopsSaving` what follows, and
  `FlushRun.ChangesAreSavedIff` when changes can still be saved.
* `InternalRegistry::Read` answers true on a size mismatch and copies nothing.
* A counter of UINT32_MAX marks an incomplete block, so the write stamped with it is lost:
  `Recovery.WriteSurvivesIff`. Runs are covered up to that write (`NoSentinel`), which
  `EndToEnd.BoundedWritesAvoidSentinel` puts at 2^32 - 2 flushes since the last restart at boot.
  The bound is tight: `Wear.NextWriteIsLost` and `Wear.SentinelIsReached`. Which writes survive
  after that, `Wear.LaterWriteSurvivesIff` says, and `Wear.WriteAfterSentinel` for the very next.
* `Earse` rejects a sector whose number equals `HAL_ERROR`; the value is a field of the
  driver model and the registry's sectors are assumed to avoid it.

## Model

| member | source | states |
|---|---|---|
| FlashDriver.InternalFlashDriver.Write | ThreadX++/src/InternalFlashDriver.cpp:62-143 | in range a bit of a word stays set iff it was set and is to be set, every other word is unchanged, and after each program step the flash is the finished write up to a flash-word boundary |
| Words.AndIsBitwise | ThreadX++/src/InternalFlashDriver.cpp:89-94 | a bit of the masked word is set exactly when it is set on both sides |
| FlashDriver.BitsDetermineFlash | ThreadX++/src/InternalFlashDriver.cpp:62-143 | the bits that a write leaves determine the flash, so that no other contents answer its contract |
| FlashDriver.InternalFlashDriver.WriteHead | ThreadX++/src/InternalFlashDriver.cpp:78-104 | the clipped, read-back head affects only the words of the write in its flash word |
| FlashDriver.InternalFlashDriver.WriteTail | ThreadX++/src/InternalFlashDriver.cpp:119-139 | the all-ones padding of the tail leaves the other words of its flash word alone |
| FlashDriver.InternalFlashDriver.Read | ThreadX++/src/InternalFlashDriver.cpp:31-49 | copies the words at the address, or nothing when the address is not word-aligned |
| FlashDriver.InternalFlashDriver.Earse | ThreadX++/src/InternalFlashDriver.cpp:150-187 | erases exactly the aligned sector around the address, unless its number reads as an error |
| FlashDriver.MaskedReadBack | ThreadX++/src/InternalFlashDriver.cpp:82-94 | programming a flash word that was read back and masked equals programming the masked words alone |
| FlashDriver.PaddingIsNeutral | ThreadX++/src/InternalFlashDriver.cpp:123-133 | all-ones padding changes no word |
| FlashDriver.TracesHeadAndRest | ThreadX++/src/InternalFlashDriver.cpp:101-139 | head image and later images together have the torn-write shape of one write |
| FlashDriver.SectorTableIsDivision | ThreadX++/src/InternalFlashDriver.cpp:160-163 | bank and table entry name the 0x20000-aligned sector around the address |
| FlashDriver.SectorsAgree | ThreadX++/src/InternalFlashDriver.cpp:202-240 | two addresses share bank and sector number exactly when the flash manager's quotient comparison says so |
| BlockFormat.CacheImageFields | ThreadX++/src/FlashManagment.cpp:210-226 | a legal cache image reads back as magic, size, counter and the data |
| BlockFormat.CacheImageBytes | ThreadX++/src/FlashManagment.cpp:210-226 | the cache buffer byte for byte: the 64-bit magic lowest byte first, the data, what was there before, the size, the counter |
| Words.BitsOfWords | ThreadX++/src/FlashManagment.cpp:232-236 | the words that are programmed are the bytes of the cache, lowest byte first, bit by bit |
| BlockFormat.ReadBackIff | ThreadX++/src/FlashManagment.cpp:143-149 | data of a size comes back for all contents if and only if the size leaves room for both headers |
| BlockFormat.TornWriteShape | ThreadX++/src/FlashManagment.cpp:232-236 | a block programmed flash word by flash word is erased, then torn with counter UINT32_MAX, then the image |
| BlockLog.BootScanMeaning | ThreadX++/src/FlashManagment.cpp:55-103 | over any contents: nothing selected iff no block is complete, else the first block of maximal counter, its size, and a next counter above all; without one the fields of a restart |
| BlockLog.CompleteInWords | ThreadX++/src/FlashManagment.cpp:66-76 | which words make a block complete, free, and give its size and counter |
| BlockLog.NewestIsBest | ThreadX++/src/FlashManagment.cpp:75-86 | the block with the strictly largest counter is the one the scan selects |
| BlockLog.FindGoodMeaning | ThreadX++/src/FlashManagment.cpp:174-204 | over any contents: the walk fails iff every block is used, else finds the first erased header in ring order |
| BlockLog.RestartErasesAll | ThreadX++/src/FlashManagment.cpp:280-292 | the restart leaves every block erased |
| Recovery.LogShape | ThreadX++/src/FlashManagment.cpp:143-229 | of any healthy log with data: complete blocks lie in the newest block's sector, not after it in the order of use, with counters rising in that order and below the one boot would use next; the rest of that sector is erased or torn, all other sectors are erased, and a single sector has no gaps |
| Recovery.LiveLogShape | ThreadX++/src/FlashManagment.cpp:143-229 | in terms of the live fields: m_current_address names the newest complete block, m_size is its size and m_counter one above its counter, every other complete block is in its sector, before it in the order of use, with a lower counter, and all other sectors are erased; or all is erased and the fields are those of a restart |
| Recovery.FindGoodSucceeds | ThreadX++/src/FlashManagment.cpp:153-159 | with two or more sectors the walk never fails, whatever the counters are |
| Recovery.RestartedIff | ThreadX++/src/FlashManagment.cpp:153-159 | the not-found restart is taken iff there is one sector and all its blocks are used, whatever the counters are |
| Recovery.FoundAfterCurrent | ThreadX++/src/FlashManagment.cpp:178-201 | once there is data, a block chosen in the current sector comes after the current one in the order of use; in a single sector none is passed over |
| Recovery.EraseIff | ThreadX++/src/FlashManagment.cpp:143-204 | with two or more sectors a write erases, and a cut during it may lose the old data, if and only if no block after the current one in its sector has an erased header |
| Recovery.PlanFindsErased | ThreadX++/src/FlashManagment.cpp:143-204 | whatever the counters are, a write goes to a wholly erased block, in the current sector if nothing is erased, and an erase leaves nothing |
| Recovery.PlanIsSound | ThreadX++/src/FlashManagment.cpp:143-169 | a write goes to a wholly erased block, and either erases nothing or leaves all blocks erased |
| Recovery.TornWrite | ThreadX++/src/FlashManagment.cpp:210-236 | before its last flash word a write boots to the old data, or to nothing if it erased |
| Recovery.CrashAtomicity | ThreadX++/src/FlashManagment.cpp:143-236 | after any number of flash words the log is healthy and boots to the new data iff all are in, else to the old data or, after an erase, to nothing |
| Recovery.WriteSurvivesIff | ThreadX++/src/FlashManagment.cpp:76-93 | every legal write survives a reboot if and only if its counter is not UINT32_MAX |
| Recovery.SentinelWriteIsLost | ThreadX++/src/FlashManagment.cpp:221-227 | a write stamped UINT32_MAX leaves what the erases left |
| Recovery.AnyWriteSurvivesIff | ThreadX++/src/FlashManagment.cpp:75-93 | with counters in order or not, a write survives a reboot for all data iff its counter is not UINT32_MAX and it erases or its counter beats the newest complete one, a lower address deciding a tie |
| Recovery.FlushImagesRecover | ThreadX++/src/FlashManagment.cpp:164-168 | every image of a flush, erases included, is healthy and boots as above |
| Recovery.BootSettles | ThreadX++/src/FlashManagment.cpp:36-46 | a reboot keeps the data, restores the invariant and is idempotent |
| FlashManagment.FlashManagment.constructor | ThreadX++/src/FlashManagment.cpp:36-46 | fields are those of the boot scan; the flash is erased iff the scan found nothing |
| FlashManagment.FlashManagment.FindLastLogicalBlock | ThreadX++/src/FlashManagment.cpp:55-103 | the loop computes the value-level boot scan, restart and images included |
| FlashManagment.FlashManagment.FindGoodBlock | ThreadX++/src/FlashManagment.cpp:174-204 | the loop computes the ring walk, terminates, and is back at its start on failure |
| FlashManagment.FlashManagment.IsAdressInSameSector | ThreadX++/src/FlashManagment.cpp:243-269 | compares quotients by the sector size for an address of the region, and restarts otherwise |
| FlashManagment.FlashManagment.RestartFlash | ThreadX++/src/FlashManagment.cpp:280-298 | erases the sectors in order and resets fields and cache |
| FlashManagment.FlashManagment.WriteToCache | ThreadX++/src/FlashManagment.cpp:210-229 | the cache becomes the image of magic, data, size and counter; the counter advances by one modulo 2^32 |
| FlashManagment.FlashManagment.Write | ThreadX++/src/FlashManagment.cpp:143-169 | fields, cache, flash and every flash image follow the plan of the write |
| FlashManagment.FlashManagment.WriteToFlash | ThreadX++/src/FlashManagment.cpp:232-236 | the current block is programmed flash word by flash word, nothing else changes |
| FlashManagment.FlashManagment.Read | ThreadX++/src/FlashManagment.cpp:112-135 | returns the data bytes of the current block through the cache, or nothing |
| RegistryBuffer.ScanOfPack | ThreadX++/src/InternalRegistry.cpp:283-303 | scanning recovers exactly the packed entries |
| RegistryBuffer.PackOfScan | ThreadX++/src/InternalRegistry.cpp:130-143 | repacking a scan gives the same bytes |
| RegistryBuffer.WriteRefinesUpdate | ThreadX++/src/InternalRegistry.cpp:89-120 | a write is map update if it is accepted and changes nothing otherwise; an existing name is accepted iff the sizes agree, a new one iff its value and the bytes used fit the capacity; keys stay distinct |
| RegistryBuffer.SizeIsFootprint | ThreadX++/src/InternalRegistry.cpp:109-142 | the bytes used are the sizes, names and values of the map, whatever the order of the writes was |
| RegistryBuffer.DeleteRefinesRemoval | ThreadX++/src/InternalRegistry.cpp:199-226 | a delete is map removal and never grows the buffer |
| RegistryBuffer.DeletedInPlace | ThreadX++/src/InternalRegistry.cpp:211-216 | closing the gap of the first matching entry gives the packing without it |
| RegistryBuffer.SpaceTestSufficesIff | ThreadX++/src/InternalRegistry.cpp:109-115 | the space test protects the buffer for all values iff the largest entry would fit |
| RegistryBuffer.SpaceTestAdmitsOverrun | ThreadX++/src/InternalRegistry.cpp:109-115 | a buffer and an entry, for the configured block size, that pass the test and overrun |
| RegistryBuffer.EarlyReturnsHappen | ThreadX++/src/InternalRegistry.cpp:97-113 | a buffer of the configured size with one entry that is turned away for its size and one for lack of space |
| InternalRegistry.UpdateInPlace | ThreadX++/src/InternalRegistry.cpp:105 | overwriting a value of the same size in place equals updating its entry |
| InternalRegistry.InternalRegistry.constructor | ThreadX++/src/InternalRegistry.cpp:27-36 | over any flash whose recorded size fits: the buffer holds exactly the data boot recovered, it is a valid registry if that data is sound, and a healthy log is settled |
| InternalRegistry.InternalRegistry.GetObjectByIndex | ThreadX++/src/InternalRegistry.cpp:283-303 | yields the entry at the index, a strictly larger next index, and 0 only at the end |
| InternalRegistry.InternalRegistry.FindObject | ThreadX++/src/InternalRegistry.cpp:258-272 | finds the first entry with the name iff there is one |
| InternalRegistry.InternalRegistry.Write | ThreadX++/src/InternalRegistry.cpp:89-120 | buffer, map, flag, mutex count and mutex log after update, append and both early returns, and which of them is taken, by the map alone |
| InternalRegistry.InternalRegistry.WriteNewObjectToBuffer | ThreadX++/src/InternalRegistry.cpp:130-143 | appends exactly the packed entry |
| InternalRegistry.InternalRegistry.Read | ThreadX++/src/InternalRegistry.cpp:171-191 | answers membership in the map and copies the value iff the sizes agree, with the mutex taken once and given back |
| InternalRegistry.InternalRegistry.IsExist | ThreadX++/src/InternalRegistry.cpp:236-246 | answers membership in the map, with the mutex taken once and given back |
| InternalRegistry.InternalRegistry.ShiftLeft | ThreadX++/src/InternalRegistry.cpp:211-216 | the overlapping left shift removes exactly the gap |
| InternalRegistry.InternalRegistry.Delete | ThreadX++/src/InternalRegistry.cpp:199-226 | the buffer loses the first matching entry and the flag is raised iff there was one, with the mutex taken once and given back |
| InternalRegistry.InternalRegistry.EventCheckFlash | ThreadX++/src/InternalRegistry.cpp:52-65 | nothing without the flag; otherwise the flash goes through exactly the images of a flush of the snapshot, the mutex is taken before the first erase and given back between the last erase and the first programmed flash word, and fields, cache and flash are those of the plan |
| InternalRegistry.FlushAtomically | ThreadX++/src/InternalRegistry.cpp:52-65 | afterwards the flash boots to the buffer, and each image before boots to the old data or, after an erase, to nothing |
| FlushRun.UndisturbedFlush | ThreadX++/src/InternalRegistry.cpp:52-65 | the machine's flush with the flag up, left alone, is never blocked, goes through the same images one operation at a time, holds the mutex from before the snapshot until the last erase and not while programming, and ends in the flash, fields and cache of the class's flush |
| FlushRun.ChangesAreSavedIff | ThreadX++/src/InternalRegistry.cpp:52-113 | in any run, with a change waiting and no call or flush under way, the next flush is free to go and saves the buffer iff no write has taken an early return since power came on; otherwise no sequence of steps leads to a snapshot |
| ConfiguredRegistry.SaveAndReboot | ThreadX++/src/InternalRegistry.cpp:27-65 | after a flush and a power cycle a new registry over the same flash holds the same buffer |
| ConfiguredRegistry.WriteSaveReboot | ThreadX++/inc/HW.h:14-18 | on an erased device with the configured address, sectors and block size, a value written and flushed is the whole map after a reboot |
| InternalRegistry.StoreAndLoad | ThreadX++/src/FlashManagment.cpp:112-236 | a legal write and its program step are what the next read returns and what a reboot recovers |
| Safety.SnapshotRuns | ThreadX++/src/InternalRegistry.cpp:56-61 | taking the snapshot under the mutex keeps the invariant unless it hits the sentinel |
| Safety.EraseRuns | ThreadX++/src/FlashManagment.cpp:164-168 | the erase of a flush keeps the invariant and leaves nothing to recover |
| Safety.ProgramRuns | ThreadX++/src/InternalRegistry.cpp:63 | each flash word programmed after unlocking keeps the invariant; the last one makes the snapshot recoverable |
| Safety.StepKeeps | ThreadX++/src/InternalRegistry.cpp:27-226 | every step of every task, power cut and reboot keeps the invariant |
| EndToEnd.StepRefines | ThreadX++/src/InternalRegistry.cpp:27-226 | every step is the step of a map with checkpoints that its call or flash operation names: a Write sets its name to its value or changes nothing, which of the two the map decides, and a Delete removes its name |
| EndToEnd.RunRefines | ThreadX++/src/InternalRegistry.cpp:27-226 | every run of the stack is, call by call, a run of the map with checkpoints, its disk being what boot recovers |
| EndToEnd.DiskOrigin | ThreadX++/src/InternalRegistry.cpp:52-65 | in every run of the map the last commit or wipe decides the disk: the registry at the latest checkpoint before the commit, or nothing |
| EndToEnd.RebootYieldsSnapshot | ThreadX++/src/InternalRegistry.cpp:27-65 | in every state of every run a reboot finds a sound map: the registry at the latest snapshot whose block was fully programmed, unless a flush has erased since or none was ever completed, and then it is empty |
| EndToEnd.RunsStayHealthy | ThreadX++/src/FlashManagment.cpp:143-236 | in every state of every run the log invariant holds and the live fields describe it: at rest as a reboot would, during a flush as the block in the cache and the flash words of it already programmed, the next counter always above every one that stays; the buffer stays a packing of distinct keys that fits one block |
| EndToEnd.NoLostUpdate | ThreadX++/src/InternalRegistry.cpp:52-65 | with the mutex free, the flag is up or the latest snapshot equals the buffer; at rest the flash does |
| EndToEnd.RejectedWriteStopsSaving | ThreadX++/src/InternalRegistry.cpp:99-113 | once a write has taken an early return, no flush takes a snapshot again until power fails, in any run |
| EndToEnd.MutexLeaksIff | ThreadX++/src/InternalRegistry.cpp:89-120 | in every running state of every run a client holds the mutex for good iff a write has taken an early return since power came on; otherwise a client that holds it is in a call and has taken it once |
| Tasks.OwnerEntersAlone | ThreadX++/src/InternalRegistry.cpp:89-246 | in every run, while a task owns the mutex no other task enters a call and the flush does not take the mutex |
| Tasks.RejectedTaskKeepsMutex | ThreadX++/src/InternalRegistry.cpp:97-113 | once a task's write has taken an early return the mutex stays that task's, and only it enters calls, until power fails |
| Tasks.SnapshotsNeedChanges | ThreadX++/src/InternalRegistry.cpp:52-65 | in every run each snapshot is preceded, since the last one and the last loss of power, by a call that changed the buffer and by the flag it raised |
| Tasks.RestKeepsFlash | ThreadX++/src/InternalRegistry.cpp:52-65 | with the flag down and no flush under way, the flash and the flash manager stay as they are until the flag is raised or power fails |
| Tasks.CallsRunWhole | ThreadX++/src/InternalRegistry.cpp:89-246 | in every run each call that returns was entered by its task, carried out once, undisturbed by any other call, and raised the flag iff it changed the buffer |
| CallRun.UndisturbedCall | ThreadX++/src/InternalRegistry.cpp:89-246 | a call of the machine, left alone, is never blocked wherever the flush stands, and ends in the buffer, flag and lock count of the class's calls |
| CallRun.CallsIgnoreFlush | ThreadX++/src/InternalRegistry.cpp:89-246 | what a call may do and does is independent of the flash and of where the flush stands |
| CallRun.FlushIgnoresCalls | ThreadX++/src/InternalRegistry.cpp:52-65 | apart from taking the mutex and the snapshot, the flush is independent of the calls |
| BootRun.UndisturbedBoot | ThreadX++/src/FlashManagment.cpp:36-103 | boot of the machine, left alone, is never blocked and ends in the fields, data, cache and flash of the constructors, erasing sector by sector if it found nothing |
| BootRun.PowerCycle | ThreadX++/src/InternalRegistry.cpp:27-36 | in every state of every run power may fail and come back, and the machine is then up, at rest, with a settled log and the map that EndToEnd.RebootYieldsSnapshot names |
| EndToEnd.BoundedWritesAvoidSentinel | ThreadX++/src/FlashManagment.cpp:221-227 | up to 2^32 - 2 flushes since the last restart at boot never stamp the sentinel |
| Wear.WearBound | ThreadX++/src/FlashManagment.cpp:143-204 | for every geometry, after n crash-free writes the block is n modulo the ring, one erase per sector left behind or single sector refilled is spread evenly, the log is settled and the last write reads back; n up to 2^32 - 2, and unlimited for a single sector of at most that many blocks |
| Wear.NextWriteIsLost | ThreadX++/src/FlashManagment.cpp:221-227 | with two or more sectors, after exactly 2^32 - 2 writes the next one is stamped UINT32_MAX and a reboot finds the previous data, or nothing if it had to erase |
| Wear.SentinelIsReached | ThreadX++/src/FlashManagment.cpp:221-227 | for every geometry of two or more sectors a device, writes and data for which this happens |
| Wear.WriteAfterSentinel | ThreadX++/src/FlashManagment.cpp:221-227 | with two or more sectors, the write after the one stamped UINT32_MAX is stamped 0, and a reboot finds it iff one of the two has left a sector behind, else the last write before them |
| Wear.OneWriteIsLost | ThreadX++/src/FlashManagment.cpp:221-227 | when the blocks of a sector divide 2^32, the write after the lost one is found |
| Wear.LaterWriteSurvivesIff | ThreadX++/src/FlashManagment.cpp:75-93 | after any number of writes, past the sentinel or not, the next one survives a reboot for all data iff it prevails in the sense of Recovery.AnyWriteSurvivesIff |
| Wear.EveryWriteFindsErased | ThreadX++/src/FlashManagment.cpp:174-236 | for every geometry and any number of writes, past the sentinel or not, no block is programmed twice between erases |
| Wear.SectorOfTurn | ThreadX++/src/FlashManagment.cpp:243-269 | the block of turn n lies in the sector whose turn it is |

## Left out

- HAL calls, flash lock and unlock, error codes and HAL failures: replaced by the program and erase steps.
- Power cuts inside one flash-word program or inside one erase, and ECC.
- Bytes and words outside the registry's own sectors: the modelled array is the region, and no method addresses anything else.
- `Mutex`, `Task`, `TimeEvent` and the scheduler: an owner with a count and a nondeterministic tick. Liveness of flushing is not stated.
- FlashManagment.FlashManagment.WriteToCache: asks that the data fits behind the start header; the copy past the cache buffer is not modelled.
- FlashManagment.FlashManagment.Write: asks that the copy stays inside the cache buffer; the memory corruption of larger buffers is not modelled.
- FlashManagment.FlashManagment.Read: asks that the bytes read fit the block behind its start header; reading on into the next block after an oversized write is not modelled.
- InternalRegistry.InternalRegistry.constructor: asks that the recorded size leaves room for both headers; loading an oversized block overruns the buffer and is not modelled.
- InternalRegistry.InternalRegistry.Write: asks that an accepted entry fits as a whole; the overrun behind the space test is shown possible but not modelled.
- Runs of the interleaving machine after a write stamped with the sentinel counter, until boot next restarts the flash; crash-free service past it is covered.
- Concurrent use of `FlashManagment::Read` between `Write` and `WriteToFlash`: the code only reads in the registry's constructor.
- Pointers in and out of the registry's calls are byte sequences and arrays; the object struct holds indices into the buffer.
- `PrintAll`, all `printf` output, the watchdog refresh, `Singleton`, start-up code and the `Tests` tasks.
