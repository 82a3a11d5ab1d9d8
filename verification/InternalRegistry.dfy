/** The registry: lookups, in-place update, append and delete on the packed buffer, and the
    periodic flush. */
module InternalRegistry {
  import opened Words
  import opened BlockFormat
  import opened BlockLog
  import opened RegistryBuffer
  import opened FlashDriver
  import opened FlashView
  import opened Recovery
  import FM = FlashManagment

  /** The C struct, its pointers replaced by indices into the buffer. */
  datatype RegisteryObject = RegisteryObject(nameSize: Byte, nameAt: nat, valueSize: Byte, valueAt: nat)

  /** Overwriting a value of the same size in place is updating its entry. */
  lemma UpdateInPlace(entries: seq<Entry>, i: nat, e: Entry)
    requires i < |entries| && entries[i].name == e.name && |entries[i].value| == |e.value|
    ensures Offset(entries, i) + 2 + |e.name| + |e.value| <= |Pack(entries)|
    ensures Splice(Pack(entries), Offset(entries, i) + 2 + |e.name|, e.value) == Pack(entries[i := e])
  {
    PackAround(entries, i);
    PackWithUpdate(entries, i, e);
    SpliceOfEntry(Pack(entries[..i]), entries[i], e, Pack(entries[i + 1..]));
  }

  lemma PackWithUpdate(entries: seq<Entry>, i: nat, e: Entry)
    requires i < |entries|
    ensures Pack(entries[i := e]) == Pack(entries[..i]) + PackEntry(e) + Pack(entries[i + 1..])
  {
    var after := entries[i := e];
    PackAround(after, i);
    assert after[..i] == entries[..i] && after[i + 1..] == entries[i + 1..];
  }

  lemma SpliceOfEntry(before: Bytes, was: Entry, e: Entry, rest: Bytes)
    requires was.name == e.name && |was.value| == |e.value|
    ensures Splice(before + PackEntry(was) + rest, |before| + 2 + |e.name|, e.value) == before + PackEntry(e) + rest
  {
  }

  /** What the mutex has seen, and after how many flash operations. */
  datatype LockEvent = Locked(at: nat) | Unlocked(at: nat)

  /** The mutex has been taken once and given back once, at these dates. */
  ghost predicate LockedFor(before: seq<LockEvent>, after: seq<LockEvent>, taken: nat, given: nat) {
    && |after| == |before| + 2 && before <= after
    && after[|before|] == Locked(taken) && after[|before| + 1] == Unlocked(given)
  }

  class InternalRegistry {
    const flash: FM.FlashManagment
    const buffer: array<Byte>
    var bufferSize: nat
    var needUpdate: bool
    /** How often the mutex has been taken and not given back. */
    var lockCount: nat
    /** Every lock and unlock so far, dated by the flash images recorded before it. */
    ghost var lockLog: seq<LockEvent>

    ghost predicate Separate() {
      && flash.Configured()
      && buffer.Length == flash.GetMaxFlashSize()
      && buffer != flash.cache
      && (buffer as object) != flash.driver.memory && (buffer as object) != flash.driver.scratch
    }

    /** The buffer is a sequence of whole entries, which is all that the walks rely on. */
    ghost predicate Packed()
      reads this`bufferSize, buffer
    {
      bufferSize <= buffer.Length && WellFormed(Contents())
    }

    /** No two entries have the same name. */
    ghost predicate Valid()
      reads this`bufferSize, buffer
    {
      Separate() && Packed() && Distinct(Entries(Contents()))
    }

    ghost function Contents(): Bytes
      requires bufferSize <= buffer.Length
      reads this`bufferSize, buffer
    {
      buffer[..bufferSize]
    }

    /** The constructor, over arbitrary flash contents: boot the flash manager, then load
        what it found. All that is asked is that the recorded size fits the buffer. */
    constructor (driver: InternalFlashDriver, numSector: nat, blockSize: nat, ghost g: Geometry)
      requires driver.Valid() && BANK_1 <= driver.base && driver.base % SECTOR_SIZE == 0
      requires g.sectors == numSector && blockSize == 4 * g.blockWords && Tiled(g)
      requires driver.base + numSector * SECTOR_SIZE <= FLASH_END
      requires 4 * driver.memory.Length == numSector * SECTOR_SIZE
      requires driver.memory.Length == Span(g.blocks, g.blockWords)
      requires forall i :: 0 <= i < numSector ==>
        SectorNumber(driver.base + SECTOR_SIZE * i, driver.halError) != driver.halError
      requires BootStore(g, View(g, driver.memory[..])).size <= MaxPayload(g.blockWords)
      modifies driver.memory, driver`trace
      ensures fresh(flash) && fresh(flash.cache) && fresh(buffer) && flash.driver == driver
      ensures Separate() && flash.Located() && flash.g == g && bufferSize <= buffer.Length
      ensures Contents() == Recovered(g, old(View(g, driver.memory[..]))) && !needUpdate && lockCount == 0
      ensures flash.Fields() == BootStore(g, old(View(g, driver.memory[..])))
      ensures flash.Flash() == AfterBoot(g, old(View(g, driver.memory[..])))
      ensures Sound(Recovered(g, old(View(g, driver.memory[..])))) ==> Valid()
      ensures Healthy(g, old(View(g, driver.memory[..]))) ==> Settled(g, flash.Flash(), flash.Fields())
    {
      ghost var found := View(g, driver.memory[..]);
      SettledByBoot(g, found);
      var cache := new Byte[blockSize];
      var manager := new FM.FlashManagment(driver, numSector, blockSize, cache, g);
      var loaded := Load(manager, found);
      this.flash := manager;
      this.buffer := loaded;
      this.bufferSize := manager.size;
      this.needUpdate := false;
      this.lockCount := 0;
      this.lockLog := [];
    }

    method Lock()
      modifies this`lockCount, this`lockLog
      ensures lockCount == old(lockCount) + 1
      ensures lockLog == old(lockLog) + [Locked(|old(flash.driver.trace)|)]
    {
      lockCount := lockCount + 1;
      lockLog := lockLog + [Locked(|flash.driver.trace|)];
    }

    method Unlock()
      requires 0 < lockCount
      modifies this`lockCount, this`lockLog
      ensures lockCount == old(lockCount) - 1
      ensures lockLog == old(lockLog) + [Unlocked(|old(flash.driver.trace)|)]
    {
      lockCount := lockCount - 1;
      lockLog := lockLog + [Unlocked(|flash.driver.trace|)];
    }

    /** The flag is only touched under the mutex. */
    method PutFlag(up: bool)
      requires 0 < lockCount
      modifies this`needUpdate
      ensures needUpdate == up
    {
      needUpdate := up;
    }

    static lemma SettledByBoot(g: Geometry, flash: Flash)
      requires Shaped(g, flash)
      ensures Healthy(g, flash) ==> Settled(g, AfterBoot(g, flash), BootStore(g, flash))
    {
      if Healthy(g, flash) {
        BootSettles(g, flash);
      }
    }

    /** Allocates the buffer and reads the size and the data that boot has found. */
    static method Load(manager: FM.FlashManagment, ghost found: Flash) returns (loaded: array<Byte>)
      requires manager.Valid() && Shaped(manager.g, found)
      requires BootStore(manager.g, found).size <= MaxPayload(manager.g.blockWords)
      requires manager.Fields() == BootStore(manager.g, found) && manager.Flash() == AfterBoot(manager.g, found)
      modifies manager.cache
      ensures fresh(loaded) && loaded.Length == manager.GetMaxFlashSize() && manager.size <= loaded.Length
      ensures loaded[..manager.size] == Recovered(manager.g, found)
    {
      loaded := new Byte[manager.GetMaxFlashSize()];
      LoadedIsRecovered(manager.g, found);
      var _ := manager.Read(loaded, manager.size);
    }

    static lemma LoadedIsRecovered(g: Geometry, flash: Flash)
      requires Shaped(g, flash) && BootStore(g, flash).size <= MaxPayload(g.blockWords)
      ensures var store, after := BootStore(g, flash), AfterBoot(g, flash);
        && store.current < |after|
        && BytesOf(after[store.current])[HEADER..HEADER + store.size] == Recovered(g, flash)
    {
    }

    ghost predicate Describes(item: RegisteryObject, entries: seq<Entry>, k: nat) {
      && k < |entries|
      && item.nameSize == |entries[k].name| && item.nameAt == Offset(entries, k) + 1
      && item.valueSize == |entries[k].value| && item.valueAt == Offset(entries, k) + 2 + |entries[k].name|
    }

    /** Entry `k` as it lies in the buffer. */
    lemma EntryInBuffer(k: nat)
      requires Packed() && k < |Entries(Contents())|
      ensures var at, e := Offset(Entries(Contents()), k), Entries(Contents())[k];
        && at + 2 + |e.name| + |e.value| == Offset(Entries(Contents()), k + 1) <= bufferSize
        && buffer[at] == |e.name| && buffer[at + 1 + |e.name|] == |e.value|
        && buffer[at + 1..at + 1 + |e.name|] == e.name
        && buffer[at + 2 + |e.name|..at + 2 + |e.name| + |e.value|] == e.value
    {
      EntryInPrefix(buffer[..], bufferSize, k);
    }

    /** An entry that lies in the used part of the buffer, field by field. */
    static lemma FieldsInPrefix(bytes: Bytes, used: nat, at: nat, e: Entry)
      requires used <= |bytes| && HoldsEntry(bytes[..used], at, e)
      ensures at + 2 + |e.name| + |e.value| <= used
      ensures bytes[at] == |e.name| && bytes[at + 1 + |e.name|] == |e.value|
      ensures bytes[at + 1..at + 1 + |e.name|] == e.name
      ensures bytes[at + 2 + |e.name|..at + 2 + |e.name| + |e.value|] == e.value
    {
      SliceOfPrefix(bytes, used, at, |PackEntry(e)|);
      FieldsOfEntry(bytes, at, e);
    }

    static lemma EntryInPrefix(bytes: Bytes, used: nat, k: nat)
      requires used <= |bytes| && WellFormed(bytes[..used]) && k < |Entries(bytes[..used])|
      ensures var entries := Entries(bytes[..used]);
        var at, e := Offset(entries, k), entries[k];
        && at + 2 + |e.name| + |e.value| == Offset(entries, k + 1) <= used
        && bytes[at] == |e.name| && bytes[at + 1 + |e.name|] == |e.value|
        && bytes[at + 1..at + 1 + |e.name|] == e.name
        && bytes[at + 2 + |e.name|..at + 2 + |e.name| + |e.value|] == e.value
    {
      EntryAt(bytes[..used], k);
      FieldsInPrefix(bytes, used, Offset(Entries(bytes[..used]), k), Entries(bytes[..used])[k]);
    }

    lemma EndOfBuffer()
      requires Packed()
      ensures Offset(Entries(Contents()), 0) == 0
      ensures Offset(Entries(Contents()), |Entries(Contents())|) == bufferSize
    {
      PackOfScan(Contents());
      OffsetOfEnd(Entries(Contents()));
    }

    /** Reads the object at the start of entry `k`; at the end of the buffer it answers 0. */
    method GetObjectByIndex(index: nat, item: RegisteryObject, ghost k: nat)
      returns (next: nat, result: RegisteryObject)
      requires Packed() && k <= |Entries(Contents())| && index == Offset(Entries(Contents()), k)
      ensures next == 0 <==> k == |Entries(Contents())|
      ensures next == 0 ==> result == item
      ensures next != 0 ==> index < next == Offset(Entries(Contents()), k + 1) <= bufferSize
      ensures next != 0 ==> Describes(result, Entries(Contents()), k)
    {
      EndOfBuffer();
      if k < |Entries(Contents())| {
        EntryInBuffer(k);
      }
      if index >= bufferSize {
        return 0, item;
      }
      var updateIndex: nat := index;
      var nameSize := buffer[updateIndex];
      updateIndex := updateIndex + 1;
      var nameAt := updateIndex;
      updateIndex := updateIndex + nameSize as nat;
      var valueSize := buffer[updateIndex];
      updateIndex := updateIndex + 1;
      result := RegisteryObject(nameSize, nameAt, valueSize, updateIndex);
      updateIndex := updateIndex + valueSize as nat;
      return updateIndex, result;
    }

    /** The size test and `memcmp` of the lookups. */
    method IsNamed(name: Bytes, item: RegisteryObject, ghost k: nat) returns (same: bool)
      requires Packed() && Describes(item, Entries(Contents()), k)
      ensures same == (Entries(Contents())[k].name == name)
    {
      EntryInBuffer(k);
      same := |name| == item.nameSize && name == buffer[item.nameAt..item.nameAt + item.nameSize];
    }

    method FindObject(name: Bytes) returns (found: bool, item: RegisteryObject, ghost k: nat)
      requires Packed()
      ensures found == Find(Entries(Contents()), name).Some?
      ensures found ==> Find(Entries(Contents()), name) == Some(k) && Describes(item, Entries(Contents()), k)
    {
      ghost var entries := Entries(Contents());
      k := 0;
      EndOfBuffer();
      var index, first := GetObjectByIndex(0, RegisteryObject(0, 0, 0, 0), k);
      item := first;
      while index != 0
        invariant k <= |entries| && (index == 0 <==> k == |entries|)
        invariant index != 0 ==> index == Offset(entries, k + 1) && Describes(item, entries, k)
        invariant forall j :: 0 <= j < k ==> entries[j].name != name
        decreases |entries| - k
      {
        var same := IsNamed(name, item, k);
        if same {
          return true, item, k;
        }
        k := k + 1;
        index, item := GetObjectByIndex(index, item, k);
      }
      return false, item, k;
    }

    /** `Write` and `WriteBuffer`. That the whole entry fits is asked of the caller. Both early
        returns keep the mutex. */
    method Write(name: Bytes, value: Bytes)
      requires Valid() && |name| < 0x100 && |value| < 0x100
      requires WriteOutcome(Contents(), Entry(name, value), buffer.Length) == Appended ==>
        bufferSize + |PackEntry(Entry(name, value))| <= buffer.Length
      modifies this, buffer
      ensures Valid() && Contents() == Written(old(Contents()), Entry(name, value), buffer.Length)
      ensures var done := WriteOutcome(old(Contents()), Entry(name, value), buffer.Length) in {Updated, Appended};
        && needUpdate == (old(needUpdate) || done)
        && lockCount == old(lockCount) + (if done then 0 else 1)
      ensures var m := old(MapOf(Contents()));
        var done := Accepts(m, buffer.Length, name, value);
        && MapOf(Contents()) == (if done then m[name := value] else m)
        && needUpdate == (old(needUpdate) || done)
        && lockCount == old(lockCount) + (if done then 0 else 1)
        && (if done then LockedFor(old(lockLog), lockLog, |flash.driver.trace|, |flash.driver.trace|)
            else lockLog == old(lockLog) + [Locked(|flash.driver.trace|)])
    {
      ghost var m, written := MapOf(Contents()), Written(Contents(), Entry(name, value), buffer.Length);
      ghost var accepted := Accepts(m, buffer.Length, name, value);
      assert
        && Sound(written) && MapOf(written) == (if accepted then m[name := value] else m)
        && accepted == (WriteOutcome(Contents(), Entry(name, value), buffer.Length) in {Updated, Appended})
      by {
        WriteRefinesUpdate(Contents(), Entry(name, value), buffer.Length);
      }
      Lock();
      var done := WriteToBuffer(name, value);
      if !done {
        return;
      }
      PutFlag(true);
      Unlock();
    }

    /** The two branches of `Write`, up to its flag. The space test only counts the value. */
    method WriteToBuffer(name: Bytes, value: Bytes) returns (done: bool)
      requires 0 < lockCount
      requires Packed() && |name| < 0x100 && |value| < 0x100
      requires WriteOutcome(Contents(), Entry(name, value), buffer.Length) == Appended ==>
        bufferSize + |PackEntry(Entry(name, value))| <= buffer.Length
      modifies this`bufferSize, buffer
      ensures bufferSize <= buffer.Length && Contents() == Written(old(Contents()), Entry(name, value), buffer.Length)
      ensures done == (WriteOutcome(old(Contents()), Entry(name, value), buffer.Length) in {Updated, Appended})
    {
      var isExist, item, k := FindObject(name);
      if isExist {
        if item.valueSize != |value| {
          return false;
        }
        UpdateValue(item, name, value, k);
      } else {
        if |value| + bufferSize > buffer.Length {
          return false;
        }
        WriteNewObjectToBuffer(name, value);
      }
      return true;
    }

    /** The in-place `memcpy` over a value of the same size. */
    method UpdateValue(item: RegisteryObject, name: Bytes, value: Bytes, ghost k: nat)
      requires Packed() && |name| < 0x100 && |value| < 0x100
      requires Find(Entries(Contents()), name) == Some(k) && Describes(item, Entries(Contents()), k)
      requires |value| == item.valueSize
      modifies buffer
      ensures Contents() == Written(old(Contents()), Entry(name, value), buffer.Length)
    {
      ghost var was := buffer[..];
      assert was[..bufferSize] == Contents();
      UpdateInPrefix(was, bufferSize, Entry(name, value), k);
      MemCopy(buffer, item.valueAt, value);
      assert Contents() == Splice(was, item.valueAt, value)[..bufferSize];
    }

    static lemma UpdateInPrefix(bytes: Bytes, used: nat, e: Entry, k: nat)
      requires used <= |bytes| && WellFormed(bytes[..used]) && Find(Entries(bytes[..used]), e.name) == Some(k)
      requires |e.value| == |Entries(bytes[..used])[k].value|
      ensures var at := Offset(Entries(bytes[..used]), k) + 2 + |e.name|;
        at + |e.value| <= used && Splice(bytes, at, e.value)[..used] == Written(bytes[..used], e, |bytes|)
    {
      var entries := Entries(bytes[..used]);
      PackOfScan(bytes[..used]);
      UpdateInPlace(entries, k, e);
      SpliceOfPrefix(bytes, used, Offset(entries, k) + 2 + |e.name|, e.value);
    }

    static lemma SpliceOfPrefix(all: Bytes, used: nat, at: nat, source: Bytes)
      requires at + |source| <= used <= |all|
      ensures Splice(all, at, source)[..used] == Splice(all[..used], at, source)
    {
    }

    method WriteNewObjectToBuffer(name: Bytes, value: Bytes)
      requires |name| < 0x100 && |value| < 0x100
      requires bufferSize + |PackEntry(Entry(name, value))| <= buffer.Length
      modifies this`bufferSize, buffer
      ensures bufferSize <= buffer.Length && Contents() == old(buffer[..bufferSize]) + PackEntry(Entry(name, value))
    {
      Append([|name| as Byte]);
      Append(name);
      Append([|value| as Byte]);
      Append(value);
    }

    method Append(bytes: Bytes)
      requires bufferSize + |bytes| <= buffer.Length
      modifies this`bufferSize, buffer
      ensures bufferSize == old(bufferSize) + |bytes|
      ensures buffer[..bufferSize] == old(buffer[..bufferSize]) + bytes
    {
      MemCopy(buffer, bufferSize, bytes);
      bufferSize := bufferSize + |bytes|;
    }

    /** `FindObject`, in terms of the map. */
    method LookUp(name: Bytes) returns (found: bool, item: RegisteryObject)
      requires 0 < lockCount
      requires Packed()
      ensures found == (name in MapOf(Contents()))
      ensures found ==>
        && item.valueSize == |MapOf(Contents())[name]| && item.valueAt + item.valueSize as nat <= bufferSize
        && buffer[item.valueAt..item.valueAt + item.valueSize as nat] == MapOf(Contents())[name]
    {
      ToMapAt(Entries(Contents()), name);
      ghost var k;
      found, item, k := FindObject(name);
      if found {
        assert MapOf(Contents())[name] == Entries(Contents())[k].value;
        ValueInBuffer(item, k);
      }
    }

    /** An object that describes an entry points at its value. */
    lemma ValueInBuffer(item: RegisteryObject, k: nat)
      requires Packed() && Describes(item, Entries(Contents()), k)
      ensures item.valueAt + item.valueSize as nat <= bufferSize
      ensures buffer[item.valueAt..item.valueAt + item.valueSize as nat] == Entries(Contents())[k].value
    {
      EntryInBuffer(k);
    }

    /** `Read` and `ReadBuffer`: answers whether the name exists, and copies the value only
        when the sizes agree. */
    method Read(name: Bytes, value: array<Byte>, valueSize: nat) returns (result: bool)
      requires Packed() && valueSize <= value.Length && value != buffer
      modifies this`lockCount, this`lockLog, value
      ensures lockCount == old(lockCount)
      ensures LockedFor(old(lockLog), lockLog, |flash.driver.trace|, |flash.driver.trace|)
      ensures var m := old(MapOf(Contents()));
        && result == (name in m)
        && value[..] ==
             if name in m && |m[name]| == valueSize then Splice(old(value[..]), 0, m[name]) else old(value[..])
    {
      ghost var m := MapOf(Contents());
      Lock();
      var found, item := LookUp(name);
      result := found;
      if found && item.valueSize == valueSize {
        CopyOut(item.valueAt, valueSize, value, m[name]);
      }
      Unlock();
    }

    /** The `memcpy` out of the buffer. */
    method CopyOut(at: nat, size: nat, target: array<Byte>, ghost data: Bytes)
      requires 0 < lockCount
      requires at + size <= buffer.Length && size <= target.Length && target != buffer
      requires buffer[at..at + size] == data
      modifies target
      ensures target[..] == Splice(old(target[..]), 0, data)
    {
      MemCopy(target, 0, buffer[at..at + size]);
    }

    method IsExist(name: Bytes) returns (result: bool)
      requires Packed()
      modifies this`lockCount, this`lockLog
      ensures result == (name in MapOf(Contents()))
      ensures lockCount == old(lockCount)
      ensures LockedFor(old(lockLog), lockLog, |flash.driver.trace|, |flash.driver.trace|)
    {
      Lock();
      var found, _ := LookUp(name);
      result := found;
      Unlock();
    }

    /** The shifting loop of `Delete`, with overlapping source and target. */
    method ShiftLeft(start: nat, next: nat)
      requires start <= next <= bufferSize <= buffer.Length
      modifies this`bufferSize, buffer
      ensures bufferSize == old(bufferSize) - (next - start)
      ensures Contents() == old(Contents())[..start] + old(Contents())[next..]
    {
      ghost var was := buffer[..];
      for i := 0 to bufferSize - next
        invariant bufferSize == old(bufferSize)
        invariant forall j {:trigger buffer[j]} :: 0 <= j < buffer.Length ==>
          buffer[j] == if start <= j < start + i then was[j + (next - start)] else was[j]
      {
        buffer[start + i] := buffer[next + i];
      }
      bufferSize := bufferSize - (next - start);
      ShiftedIs(was, buffer[..bufferSize], start, next, old(bufferSize));
    }

    static lemma ShiftedIs(was: Bytes, shifted: Bytes, start: nat, next: nat, used: nat)
      requires start <= next <= used <= |was| && |shifted| == used - (next - start)
      requires forall j {:trigger shifted[j]} :: 0 <= j < |shifted| ==>
        shifted[j] == if start <= j then was[j + (next - start)] else was[j]
      ensures shifted == was[..used][..start] + was[..used][next..]
    {
    }

    /** Closes the gap of entry `k`. */
    method RemoveEntry(name: Bytes, start: nat, next: nat, ghost k: nat)
      requires 0 < lockCount
      requires Valid() && Find(Entries(Contents()), name) == Some(k)
      requires start == Offset(Entries(Contents()), k) && next == Offset(Entries(Contents()), k + 1)
      modifies this`bufferSize, buffer
      ensures Valid() && Contents() == Deleted(old(Contents()), name)
    {
      DeletedInPlace(Contents(), name, k);
      DeleteRefinesRemoval(Contents(), name);
      ShiftLeft(start, next);
    }

    /** The walk of `Delete`: start and end of the first entry with this name, or 0. */
    method FindExtent(name: Bytes) returns (start: nat, next: nat, ghost k: nat)
      requires 0 < lockCount
      requires Packed()
      ensures next == 0 <==> Find(Entries(Contents()), name).None?
      ensures next != 0 ==>
        && Find(Entries(Contents()), name) == Some(k)
        && start == Offset(Entries(Contents()), k) && next == Offset(Entries(Contents()), k + 1)
    {
      ghost var entries := Entries(Contents());
      EndOfBuffer();
      start, k := 0, 0;
      var item;
      next, item := GetObjectByIndex(start, RegisteryObject(0, 0, 0, 0), k);
      while next != 0
        invariant k <= |entries| && (next == 0 <==> k == |entries|) && start == Offset(entries, k)
        invariant next != 0 ==> next == Offset(entries, k + 1) && Describes(item, entries, k)
        invariant forall j :: 0 <= j < k ==> entries[j].name != name
        decreases |entries| - k
      {
        var same := IsNamed(name, item, k);
        if same {
          break;
        }
        start := next;
        k := k + 1;
        next, item := GetObjectByIndex(next, item, k);
      }
    }

    method Delete(name: Bytes)
      requires Valid()
      modifies this, buffer
      ensures Valid() && Contents() == Deleted(old(Contents()), name)
      ensures needUpdate == (old(needUpdate) || name in MapOf(old(Contents())))
      ensures lockCount == old(lockCount)
      ensures LockedFor(old(lockLog), lockLog, |flash.driver.trace|, |flash.driver.trace|)
    {
      Lock();
      ToMapAt(Entries(Contents()), name);
      var start, next, k := FindExtent(name);
      if next != 0 {
        RemoveEntry(name, start, next, k);
        PutFlag(true);
      }
      Unlock();
    }

    /** What flushing the buffer now would do, and the block image it would program. */
    ghost function FlushPlan(): (plan: Plan)
      requires Separate() && flash.Located()
      reads flash, flash.driver.memory
      ensures plan.target < flash.g.blocks
    {
      PlanWrite(flash.g, flash.Flash(), flash.Fields())
    }

    ghost function FlushImage(): (image: Block)
      requires Separate() && flash.Located() && bufferSize <= buffer.Length
      reads this`bufferSize, buffer, flash, flash.cache, flash.driver.memory
      ensures |image| == flash.g.blockWords
    {
      PlannedImage(flash.g, flash.cache[..], FlushPlan(), Contents())
    }

    /** The periodic flush. The flash goes through exactly the images of a flush, and the log
        of the mutex shows that it is taken before the erases and given back after them,
        before the first flash word is programmed. */
    method EventCheckFlash()
      requires Valid() && flash.Located()
      modifies this`needUpdate, this`lockCount, this`lockLog
      modifies flash, flash.driver.memory, flash.driver.scratch, flash.driver`trace, flash.cache
      ensures Valid() && flash.Located() && Contents() == old(Contents()) && lockCount == old(lockCount)
      ensures !needUpdate
      ensures !old(needUpdate) ==>
        && flash.Flash() == old(flash.Flash()) && flash.Fields() == old(flash.Fields())
        && flash.cache[..] == old(flash.cache[..])
        && flash.driver.trace == old(flash.driver.trace) && lockLog == old(lockLog)
      ensures old(needUpdate) ==>
        && flash.Fields() == Store(old(FlushPlan()).target, Increment(old(FlushPlan()).stamp), bufferSize)
        && flash.cache[..] == CacheAfterWrite(flash.g, old(flash.cache[..]), old(FlushPlan()), Contents())
        && flash.Flash() ==
             AfterSteps(flash.g, old(flash.Flash()), old(FlushPlan()), old(FlushImage()), flash.g.Steps())
        && flash.Recorded(old(flash.driver.trace), flash.driver.trace,
                          FlushImages(flash.g, old(flash.Flash()), old(FlushPlan()), old(FlushImage())))
        && LockedFor(old(lockLog), lockLog,
                     |old(flash.driver.trace)|, |old(flash.driver.trace)| + |old(FlushPlan()).erases|)
    {
      if needUpdate {
        Flush();
      }
    }

    /** A flush with the flag up: the snapshot under the mutex, the program after it. */
    method Flush()
      requires Separate() && flash.Located() && bufferSize <= buffer.Length
      modifies this`needUpdate, this`lockCount, this`lockLog
      modifies flash, flash.driver.memory, flash.driver.scratch, flash.driver`trace, flash.cache
      ensures flash.Located() && bufferSize == old(bufferSize) && Contents() == old(Contents())
      ensures lockCount == old(lockCount) && !needUpdate
      ensures flash.Fields() == Store(old(FlushPlan()).target, Increment(old(FlushPlan()).stamp), bufferSize)
      ensures flash.cache[..] == CacheAfterWrite(flash.g, old(flash.cache[..]), old(FlushPlan()), Contents())
      ensures flash.Flash() ==
                AfterSteps(flash.g, old(flash.Flash()), old(FlushPlan()), old(FlushImage()), flash.g.Steps())
      ensures flash.Recorded(old(flash.driver.trace), flash.driver.trace,
                             FlushImages(flash.g, old(flash.Flash()), old(FlushPlan()), old(FlushImage())))
      ensures LockedFor(old(lockLog), lockLog,
                        |old(flash.driver.trace)|, |old(flash.driver.trace)| + |old(FlushPlan()).erases|)
    {
      ghost var found, before := flash.Flash(), flash.driver.trace;
      ghost var plan, image, contents := FlushPlan(), FlushImage(), Contents();
      TakeSnapshot();
      ghost var filled := flash.cache[..];
      assert image == WordsOf(filled);
      ProgramSnapshot(flash, found, before, plan, image);
      assert Contents() == contents && flash.cache[..] == filled;
    }

    /** The part of a flush that runs under the mutex. */
    method TakeSnapshot()
      requires Separate() && flash.Located() && bufferSize <= buffer.Length
      modifies this`needUpdate, this`lockCount, this`lockLog
      modifies flash, flash.driver.memory, flash.driver`trace, flash.cache
      ensures flash.Located() && bufferSize == old(bufferSize) && Contents() == old(Contents())
      ensures lockCount == old(lockCount) && !needUpdate
      ensures flash.Fields() == Store(old(FlushPlan()).target, Increment(old(FlushPlan()).stamp), bufferSize)
      ensures flash.cache[..] == CacheAfterWrite(flash.g, old(flash.cache[..]), old(FlushPlan()), Contents())
      ensures flash.HasErased(old(flash.Flash()), old(flash.driver.trace), old(FlushPlan()).erases)
      ensures |flash.driver.trace| == |old(flash.driver.trace)| + |old(FlushPlan()).erases|
      ensures LockedFor(old(lockLog), lockLog, |old(flash.driver.trace)|, |flash.driver.trace|)
    {
      ghost var plan, cache, contents := FlushPlan(), flash.cache[..], Contents();
      ghost var found, before := flash.Flash(), flash.driver.trace;
      Lock();
      PutFlag(false);
      assert flash.cache[..] == cache && FlushPlan() == plan;
      WriteSnapshot(found, before, plan, cache);
      ghost var filled := flash.cache[..];
      Unlock();
      assert flash.cache[..] == filled && Contents() == contents;
    }

    method WriteSnapshot(ghost found: Flash, ghost before: seq<seq<Word>>, ghost plan: Plan, ghost cache: seq<Byte>)
      requires 0 < lockCount
      requires Separate() && flash.Located() && bufferSize <= buffer.Length
      requires found == flash.Flash() && before == flash.driver.trace && plan == FlushPlan() && cache == flash.cache[..]
      modifies flash, flash.driver.memory, flash.driver`trace, flash.cache
      ensures flash.Located() && Contents() == old(Contents())
      ensures flash.Fields() == Store(plan.target, Increment(plan.stamp), bufferSize)
      ensures flash.cache[..] == CacheAfterWrite(flash.g, cache, plan, Contents())
      ensures flash.HasErased(found, before, plan.erases)
      ensures |flash.driver.trace| == |before| + |plan.erases|
    {
      flash.Write(buffer[..bufferSize]);
    }
  }

  /** The part of a flush that runs after the mutex is given back. */
  method ProgramSnapshot(manager: FM.FlashManagment, ghost found: Flash, ghost before: seq<seq<Word>>,
                         ghost plan: Plan, ghost image: Block)
    requires manager.Valid() && Shaped(manager.g, found) && plan.target == manager.current
    requires image == WordsOf(manager.cache[..])
    requires manager.HasErased(found, before, plan.erases)
    modifies manager.driver.memory, manager.driver.scratch, manager.driver`trace
    ensures manager.Flash() == AfterSteps(manager.g, found, plan, image, manager.g.Steps())
    ensures manager.Recorded(before, manager.driver.trace, FlushImages(manager.g, found, plan, image))
    ensures manager.cache[..] == old(manager.cache[..]) && manager.Fields() == old(manager.Fields())
  {
    ghost var g, erasing := manager.g, manager.driver.trace;
    WholeBlock(g, found, plan, image);
    manager.WriteToFlash();
    manager.RecordedInTwoParts(before, erasing, manager.driver.trace, EraseImages(g, found, plan.erases),
                               ProgramImages(g, EraseSectors(g, found, plan.erases), plan.target, image));
  }

  /** A reboot from this flash image loads `data`. */
  ghost predicate BootsTo(g: Geometry, memory: seq<Word>, data: Bytes) {
    Sized(g, memory) && Healthy(g, View(g, memory)) && Recovered(g, View(g, memory)) == data
  }

  /** The flush end to end: afterwards the flash boots to the buffer, and a power cut after
      any of its flash operations boots to what was there before, or to nothing if the
      flush had to erase, never to anything else. */
  method FlushAtomically(registry: InternalRegistry)
    requires registry.Valid() && registry.flash.Located() && registry.needUpdate
    requires Settled(registry.flash.g, registry.flash.Flash(), registry.flash.Fields())
    requires PlanWrite(registry.flash.g, registry.flash.Flash(), registry.flash.Fields()).stamp != UINT32_MAX
    modifies registry, registry.flash, registry.flash.driver.memory, registry.flash.driver.scratch
    modifies registry.flash.driver`trace, registry.flash.cache
    ensures registry.Valid() && registry.flash.Located() && registry.Contents() == old(registry.Contents())
    ensures Settled(registry.flash.g, registry.flash.Flash(), registry.flash.Fields())
    ensures Recovered(registry.flash.g, registry.flash.Flash()) == registry.Contents()
    ensures var g, trace := registry.flash.g, registry.flash.driver.trace;
      var plan := PlanWrite(g, old(registry.flash.Flash()), old(registry.flash.Fields()));
      var kept := if plan.erases == [] then Recovered(g, old(registry.flash.Flash())) else [];
      && |trace| == |old(registry.flash.driver.trace)| + |plan.erases| + g.Steps()
      && forall k :: |old(registry.flash.driver.trace)| <= k < |trace| ==>
           BootsTo(g, trace[k], if k == |trace| - 1 then registry.Contents() else kept)
  {
    ghost var g, found, store := registry.flash.g, registry.flash.Flash(), registry.flash.Fields();
    ghost var plan, before := PlanWrite(g, found, store), registry.flash.driver.trace;
    ghost var cache, data := registry.flash.cache[..], registry.Contents();
    registry.EventCheckFlash();
    CrashAtomicity(g, found, store, cache, data, g.Steps());
    EveryImageBoots(registry.flash, before, registry.flash.driver.trace, found, store, cache, data);
  }

  /** A recorded flush: each of its images boots to the old data, or to nothing if it
      erased, except the last, which boots to the new data. */
  lemma EveryImageBoots(manager: FM.FlashManagment, before: seq<seq<Word>>, trace: seq<seq<Word>>,
                        found: Flash, store: Store, cache: seq<Byte>, data: Bytes)
    requires Settled(manager.g, found, store) && PlanWrite(manager.g, found, store).stamp != UINT32_MAX
    requires |cache| == 4 * manager.g.blockWords && |data| <= MaxPayload(manager.g.blockWords)
    requires var plan := PlanWrite(manager.g, found, store);
      manager.Recorded(before, trace, FlushImages(manager.g, found, plan, PlannedImage(manager.g, cache, plan, data)))
    ensures var plan := PlanWrite(manager.g, found, store);
      forall k :: |before| <= k < |trace| ==>
        BootsTo(manager.g, trace[k], if k == |trace| - 1 then data
                                     else if plan.erases == [] then Recovered(manager.g, found) else [])
  {
    var plan := PlanWrite(manager.g, found, store);
    var images := FlushImages(manager.g, found, plan, PlannedImage(manager.g, cache, plan, data));
    forall k | |before| <= k < |trace|
      ensures BootsTo(manager.g, trace[k], if k == |trace| - 1 then data
                else if plan.erases == [] then Recovered(manager.g, found) else [])
    {
      var i := k - |before|;
      assert trace[k] == trace[|before| + i];
      assert manager.Pictures(trace[k], images[i]);
      ImageBoots(manager.g, trace[k], found, store, cache, data, i);
    }
  }

  lemma ImageBoots(g: Geometry, memory: seq<Word>, found: Flash, store: Store, cache: seq<Byte>, data: Bytes, k: nat)
    requires Settled(g, found, store) && PlanWrite(g, found, store).stamp != UINT32_MAX && Sized(g, memory)
    requires |cache| == 4 * g.blockWords && |data| <= MaxPayload(g.blockWords)
    requires var plan := PlanWrite(g, found, store);
      var images := FlushImages(g, found, plan, PlannedImage(g, cache, plan, data));
      k < |images| && View(g, memory) == images[k]
    ensures var plan := PlanWrite(g, found, store);
      var images := FlushImages(g, found, plan, PlannedImage(g, cache, plan, data));
      BootsTo(g, memory, if k == |images| - 1 then data else if plan.erases == [] then Recovered(g, found) else [])
  {
    FlushImagesRecover(g, found, store, cache, data, k);
  }

  /** One persistent cell: a legal write followed by its program step is what `Read`
      returns, and what a fresh constructor on the same flash would find. */
  method StoreAndLoad(manager: FM.FlashManagment, data: seq<Byte>, loaded: array<Byte>) returns (done: nat)
    requires manager.Valid() && Settled(manager.g, manager.Flash(), manager.Fields())
    requires PlanWrite(manager.g, manager.Flash(), manager.Fields()).stamp != UINT32_MAX
    requires |data| <= manager.GetMaxFlashSize() && |data| <= loaded.Length && loaded != manager.cache
    requires (loaded as object) != manager.driver.memory && (loaded as object) != manager.driver.scratch
    modifies manager, manager.driver.memory, manager.driver.scratch, manager.driver`trace, manager.cache, loaded
    ensures manager.Located() && Settled(manager.g, manager.Flash(), manager.Fields())
    ensures done == |data| && loaded[..done] == data
    ensures Recovered(manager.g, manager.Flash()) == data
  {
    StoreData(manager, data);
    done := LoadData(manager, loaded);
  }

  /** `Read` of all that is recorded, on a settled log. */
  method LoadData(manager: FM.FlashManagment, loaded: array<Byte>) returns (done: nat)
    requires manager.Valid() && Settled(manager.g, manager.Flash(), manager.Fields())
    requires manager.size <= loaded.Length && loaded != manager.cache
    requires (loaded as object) != manager.driver.memory
    modifies manager.cache, loaded
    ensures manager.Flash() == old(manager.Flash())
    ensures done == manager.size && loaded[..done] == Recovered(manager.g, old(manager.Flash()))
  {
    ghost var was := loaded[..];
    LoadedIsStored(manager.g, manager.Flash(), manager.Fields());
    SplicePrefix(was, Recovered(manager.g, manager.Flash()));
    done := manager.Read(loaded, manager.size);
  }

  lemma SplicePrefix(target: Bytes, source: Bytes)
    ensures |source| <= |target| ==> Splice(target, 0, source)[..|source|] == source
  {
  }

  /** `Write` and `WriteToFlash`, undisturbed. */
  method StoreData(manager: FM.FlashManagment, data: seq<Byte>)
    requires manager.Valid() && Settled(manager.g, manager.Flash(), manager.Fields())
    requires PlanWrite(manager.g, manager.Flash(), manager.Fields()).stamp != UINT32_MAX
    requires |data| <= manager.GetMaxFlashSize()
    modifies manager, manager.driver.memory, manager.driver.scratch, manager.driver`trace, manager.cache
    ensures manager.Located() && Settled(manager.g, manager.Flash(), manager.Fields())
    ensures Recovered(manager.g, manager.Flash()) == data && manager.size == |data|
  {
    CompletedWrite(manager.g, manager.Flash(), manager.Fields(), manager.cache[..], data);
    StoreBlock(manager, data);
  }

  method StoreBlock(manager: FM.FlashManagment, data: seq<Byte>)
    requires manager.Valid() && |data| <= manager.GetMaxFlashSize()
    modifies manager, manager.driver.memory, manager.driver.scratch, manager.driver`trace, manager.cache
    ensures manager.Located()
    ensures var plan := PlanWrite(manager.g, old(manager.Flash()), old(manager.Fields()));
      && manager.Fields() == Store(plan.target, Increment(plan.stamp), |data|)
      && manager.Flash() == AfterSteps(manager.g, old(manager.Flash()), plan,
           PlannedImage(manager.g, old(manager.cache[..]), plan, data), manager.g.Steps())
  {
    ghost var found, before := manager.Flash(), manager.driver.trace;
    ghost var plan := PlanWrite(manager.g, found, manager.Fields());
    ghost var image := PlannedImage(manager.g, manager.cache[..], plan, data);
    manager.Write(data);
    ProgramSnapshot(manager, found, before, plan, image);
  }

  lemma LoadedIsStored(g: Geometry, flash: Flash, store: Store)
    requires Settled(g, flash, store)
    ensures store.size <= MaxPayload(g.blockWords)
    ensures |Recovered(g, flash)| == store.size
    ensures BytesOf(flash[store.current])[HEADER..HEADER + store.size] == Recovered(g, flash)
  {
  }
}
