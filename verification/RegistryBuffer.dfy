/** The registry's packed byte buffer and the key/value map it stands for. */
module RegistryBuffer {
  import opened Words

  type Bytes = seq<Byte>

  datatype RawEntry = Entry(name: Bytes, value: Bytes)

  /** Name and value sizes are single bytes. */
  type Entry = e: RawEntry | |e.name| < 0x100 && |e.value| < 0x100 witness Entry([], [])

  /** Name size, name, value size, value. */
  function PackEntry(e: Entry): (bytes: Bytes)
    ensures |bytes| == |e.name| + |e.value| + 2
  {
    [|e.name| as Byte] + e.name + [|e.value| as Byte] + e.value
  }

  function Pack(entries: seq<Entry>): Bytes {
    if entries == [] then [] else PackEntry(entries[0]) + Pack(entries[1..])
  }

  predicate HasEntry(bytes: Bytes) {
    1 <= |bytes| && bytes[0] + 1 < |bytes| && EntryLength(bytes) <= |bytes|
  }

  function EntryLength(bytes: Bytes): nat
    requires 1 <= |bytes| && bytes[0] + 1 < |bytes|
  {
    bytes[0] as nat + 2 + bytes[bytes[0] + 1] as nat
  }

  function FirstEntry(bytes: Bytes): Entry
    requires HasEntry(bytes)
  {
    Entry(bytes[1..bytes[0] + 1], bytes[bytes[0] + 2..EntryLength(bytes)])
  }

  /** The bytes are a sequence of whole entries. */
  predicate WellFormed(bytes: Bytes) {
    bytes == [] || (HasEntry(bytes) && WellFormed(bytes[EntryLength(bytes)..]))
  }

  /** The entries that a scan from the start of the buffer visits. */
  function Entries(bytes: Bytes): seq<Entry>
    requires WellFormed(bytes)
  {
    if bytes == [] then [] else [FirstEntry(bytes)] + Entries(bytes[EntryLength(bytes)..])
  }

  /** Scanning recovers exactly the entries that were packed. */
  lemma {:induction false} ScanOfPack(entries: seq<Entry>)
    ensures WellFormed(Pack(entries)) && Entries(Pack(entries)) == entries
  {
    if entries != [] {
      ScanOfPack(entries[1..]);
      var bytes := Pack(entries);
      assert bytes[|PackEntry(entries[0])|..] == Pack(entries[1..]);
      assert EntryLength(bytes) == |PackEntry(entries[0])|;
      assert FirstEntry(bytes) == entries[0];
    }
  }

  /** Repacking a scan gives the same bytes. */
  lemma {:induction false} PackOfScan(bytes: Bytes)
    requires WellFormed(bytes)
    ensures Pack(Entries(bytes)) == bytes
  {
    if bytes != [] {
      PackOfScan(bytes[EntryLength(bytes)..]);
      var entries := Entries(bytes);
      assert entries[1..] == Entries(bytes[EntryLength(bytes)..]);
      FirstEntryPacks(bytes);
    }
  }

  lemma FirstEntryPacks(bytes: Bytes)
    requires HasEntry(bytes)
    ensures PackEntry(FirstEntry(bytes)) == bytes[..EntryLength(bytes)]
  {
  }

  lemma {:induction false} PackOfConcat(first: seq<Entry>, second: seq<Entry>)
    ensures Pack(first + second) == Pack(first) + Pack(second)
  {
    if first == [] {
      assert first + second == second;
    } else {
      assert (first + second)[1..] == first[1..] + second;
      PackOfConcat(first[1..], second);
    }
  }

  /** Where entry `i` starts in the packed buffer. */
  function Offset(entries: seq<Entry>, i: nat): nat
    requires i <= |entries|
  {
    |Pack(entries[..i])|
  }

  lemma PackAround(entries: seq<Entry>, i: nat)
    requires i < |entries|
    ensures Pack(entries) == Pack(entries[..i]) + PackEntry(entries[i]) + Pack(entries[i + 1..])
    ensures Offset(entries, i + 1) == Offset(entries, i) + |PackEntry(entries[i])|
    ensures Offset(entries, i + 1) <= |Pack(entries)|
  {
    assert entries == entries[..i] + entries[i..];
    assert entries[i..] == [entries[i]] + entries[i + 1..];
    PackOfConcat(entries[..i], entries[i..]);
    assert entries[..i + 1] == entries[..i] + [entries[i]];
    PackOfConcat(entries[..i], [entries[i]]);
  }

  /** The bytes from `at` on are this entry. */
  ghost predicate HoldsEntry(bytes: Bytes, at: nat, e: Entry) {
    at + |PackEntry(e)| <= |bytes| && bytes[at..at + |PackEntry(e)|] == PackEntry(e)
  }

  /** Entry `i` lies at its offset. */
  lemma EntryAt(bytes: Bytes, i: nat)
    requires WellFormed(bytes) && i < |Entries(bytes)|
    ensures var entries := Entries(bytes);
      && HoldsEntry(bytes, Offset(entries, i), entries[i])
      && Offset(entries, i + 1) == Offset(entries, i) + |PackEntry(entries[i])|
  {
    PackOfScan(bytes);
    PackAround(Entries(bytes), i);
  }

  /** The fields of an entry, each at its place. */
  lemma FieldsOfEntry(bytes: Bytes, at: nat, e: Entry)
    requires HoldsEntry(bytes, at, e)
    ensures bytes[at] == |e.name| && bytes[at + 1..at + 1 + |e.name|] == e.name
    ensures bytes[at + 1 + |e.name|] == |e.value|
    ensures bytes[at + 2 + |e.name|..at + 2 + |e.name| + |e.value|] == e.value
  {
    var packed := PackEntry(e);
    assert forall k :: at <= k < at + |packed| ==> bytes[k] == packed[k - at];
  }

  lemma SliceOfPrefix(buffer: Bytes, used: nat, at: nat, count: nat)
    requires at + count <= used <= |buffer|
    ensures buffer[..used][at..at + count] == buffer[at..at + count]
  {
  }

  lemma OffsetOfEnd(entries: seq<Entry>)
    ensures Offset(entries, 0) == 0 && Offset(entries, |entries|) == |Pack(entries)|
  {
    assert entries[..|entries|] == entries;
  }

  // ---------- The map ----------

  /** The first entry with this name. */
  function Find(entries: seq<Entry>, name: Bytes): (found: Option<nat>)
    ensures found.None? ==> forall i :: 0 <= i < |entries| ==> entries[i].name != name
    ensures found.Some? ==>
      && found.value < |entries| && entries[found.value].name == name
      && forall i :: 0 <= i < found.value ==> entries[i].name != name
  {
    if entries == [] then None
    else if entries[0].name == name then Some(0)
    else
      match Find(entries[1..], name)
      case None => None
      case Some(i) => Some(i + 1)
  }

  ghost predicate Distinct(entries: seq<Entry>) {
    forall i, j :: 0 <= i < j < |entries| ==> entries[i].name != entries[j].name
  }

  /** Lookups find the first entry, so earlier entries win. */
  function ToMap(entries: seq<Entry>): map<Bytes, Bytes> {
    if entries == [] then map[] else ToMap(entries[1..])[entries[0].name := entries[0].value]
  }

  /** Looking a name up in the map is searching the entries for it. */
  lemma {:induction false} ToMapAt(entries: seq<Entry>, name: Bytes)
    ensures name in ToMap(entries) <==> Find(entries, name).Some?
    ensures Find(entries, name).Some? ==> ToMap(entries)[name] == entries[Find(entries, name).value].value
  {
    if entries != [] && entries[0].name != name {
      ToMapAt(entries[1..], name);
    }
  }

  /** What the registry keeps in its buffer. */
  ghost predicate Sound(bytes: Bytes) {
    WellFormed(bytes) && Distinct(Entries(bytes))
  }

  /** The map a sound buffer stands for. */
  ghost function MapOf(bytes: Bytes): map<Bytes, Bytes>
    requires WellFormed(bytes)
  {
    ToMap(Entries(bytes))
  }

  // ---------- The space a map takes ----------

  /** The bytes of all entries of a map: sizes, names and values. */
  ghost function Footprint(m: map<Bytes, Bytes>): nat {
    if m == map[] then 0
    else
      var name :| name in m;
      2 + |name| + |m[name]| + Footprint(m - {name})
  }

  /** Any name may be counted first. */
  lemma {:induction false} FootprintOf(m: map<Bytes, Bytes>, name: Bytes)
    requires name in m
    ensures Footprint(m) == 2 + |name| + |m[name]| + Footprint(m - {name})
    decreases |m|
  {
    var first :| first in m && Footprint(m) == 2 + |first| + |m[first]| + Footprint(m - {first});
    if first != name {
      var rest := m - {first};
      FootprintOf(rest, name);
      FootprintOf(m - {name}, first);
      assert rest - {name} == m - {name} - {first};
    }
  }

  /** A packing of distinct names takes exactly the space of its map. */
  lemma {:induction false} PackFillsFootprint(entries: seq<Entry>)
    requires Distinct(entries)
    ensures |Pack(entries)| == Footprint(ToMap(entries))
  {
    if entries != [] {
      var first, rest := entries[0], entries[1..];
      assert Distinct(rest);
      PackFillsFootprint(rest);
      ToMapAt(rest, first.name);
      assert ToMap(entries) - {first.name} == ToMap(rest);
      FootprintOf(ToMap(entries), first.name);
    }
  }

  lemma SizeIsFootprint(bytes: Bytes)
    requires Sound(bytes)
    ensures |bytes| == Footprint(MapOf(bytes))
  {
    PackOfScan(bytes);
    PackFillsFootprint(Entries(bytes));
  }

  // ---------- The operations ----------

  /** When a write is accepted, by the map alone: a name that is there takes values of its
      present size, and a new name is taken if the value still has room behind all entries. */
  ghost predicate Accepts(m: map<Bytes, Bytes>, capacity: nat, name: Bytes, value: Bytes) {
    if name in m then |m[name]| == |value| else |value| + Footprint(m) <= capacity
  }

  datatype Outcome = Updated | Appended | SizeMismatch | NoSpace

  function WriteOutcome(bytes: Bytes, e: Entry, capacity: nat): Outcome
    requires WellFormed(bytes)
  {
    match Find(Entries(bytes), e.name)
    case Some(i) => if |Entries(bytes)[i].value| != |e.value| then SizeMismatch else Updated
    case None => if |e.value| + |bytes| > capacity then NoSpace else Appended
  }

  /** The buffer after `Write`. */
  function Written(bytes: Bytes, e: Entry, capacity: nat): Bytes
    requires WellFormed(bytes)
  {
    match WriteOutcome(bytes, e, capacity)
    case Updated => Pack(Entries(bytes)[Find(Entries(bytes), e.name).value := e])
    case Appended => bytes + PackEntry(e)
    case _ => bytes
  }

  /** The buffer after `Delete`. */
  function Deleted(bytes: Bytes, name: Bytes): Bytes
    requires WellFormed(bytes)
  {
    match Find(Entries(bytes), name)
    case Some(i) => Pack(Entries(bytes)[..i] + Entries(bytes)[i + 1..])
    case None => bytes
  }

  lemma EntriesAfterAppend(bytes: Bytes, e: Entry)
    requires WellFormed(bytes)
    ensures WellFormed(bytes + PackEntry(e)) && Entries(bytes + PackEntry(e)) == Entries(bytes) + [e]
  {
    PackOfScan(bytes);
    PackOfConcat(Entries(bytes), [e]);
    assert Pack([e]) == PackEntry(e);
    ScanOfPack(Entries(bytes) + [e]);
  }

  lemma {:induction false} ToMapOfAppend(entries: seq<Entry>, e: Entry)
    requires Find(entries, e.name).None?
    ensures ToMap(entries + [e]) == ToMap(entries)[e.name := e.value]
  {
    if entries != [] {
      assert (entries + [e])[1..] == entries[1..] + [e];
      assert entries[0].name != e.name;
      ToMapOfAppend(entries[1..], e);
    } else {
      assert ([e])[1..] == [];
    }
  }

  lemma {:induction false} ToMapOfUpdate(entries: seq<Entry>, i: nat, e: Entry)
    requires Find(entries, e.name) == Some(i)
    ensures ToMap(entries[i := e]) == ToMap(entries)[e.name := e.value]
  {
    if i == 0 {
      assert entries[i := e][1..] == entries[1..];
    } else {
      assert entries[i := e][1..] == entries[1..][i - 1 := e];
      ToMapOfUpdate(entries[1..], i - 1, e);
    }
  }

  lemma {:induction false} ToMapOfRemove(entries: seq<Entry>, i: nat)
    requires Distinct(entries) && i < |entries|
    ensures ToMap(entries[..i] + entries[i + 1..]) == ToMap(entries) - {entries[i].name}
  {
    var rest := entries[1..];
    if i == 0 {
      assert entries[..i] + entries[i + 1..] == rest;
      ToMapAt(rest, entries[0].name);
    } else {
      assert (entries[..i] + entries[i + 1..])[1..] == rest[..i - 1] + rest[i..];
      ToMapOfRemove(rest, i - 1);
    }
  }

  lemma DistinctAfterRemove(entries: seq<Entry>, i: nat)
    requires Distinct(entries) && i < |entries|
    ensures Distinct(entries[..i] + entries[i + 1..])
  {
    var after := entries[..i] + entries[i + 1..];
    forall j, k | 0 <= j < k < |after|
      ensures after[j].name != after[k].name
    {
      assert after[j] == entries[if j < i then j else j + 1];
      assert after[k] == entries[if k < i then k else k + 1];
    }
  }

  lemma DistinctAfterUpdate(entries: seq<Entry>, i: nat, e: Entry)
    requires Distinct(entries) && i < |entries| && entries[i].name == e.name
    ensures Distinct(entries[i := e])
  {
  }

  lemma DistinctAfterAppend(entries: seq<Entry>, e: Entry)
    requires Distinct(entries) && Find(entries, e.name).None?
    ensures Distinct(entries + [e])
  {
  }

  /** `Write` refines map update; when sizes disagree or space is short it changes nothing. */
  lemma WriteRefinesUpdate(bytes: Bytes, e: Entry, capacity: nat)
    requires Sound(bytes)
    ensures var after, outcome := Written(bytes, e, capacity), WriteOutcome(bytes, e, capacity);
      && Sound(after)
      && (if outcome in {Updated, Appended} then MapOf(after) == MapOf(bytes)[e.name := e.value] else after == bytes)
      && (outcome == Updated ==> |after| == |bytes|)
      && (outcome == Updated <==> e.name in MapOf(bytes) && |MapOf(bytes)[e.name]| == |e.value|)
      && (outcome == SizeMismatch <==> e.name in MapOf(bytes) && |MapOf(bytes)[e.name]| != |e.value|)
      && (outcome == Appended <==> e.name !in MapOf(bytes) && |e.value| + |bytes| <= capacity)
      && (outcome == NoSpace <==> e.name !in MapOf(bytes) && |e.value| + |bytes| > capacity)
      && (outcome in {Updated, Appended} <==> Accepts(MapOf(bytes), capacity, e.name, e.value))
  {
    var entries := Entries(bytes);
    SizeIsFootprint(bytes);
    PackOfScan(bytes);
    ToMapAt(entries, e.name);
    match Find(entries, e.name)
    case None =>
      EntriesAfterAppend(bytes, e);
      ToMapOfAppend(entries, e);
      DistinctAfterAppend(entries, e);
    case Some(i) =>
      ToMapOfUpdate(entries, i, e);
      DistinctAfterUpdate(entries, i, e);
      ScanOfPack(entries[i := e]);
      UpdateKeepsLength(entries, i, e);
  }

  lemma UpdateKeepsLength(entries: seq<Entry>, i: nat, e: Entry)
    requires i < |entries| && |entries[i].name| == |e.name|
    ensures |Pack(entries[i := e])| == |Pack(entries)| - |entries[i].value| + |e.value|
  {
    PackAround(entries, i);
    PackAround(entries[i := e], i);
    assert entries[i := e][..i] == entries[..i] && entries[i := e][i + 1..] == entries[i + 1..];
  }

  /** `Delete` refines map removal and never grows the buffer. */
  lemma DeleteRefinesRemoval(bytes: Bytes, name: Bytes)
    requires Sound(bytes)
    ensures var after := Deleted(bytes, name);
      && Sound(after) && MapOf(after) == MapOf(bytes) - {name} && |after| <= |bytes|
      && (name !in MapOf(bytes) ==> after == bytes)
  {
    var entries := Entries(bytes);
    PackOfScan(bytes);
    ToMapAt(entries, name);
    match Find(entries, name)
    case None =>
    case Some(i) =>
      ToMapOfRemove(entries, i);
      DistinctAfterRemove(entries, i);
      ScanOfPack(entries[..i] + entries[i + 1..]);
      PackAround(entries, i);
      PackOfConcat(entries[..i], entries[i + 1..]);
  }

  /** Closing the gap that entry `k` leaves is deleting it. */
  lemma DeletedInPlace(bytes: Bytes, name: Bytes, k: nat)
    requires WellFormed(bytes) && Find(Entries(bytes), name) == Some(k)
    ensures var start, next := Offset(Entries(bytes), k), Offset(Entries(bytes), k + 1);
      start <= next <= |bytes| && bytes[..start] + bytes[next..] == Deleted(bytes, name)
  {
    var entries := Entries(bytes);
    PackOfScan(bytes);
    PackAround(entries, k);
    PackOfConcat(entries[..k], entries[k + 1..]);
    CutOut(Pack(entries[..k]), PackEntry(entries[k]), Pack(entries[k + 1..]));
  }

  lemma CutOut(before: Bytes, middle: Bytes, rest: Bytes)
    ensures var whole := before + middle + rest;
      whole[..|before|] + whole[|before| + |middle|..] == before + rest
  {
  }

  /** The space test of `Write` counts only the value. It keeps every append of a new name
      inside the buffer if and only if the largest possible entry would still fit. */
  lemma SpaceTestSufficesIff(bytes: Bytes, name: Bytes, capacity: nat)
    requires WellFormed(bytes) && |bytes| <= capacity && |name| < 0x100
    requires Find(Entries(bytes), name).None?
    ensures |bytes| + |name| + 0x101 <= capacity <==>
      forall value: Bytes :: |value| < 0x100 && WriteOutcome(bytes, Entry(name, value), capacity) == Appended ==>
        |bytes| + |PackEntry(Entry(name, value))| <= capacity
  {
    if capacity < |bytes| + |name| + 0x101 {
      var room := capacity - |bytes|;
      var value: Bytes := seq(if room < 0xFF then room else 0xFF, _ => 0);
      assert WriteOutcome(bytes, Entry(name, value), capacity) == Appended;
      assert |bytes| + |PackEntry(Entry(name, value))| > capacity;
    }
  }

  /** With the block size the registry is configured with, the test lets an entry through
      that overruns the buffer. */
  lemma SpaceTestAdmitsOverrun() returns (bytes: Bytes, e: Entry)
    ensures Sound(bytes) && |bytes| <= 496
    ensures WriteOutcome(bytes, e, 496) == Appended && |bytes| + |PackEntry(e)| > 496
  {
    var first: Entry := Entry([0], seq(255, _ => 0));
    bytes := PackEntry(first);
    e := Entry([1], seq(238, _ => 0));
    assert [] + PackEntry(first) == bytes;
    EntriesAfterAppend([], first);
    assert Entries(bytes) == [first];
  }

  /** Both early returns of `Write` are taken on some legal buffer of that block size. */
  lemma EarlyReturnsHappen() returns (bytes: Bytes, resized: Entry, large: Entry)
    ensures Sound(bytes) && |bytes| <= 496
    ensures WriteOutcome(bytes, resized, 496) == SizeMismatch && WriteOutcome(bytes, large, 496) == NoSpace
  {
    var first: Entry := Entry([0], seq(255, _ => 0));
    bytes := PackEntry(first);
    resized := Entry([0], [0]);
    large := Entry([1], seq(255, _ => 0));
    assert [] + PackEntry(first) == bytes;
    EntriesAfterAppend([], first);
    assert Entries(bytes) == [first];
  }
}
