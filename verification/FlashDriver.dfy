/** The internal flash driver: word-granular reads, writes split into whole flash
    words, and sector erase, over an array that models the registry's flash. One
    program operation covers a flash word: 8 words, 32 bytes, aligned to 32. */
module FlashDriver {
  import opened Words

  /** Programming can only clear bits: each word in range becomes old AND new. */
  function Programmed(flash: seq<Word>, start: nat, words: seq<Word>): (result: seq<Word>)
    requires start + |words| <= |flash|
    ensures |result| == |flash|
  {
    seq(|flash|, i requires 0 <= i < |flash| =>
      if start <= i < start + |words| then And(flash[i], words[i - start]) as Word else flash[i])
  }

  /** What programming these words does to the bits of the flash: in range a bit stays set
      exactly if it was set and is to be set, so that none is ever set anew; elsewhere
      nothing changes. */
  ghost predicate ClearsBits(before: seq<Word>, after: seq<Word>, start: nat, words: seq<Word>)
    requires start + |words| <= |before| == |after|
  {
    forall i, k: nat :: 0 <= i < |before| ==>
      (Bit(after[i], k) <==> Bit(before[i], k) && (start <= i < start + |words| ==> Bit(words[i - start], k)))
  }

  lemma ProgrammedClearsBits(flash: seq<Word>, start: nat, words: seq<Word>)
    requires start + |words| <= |flash|
    ensures ClearsBits(flash, Programmed(flash, start, words), start, words)
  {
    forall i, k: nat | start <= i < start + |words|
      ensures Bit(Programmed(flash, start, words)[i], k) <==> Bit(flash[i], k) && Bit(words[i - start], k)
    {
      AndIsBitwise(flash[i], words[i - start], k);
    }
  }

  /** Flash contents that answer to the same bits are the same, so the bits leave no choice. */
  lemma BitsDetermineFlash(before: seq<Word>, first: seq<Word>, second: seq<Word>, start: nat, words: seq<Word>)
    requires start + |words| <= |before| == |first| == |second|
    requires ClearsBits(before, first, start, words) && ClearsBits(before, second, start, words)
    ensures first == second
  {
    forall i | 0 <= i < |before|
      ensures first[i] == second[i]
    {
      forall k: nat
        ensures Bit(first[i], k) <==> Bit(second[i], k)
      {
      }
      BitsDetermine(first[i], second[i]);
    }
  }

  /** Erasing sets every bit of `count` words. */
  function Erased(flash: seq<Word>, start: nat, count: nat): (result: seq<Word>)
    requires start + count <= |flash|
    ensures |result| == |flash|
  {
    seq(|flash|, i requires 0 <= i < |flash| =>
      if start <= i < start + count then UINT32_MAX else flash[i])
  }

  function Min(a: nat, b: nat): nat {
    if a < b then a else b
  }

  /** How many flash words a write of `count` words from word `start` programs. A
      misaligned write of nothing still programs its head. */
  function ProgramSteps(start: nat, count: nat): nat {
    (start % 8 + count + 8 - 1) / 8
  }

  /** How many words of the write have reached the flash after `steps` programs. */
  function WordsDone(start: nat, count: nat, steps: nat): nat {
    if steps == 0 then 0 else Min(count, 8 * steps - start % 8)
  }

  /** The torn-write shape: `images` are the flash after each program of one write, every
      one of them complete up to a flash-word boundary and untouched after it. */
  ghost predicate TracesWrite(images: seq<seq<Word>>, flash: seq<Word>, start: nat, words: seq<Word>)
    requires start + |words| <= |flash|
  {
    && |images| == ProgramSteps(start, |words|)
    && forall k :: 0 <= k < |images| ==>
         images[k] == Programmed(flash, start, words[..WordsDone(start, |words|, k + 1)])
  }

  /** The images of the aligned loop alone: flash words `0..|images|` of an aligned write. */
  ghost predicate TracesBody(images: seq<seq<Word>>, flash: seq<Word>, start: nat, words: seq<Word>)
    requires start + |words| <= |flash|
  {
    && 8 * |images| <= |words|
    && forall k :: 0 <= k < |images| ==> images[k] == Programmed(flash, start, words[..8 * (k + 1)])
  }

  /** One more iteration of the aligned loop. */
  lemma BodyStep(images: seq<seq<Word>>, flash: seq<Word>, start: nat, words: seq<Word>)
    requires start + |words| <= |flash| && 8 * |images| + 8 <= |words|
    requires TracesBody(images, flash, start, words)
    ensures var done := words[..8 * |images|];
      var more := words[8 * |images|..8 * |images| + 8];
      var next := Programmed(Programmed(flash, start, done), start + 8 * |images|, more);
      && next == Programmed(flash, start, words[..8 * |images| + 8])
      && TracesBody(images + [next], flash, start, words)
  {
    var i := 8 * |images|;
    ProgrammedInTwoParts(flash, start, words[..i], words[i..i + 8]);
    assert words[..i] + words[i..i + 8] == words[..i + 8];
  }

  /** The aligned loop's images, and the padded tail's if there is one. */
  lemma TracesBodyAndTail(flash: seq<Word>, at: nat, words: seq<Word>, body: seq<seq<Word>>, tail: seq<seq<Word>>)
    requires at + |words| <= |flash| && at % 8 == 0
    requires |body| == |words| / 8 && TracesBody(body, flash, at, words)
    requires tail == if |words| % 8 == 0 then [] else [Programmed(flash, at, words)]
    ensures TracesWrite(body + tail, flash, at, words)
  {
    assert words[..|words|] == words;
  }

  lemma StepsAfterHead(at: nat, count: nat)
    requires at % 8 != 0 && 8 - at % 8 < count
    ensures var done := 8 - at % 8;
      ProgramSteps(at, count) == 1 + ProgramSteps(at + done, count - done)
  {
  }

  lemma WordsAfterHead(at: nat, count: nat, steps: nat)
    requires at % 8 != 0 && 8 - at % 8 < count && 0 < steps
    ensures var done := 8 - at % 8;
      WordsDone(at, count, steps + 1) == done + WordsDone(at + done, count - done, steps)
  {
  }

  /** The head's image in front of those of the aligned rest. */
  lemma TracesHeadAndRest(flash: seq<Word>, at: nat, words: seq<Word>, done: nat, rest: seq<seq<Word>>)
    requires at + |words| <= |flash| && at % 8 != 0 && done == Min(|words|, 8 - at % 8)
    requires if done == |words| then rest == []
      else TracesWrite(rest, Programmed(flash, at, words[..done]), at + done, words[done..])
    ensures TracesWrite([Programmed(flash, at, words[..done])] + rest, flash, at, words)
  {
    var images := [Programmed(flash, at, words[..done])] + rest;
    if done < |words| {
      StepsAfterHead(at, |words|);
      forall k | 1 <= k < |images|
        ensures images[k] == Programmed(flash, at, words[..WordsDone(at, |words|, k + 1)])
      {
        ImageAfterHead(flash, at, words, done, k);
      }
    }
  }

  lemma ImageAfterHead(flash: seq<Word>, at: nat, words: seq<Word>, done: nat, steps: nat)
    requires at + |words| <= |flash| && at % 8 != 0 && done == 8 - at % 8 < |words| && 0 < steps
    ensures var upto, all := WordsDone(at + done, |words| - done, steps), WordsDone(at, |words|, steps + 1);
      && upto <= |words| - done && all <= |words|
      && Programmed(Programmed(flash, at, words[..done]), at + done, words[done..][..upto])
         == Programmed(flash, at, words[..all])
  {
    var upto := WordsDone(at + done, |words| - done, steps);
    WordsAfterHead(at, |words|, steps);
    ProgrammedInTwoParts(flash, at, words[..done], words[done..][..upto]);
    assert words[..done] + words[done..][..upto] == words[..done + upto];
  }

  lemma ProgrammedInTwoParts(flash: seq<Word>, start: nat, first: seq<Word>, second: seq<Word>)
    requires start + |first| + |second| <= |flash|
    ensures Programmed(Programmed(flash, start, first), start + |first|, second)
         == Programmed(flash, start, first + second)
  {
  }

  lemma HeadThenRest(flash: seq<Word>, at: nat, words: seq<Word>, done: nat, result: seq<Word>)
    requires at + |words| <= |flash| && done <= |words|
    requires result == Programmed(Programmed(flash, at, words[..done]), at + done, words[done..])
    ensures result == Programmed(flash, at, words)
  {
    ProgrammedInTwoParts(flash, at, words[..done], words[done..]);
    assert words == words[..done] + words[done..];
  }

  /** Words of a flash word that a write does not cover survive its all-ones padding. */
  lemma PaddingIsNeutral(flash: seq<Word>, start: nat, words: seq<Word>, padding: seq<Word>)
    requires start + |words| + |padding| <= |flash|
    requires forall i :: 0 <= i < |padding| ==> padding[i] == UINT32_MAX
    ensures Programmed(flash, start, words + padding) == Programmed(flash, start, words)
  {
    forall i | start + |words| <= i < start + |words| + |padding|
      ensures And(flash[i], UINT32_MAX) == flash[i]
    {
      ErasedIsNeutral(flash[i]);
    }
  }

  /** Reading a flash word, masking some of its words and programming it back only
      affects the masked ones. */
  lemma MaskedReadBack(flash: seq<Word>, at: nat, skip: nat, words: seq<Word>, buffer: seq<Word>)
    requires at + 8 <= |flash| && skip + |words| <= 8 == |buffer|
    requires forall i :: 0 <= i < 8 ==>
      buffer[i] == if skip <= i < skip + |words| then And(flash[at + i], words[i - skip]) else flash[at + i]
    ensures Programmed(flash, at, buffer) == Programmed(flash, at + skip, words)
  {
    forall i | at <= i < at + 8
      ensures Programmed(flash, at, buffer)[i] == Programmed(flash, at + skip, words)[i]
    {
      AndIdempotent(flash[i]);
      if skip <= i - at < skip + |words| {
        AndAbsorbs(flash[i], words[i - at - skip]);
      }
    }
  }

  /** `INTERNAL_FLASH_SECTOR_SIZE`, in bytes. */
  const SECTOR_SIZE := 0x2_0000
  const BANK_1 := 0x0800_0000
  const BANK_2 := 0x0810_0000
  const FLASH_END := 0x0820_0000

  /** The table of `GetSecotr`; `halError` is what it answers outside the flash. */
  function SectorNumber(address: nat, halError: nat): nat {
    if 0x0800_0000 <= address < 0x0802_0000 then 0
    else if 0x0802_0000 <= address < 0x0804_0000 then 1
    else if 0x0804_0000 <= address < 0x0806_0000 then 2
    else if 0x0806_0000 <= address < 0x0808_0000 then 3
    else if 0x0808_0000 <= address < 0x080A_0000 then 4
    else if 0x080A_0000 <= address < 0x080C_0000 then 5
    else if 0x080C_0000 <= address < 0x080E_0000 then 6
    else if 0x080E_0000 <= address < 0x0810_0000 then 7
    else if 0x0810_0000 <= address < 0x0812_0000 then 0
    else if 0x0812_0000 <= address < 0x0814_0000 then 1
    else if 0x0814_0000 <= address < 0x0816_0000 then 2
    else if 0x0816_0000 <= address < 0x0818_0000 then 3
    else if 0x0818_0000 <= address < 0x081A_0000 then 4
    else if 0x081A_0000 <= address < 0x081C_0000 then 5
    else if 0x081C_0000 <= address < 0x081E_0000 then 6
    else if 0x081E_0000 <= address < 0x0820_0000 then 7
    else halError
  }

  /** The bank that `Earse` picks. */
  function BankOf(address: nat): nat {
    if address < BANK_2 then BANK_1 else BANK_2
  }

  /** The first address of the sector that contains `address`. */
  function SectorStart(address: nat): nat {
    address - address % SECTOR_SIZE
  }

  /** Bank and sector number together name exactly the aligned sector around the address,
      so erasing it touches the addresses with the same quotient by the sector size. */
  lemma SectorTableIsDivision(address: nat, halError: nat)
    requires BANK_1 <= address < FLASH_END
    ensures SectorNumber(address, halError) < 8
    ensures BankOf(address) + SECTOR_SIZE * SectorNumber(address, halError) == SectorStart(address)
  {
    var sector := (address - BankOf(address)) / SECTOR_SIZE;
    assert SectorNumber(address, halError) == sector;
  }

  lemma SectorAround(k: nat, address: nat)
    requires SECTOR_SIZE * k <= address < SECTOR_SIZE * (k + 1)
    ensures SectorStart(address) == SECTOR_SIZE * k
  {
  }

  /** All addresses of one sector have the number of its first address. */
  lemma SameSectorNumber(k: nat, address: nat, halError: nat)
    requires BANK_1 <= SECTOR_SIZE * k <= address < SECTOR_SIZE * (k + 1) <= FLASH_END
    ensures SectorNumber(address, halError) == SectorNumber(SECTOR_SIZE * k, halError)
  {
    SectorAround(k, address);
    SectorAround(k, SECTOR_SIZE * k);
    SectorTableIsDivision(address, halError);
    SectorTableIsDivision(SECTOR_SIZE * k, halError);
  }

  /** The erase unit of the driver and the sector comparison of the flash manager agree:
      two addresses share bank and sector number exactly when their distances to an aligned
      start have the same quotient by the sector size. */
  lemma SectorsAgree(start: nat, a: nat, b: nat, halError: nat)
    requires BANK_1 <= start <= a < FLASH_END && start <= b < FLASH_END && start % SECTOR_SIZE == 0
    ensures BankOf(a) == BankOf(b) && SectorNumber(a, halError) == SectorNumber(b, halError)
      <==> (a - start) / SECTOR_SIZE == (b - start) / SECTOR_SIZE
  {
    SectorTableIsDivision(a, halError);
    SectorTableIsDivision(b, halError);
    var k := start / SECTOR_SIZE;
    SectorAround(k + (a - start) / SECTOR_SIZE, a);
    SectorAround(k + (b - start) / SECTOR_SIZE, b);
  }

  lemma SplitAddress(quotient: nat, rest: nat)
    requires rest < 8
    ensures (8 * quotient + rest) % 8 == rest
  {
  }

  /** The word index of a word-aligned address keeps its offset inside the flash word. */
  lemma Alignment(address: nat, base: nat)
    requires address % 4 == 0 && base % 32 == 0 && base <= address
    ensures var misaligned := address % 32 / 4;
      && misaligned < 8 && (address - base) / 4 % 8 == misaligned
      && base + 4 * misaligned <= address && (address - 4 * misaligned) % 32 == 0
      && (address - 4 * misaligned - base) / 4 == (address - base) / 4 - misaligned
  {
    var misaligned := address % 32 / 4;
    assert address == 32 * (address / 32) + 4 * misaligned;
    assert base == 32 * (base / 32);
    assert (address - base) / 4 == 8 * (address / 32 - base / 32) + misaligned;
    SplitAddress(address / 32 - base / 32, misaligned);
  }

  lemma FlashWordFits(index: nat, length: nat)
    requires index <= length && length % 8 == 0 && index % 8 != 0
    ensures index - index % 8 + 8 <= length
  {
    assert index == 8 * (index / 8) + index % 8;
    assert length == 8 * (length / 8);
  }

  class InternalFlashDriver {
    /** Byte address of the first modelled word. */
    const base: nat
    const memory: array<Word>
    /** The value of `HAL_ERROR`, from a header that is not part of this model. */
    const halError: nat
    /** The function-local static `s_buffer`. */
    const scratch: array<Word>
    /** The flash image after every program and erase so far: what a power cut can leave. */
    ghost var trace: seq<seq<Word>>

    ghost predicate Valid() {
      && base % 32 == 0
      && memory.Length % 8 == 0
      && base + 4 * memory.Length <= UINT32_MAX
      && scratch.Length == 8
      && scratch != memory
    }

    predicate Covers(address: nat, count: nat)
    {
      base <= address && address + 4 * count <= base + 4 * memory.Length
    }

    function Index(address: nat): nat
      requires base <= address
    {
      (address - base) / 4
    }

    constructor (base: nat, halError: nat, memory: array<Word>)
      requires base % 32 == 0 && memory.Length % 8 == 0
      requires base + 4 * memory.Length <= UINT32_MAX
      ensures Valid() && this.base == base && this.halError == halError && this.memory == memory
      ensures fresh(scratch) && trace == []
    {
      this.base := base;
      this.halError := halError;
      this.memory := memory;
      scratch := new Word[8];
      trace := [];
    }

    method Read(address: nat, buffer: array<Word>, count: nat) returns (ok: bool)
      requires Valid() && count <= buffer.Length && buffer != memory
      requires address % 4 == 0 ==> Covers(address, count)
      modifies buffer
      ensures ok == (address % 4 == 0)
      ensures ok ==> forall k :: 0 <= k < buffer.Length ==>
        buffer[k] == if k < count then memory[Index(address) + k] else old(buffer[k])
      ensures !ok ==> buffer[..] == old(buffer[..])
    {
      if address % 4 != 0 {
        return false;
      }
      ReadWords(Index(address), buffer, count);
      return true;
    }

    /** The copying loop of `Read`. */
    method ReadWords(at: nat, buffer: array<Word>, count: nat)
      requires count <= buffer.Length && buffer != memory && at + count <= memory.Length
      modifies buffer
      ensures forall k :: 0 <= k < buffer.Length ==>
        buffer[k] == if k < count then memory[at + k] else old(buffer[k])
    {
      for i := 0 to count
        invariant forall k :: 0 <= k < buffer.Length ==>
          buffer[k] == if k < i then memory[at + k] else old(buffer[k])
      {
        buffer[i] := memory[at + i];
      }
    }

    /** The hardware operation: AND one aligned flash word into the array, atomically. */
    method ProgramFlashWord(at: nat, words: seq<Word>)
      requires at % 8 == 0 && |words| == 8 && at + 8 <= memory.Length
      modifies memory, `trace
      ensures memory[..] == Programmed(old(memory[..]), at, words)
      ensures trace == old(trace) + [memory[..]]
    {
      for i := 0 to 8
        invariant trace == old(trace)
        invariant forall k :: 0 <= k < memory.Length ==>
          memory[k] == if at <= k < at + i then And(old(memory[k]), words[k - at]) else old(memory[k])
      {
        memory[at + i] := And(memory[at + i], words[i]);
      }
      trace := trace + [memory[..]];
    }

    /** The masking loop of the head. */
    method MaskScratch(skip: nat, words: seq<Word>)
      requires scratch.Length == 8 && skip + |words| <= 8
      modifies scratch
      ensures forall k :: 0 <= k < 8 ==>
        scratch[k] == if skip <= k < skip + |words| then And(old(scratch[k]), words[k - skip]) else old(scratch[k])
    {
      for i := 0 to |words|
        invariant forall k :: 0 <= k < 8 ==>
          scratch[k] == if skip <= k < skip + i then And(old(scratch[k]), words[k - skip]) else old(scratch[k])
      {
        scratch[skip + i] := And(scratch[skip + i], words[i]);
      }
    }

    /** Read a flash word back, mask `words` in from word `skip` on, and program it. */
    method ProgramMasked(aligned: nat, skip: nat, words: seq<Word>)
      requires Valid() && aligned % 8 == 0 && aligned + 8 <= memory.Length && skip + |words| <= 8
      modifies memory, scratch, `trace
      ensures memory[..] == Programmed(old(memory[..]), aligned + skip, words)
      ensures trace == old(trace) + [memory[..]]
    {
      ghost var flash := memory[..];
      ReadWords(aligned, scratch, 8);
      assert forall k :: 0 <= k < 8 ==> scratch[k] == flash[aligned + k];
      MaskScratch(skip, words);
      assert memory[..] == flash;
      MaskedReadBack(flash, aligned, skip, words, scratch[..]);
      ProgramFlashWord(aligned, scratch[..]);
    }

    /** The misaligned head, clipped when the write ends inside the first flash word. */
    method WriteHead(at: nat, misaligned: nat, buffer: seq<Word>) returns (done: nat)
      requires Valid() && 0 < misaligned == at % 8 && at + |buffer| <= memory.Length
      modifies memory, scratch, `trace
      ensures done == Min(|buffer|, 8 - misaligned)
      ensures memory[..] == Programmed(old(memory[..]), at, buffer[..done])
      ensures trace == old(trace) + [memory[..]]
    {
      FlashWordFits(at, memory.Length);
      done := 8 - misaligned;
      if done > |buffer| {
        done := |buffer|;
      }
      ProgramMasked(at - misaligned, misaligned, buffer[..done]);
    }

    /** The loop over whole flash words. */
    method WriteBody(at: nat, buffer: seq<Word>)
      requires at + |buffer| <= memory.Length && (buffer != [] ==> at % 8 == 0)
      modifies memory, `trace
      ensures memory[..] == Programmed(old(memory[..]), at, buffer[..8 * (|buffer| / 8)])
      ensures |trace| == |old(trace)| + |buffer| / 8 && old(trace) <= trace
      ensures TracesBody(trace[|old(trace)|..], old(memory[..]), at, buffer)
    {
      ghost var flash := memory[..];
      for i := 0 to |buffer| / 8
        invariant memory[..] == Programmed(flash, at, buffer[..8 * i])
        invariant |trace| == |old(trace)| + i && old(trace) <= trace
        invariant TracesBody(trace[|old(trace)|..], flash, at, buffer)
      {
        ghost var images := trace[|old(trace)|..];
        ProgramFlashWord(at + 8 * i, buffer[8 * i..8 * i + 8]);
        BodyStep(images, flash, at, buffer);
        assert |images| == i;
        assert memory[..] == Programmed(flash, at, buffer[..8 * i + 8]);
        assert trace[|old(trace)|..] == images + [memory[..]];
      }
    }

    /** The last, partial flash word, padded with ones. */
    method WriteTail(at: nat, buffer: seq<Word>)
      requires Valid() && at % 8 == 0 && at + |buffer| <= memory.Length && 0 < |buffer| < 8
      modifies memory, scratch, `trace
      ensures memory[..] == Programmed(old(memory[..]), at, buffer)
      ensures trace == old(trace) + [memory[..]]
    {
      ghost var flash := memory[..];
      for i := 0 to 8
        invariant trace == old(trace) && memory[..] == flash
        invariant forall k :: 0 <= k < i ==> scratch[k] == UINT32_MAX
      {
        scratch[i] := UINT32_MAX;
      }
      for i := 0 to |buffer|
        invariant trace == old(trace) && memory[..] == flash
        invariant forall k :: 0 <= k < 8 ==> scratch[k] == if k < i then buffer[k] else UINT32_MAX
      {
        scratch[i] := buffer[i];
      }
      FlashWordFits(at + 1, memory.Length);
      ghost var padding := scratch[|buffer|..];
      assert scratch[..] == buffer + padding;
      PaddingIsNeutral(flash, at, buffer, padding);
      ProgramFlashWord(at, scratch[..]);
    }

    /** The loop and the tail: what `Write` does once the head is done. */
    method WriteAligned(at: nat, buffer: seq<Word>)
      requires Valid() && at + |buffer| <= memory.Length && (buffer != [] ==> at % 8 == 0)
      modifies memory, scratch, `trace
      ensures memory[..] == Programmed(old(memory[..]), at, buffer)
      ensures old(trace) <= trace
      ensures if buffer == [] then trace == old(trace)
        else TracesWrite(trace[|old(trace)|..], old(memory[..]), at, buffer)
    {
      ghost var flash, before := memory[..], trace;
      WriteBody(at, buffer);
      ghost var body, tail := trace[|before|..], [];
      assert trace == before + body;
      var misaligned := |buffer| % 8;
      var whole := |buffer| - misaligned;
      assert whole == 8 * (|buffer| / 8);
      if misaligned != 0 {
        WriteTail(at + whole, buffer[whole..]);
        HeadThenRest(flash, at, buffer, whole, memory[..]);
        tail := [memory[..]];
      } else {
        assert buffer[..whole] == buffer;
      }
      if buffer != [] {
        TracesBodyAndTail(flash, at, buffer, body, tail);
        SuffixOf(before, body, tail);
      }
    }

    static lemma SuffixOf(before: seq<seq<Word>>, body: seq<seq<Word>>, tail: seq<seq<Word>>)
      ensures before <= before + body + tail && (before + body + tail)[|before|..] == body + tail
    {
    }

    /** Head, then loop and tail. */
    method WriteMisaligned(at: nat, misaligned: nat, buffer: seq<Word>)
      requires Valid() && 0 < misaligned == at % 8 && at + |buffer| <= memory.Length
      modifies memory, scratch, `trace
      ensures memory[..] == Programmed(old(memory[..]), at, buffer)
      ensures old(trace) <= trace && TracesWrite(trace[|old(trace)|..], old(memory[..]), at, buffer)
    {
      ghost var flash, before := memory[..], trace;
      var done := WriteHead(at, misaligned, buffer);
      ghost var torn, rest := memory[..], buffer[done..];
      assert torn == Programmed(flash, at, buffer[..done]) && trace == before + [torn];
      WriteAligned(at + done, buffer[done..]);
      ghost var images := trace[|before| + 1..];
      assert trace[|before|..] == [torn] + images;
      assert if rest == [] then images == [] else TracesWrite(images, torn, at + done, rest);
      HeadThenRest(flash, at, buffer, done, memory[..]);
      TracesHeadAndRest(flash, at, buffer, done, images);
    }

    /** Program a word range. Each word of the range becomes old AND new, every other word
        is kept, and a power cut at any moment leaves the torn-write shape. */
    method Write(address: nat, buffer: seq<Word>) returns (ok: bool)
      requires Valid() && (address % 4 == 0 ==> Covers(address, |buffer|))
      modifies memory, scratch, `trace
      ensures ok == (address % 4 == 0) && old(trace) <= trace
      ensures !ok ==> memory[..] == old(memory[..]) && trace == old(trace)
      ensures ok ==> memory[..] == Programmed(old(memory[..]), Index(address), buffer)
      ensures ok ==> ClearsBits(old(memory[..]), memory[..], Index(address), buffer)
      ensures ok ==> TracesWrite(trace[|old(trace)|..], old(memory[..]), Index(address), buffer)
    {
      if address % 4 != 0 {
        return false;
      }
      var misaligned := address % 32 / 4;
      Alignment(address, base);
      ProgrammedClearsBits(memory[..], Index(address), buffer);
      if misaligned == 0 {
        WriteAligned(Index(address), buffer);
        assert buffer == [] ==> TracesWrite([], old(memory[..]), Index(address), buffer);
      } else {
        WriteMisaligned(Index(address), misaligned, buffer);
      }
      return true;
    }

    /** The hardware operation: erase one sector of a bank, atomically. */
    method EraseHardware(bank: nat, sector: nat)
      requires Valid() && base % 4 == 0 && bank % 4 == 0 && Covers(bank + SECTOR_SIZE * sector, 0x8000)
      modifies memory, `trace
      ensures memory[..] == Erased(old(memory[..]), Index(bank + SECTOR_SIZE * sector), 0x8000)
      ensures trace == old(trace) + [memory[..]]
    {
      var at := Index(bank + SECTOR_SIZE * sector);
      for i := 0 to 0x8000
        invariant trace == old(trace)
        invariant forall k :: 0 <= k < memory.Length ==>
          memory[k] == if at <= k < at + i then UINT32_MAX else old(memory[k])
      {
        memory[at + i] := UINT32_MAX;
      }
      trace := trace + [memory[..]];
    }

    /** Erase the sector around `address`, unless its number reads as an error. */
    method Earse(address: nat) returns (ok: bool)
      requires Valid()
      requires SectorNumber(address, halError) != halError ==> Covers(SectorStart(address), 0x8000)
      modifies memory, `trace
      ensures ok == (SectorNumber(address, halError) != halError)
      ensures ok ==>
        && base <= SectorStart(address) && Index(SectorStart(address)) + 0x8000 <= memory.Length
        && memory[..] == Erased(old(memory[..]), Index(SectorStart(address)), 0x8000)
        && trace == old(trace) + [memory[..]]
      ensures !ok ==> memory[..] == old(memory[..]) && trace == old(trace)
    {
      var sector := SectorNumber(address, halError);
      if sector == halError {
        return false;
      }
      SectorTableIsDivision(address, halError);
      EraseHardware(BankOf(address), sector);
      return true;
    }
  }
}
