/** The layout of one logical block: magic, data, and at the very end size and counter. */
module BlockFormat {
  import opened Words

  /** A logical block as the flash holds it. */
  type Block = seq<Word>

  /** The two halves of the 64-bit magic 0x74BDC5A50FEFA13E, low word first. */
  const MAGIC_LOW: Word := 0x0FEF_A13E
  const MAGIC_HIGH: Word := 0x74BD_C5A5

  /** Bytes of the start header and of the end header. */
  const HEADER := 8

  predicate HeaderErased(block: Block)
    requires 8 <= |block|
  {
    block[0] == UINT32_MAX && block[1] == UINT32_MAX
  }

  predicate HasMagic(block: Block)
    requires 8 <= |block|
  {
    block[0] == MAGIC_LOW && block[1] == MAGIC_HIGH
  }

  function SizeOf(block: Block): Word
    requires 8 <= |block|
  {
    block[|block| - 2]
  }

  function CounterOf(block: Block): Word
    requires 8 <= |block|
  {
    block[|block| - 1]
  }

  /** What the boot scan accepts: the magic, and a counter that is not the erased word. */
  predicate Complete(block: Block)
    requires 8 <= |block|
  {
    HasMagic(block) && CounterOf(block) != UINT32_MAX
  }

  /** The magic made it to the flash but the end header did not. */
  predicate Torn(block: Block)
    requires 8 <= |block|
  {
    HasMagic(block) && CounterOf(block) == UINT32_MAX
  }

  function ErasedBlock(words: nat): (block: Block)
    ensures |block| == words
  {
    seq(words, _ => UINT32_MAX)
  }

  /** `GetMaxFlashSize` for a block of this many words. */
  function MaxPayload(words: nat): nat
    requires 8 <= words
  {
    4 * words - 2 * HEADER
  }

  /** The bytes that `Read` returns for a whole block. */
  function Payload(block: Block): seq<Byte>
    requires 8 <= |block|
  {
    if SizeOf(block) <= MaxPayload(|block|) then BytesOf(block)[HEADER..HEADER + SizeOf(block)] else []
  }

  /** What `WriteToCache` leaves in the cache buffer: three copies, in this order. */
  function CacheImage(cache: seq<Byte>, data: seq<Byte>, counter: Word): (image: seq<Byte>)
    requires 32 <= |cache| <= UINT32_MAX && HEADER + |data| <= |cache|
    ensures |image| == |cache|
  {
    var withMagic := Splice(cache, 0, BytesOf([MAGIC_LOW, MAGIC_HIGH]));
    var withData := Splice(withMagic, HEADER, data);
    Splice(withData, |cache| - HEADER, BytesOf([|data|, counter]))
  }

  /** Bytes `4 * i` to `4 * i + 3` hold `word`. */
  ghost predicate HoldsWord(bytes: seq<Byte>, i: nat, word: Word) {
    4 * i + 4 <= |bytes| && forall k :: 0 <= k < 4 ==> bytes[4 * i + k] == ByteOf(word, k)
  }

  lemma WordAt(bytes: seq<Byte>, i: nat, word: Word)
    requires |bytes| % 4 == 0 && HoldsWord(bytes, i, word)
    ensures WordsOf(bytes)[i] == word
  {
    WordFromBytes(word);
    assert bytes[4 * i + 0] == ByteOf(word, 0);
    assert bytes[4 * i + 1] == ByteOf(word, 1);
    assert bytes[4 * i + 2] == ByteOf(word, 2);
    assert bytes[4 * i + 3] == ByteOf(word, 3);
  }

  lemma PairBytes(low: Word, high: Word, k: nat)
    requires k < 4
    ensures BytesOf([low, high])[k] == ByteOf(low, k)
    ensures BytesOf([low, high])[4 + k] == ByteOf(high, k)
  {
    BytesOfWordAt([low, high], 0, k);
    BytesOfWordAt([low, high], 1, k);
  }

  lemma CacheImageHeaders(cache: seq<Byte>, data: seq<Byte>, counter: Word)
    requires 32 <= |cache| <= UINT32_MAX && |cache| % 4 == 0 && HEADER + |data| <= |cache| - HEADER
    ensures var image, n := CacheImage(cache, data, counter), |cache| / 4;
      && HoldsWord(image, 0, MAGIC_LOW) && HoldsWord(image, 1, MAGIC_HIGH)
      && HoldsWord(image, n - 2, |data|) && HoldsWord(image, n - 1, counter)
  {
    var image := CacheImage(cache, data, counter);
    var n := |cache| / 4;
    assert 4 * n == |cache|;
    forall k | 0 <= k < 4
      ensures image[k] == ByteOf(MAGIC_LOW, k) && image[4 + k] == ByteOf(MAGIC_HIGH, k)
      ensures image[|cache| - 8 + k] == ByteOf(|data|, k) && image[|cache| - 4 + k] == ByteOf(counter, k)
    {
      PairBytes(MAGIC_LOW, MAGIC_HIGH, k);
      PairBytes(|data|, counter, k);
    }
  }

  lemma HeadersReadBack(image: seq<Byte>, words: nat, size: Word, counter: Word)
    requires |image| == 4 * words && 8 <= words
    requires HoldsWord(image, 0, MAGIC_LOW) && HoldsWord(image, 1, MAGIC_HIGH)
    requires HoldsWord(image, words - 2, size) && HoldsWord(image, words - 1, counter)
    ensures var block := WordsOf(image);
      |block| == words && HasMagic(block) && SizeOf(block) == size && CounterOf(block) == counter
  {
    WordAt(image, 0, MAGIC_LOW);
    WordAt(image, 1, MAGIC_HIGH);
    WordAt(image, words - 2, size);
    WordAt(image, words - 1, counter);
  }

  lemma PayloadReadBack(image: seq<Byte>)
    requires |image| % 4 == 0 && 32 <= |image|
    requires SizeOf(WordsOf(image)) <= |image| - 2 * HEADER
    ensures Payload(WordsOf(image)) == image[HEADER..HEADER + SizeOf(WordsOf(image))]
  {
    BytesOfWords(image);
  }

  lemma CacheImageData(cache: seq<Byte>, data: seq<Byte>, counter: Word)
    requires 32 <= |cache| <= UINT32_MAX && HEADER + |data| <= |cache| - HEADER
    ensures CacheImage(cache, data, counter)[HEADER..HEADER + |data|] == data
  {
  }

  /** A legal cache image reads back as a block with the magic, the size, the counter and,
      between the headers, the data. */
  lemma CacheImageFields(cache: seq<Byte>, data: seq<Byte>, counter: Word)
    requires 32 <= |cache| <= UINT32_MAX && |cache| % 4 == 0 && HEADER + |data| <= |cache| - HEADER
    ensures var block := WordsOf(CacheImage(cache, data, counter));
      && |block| == |cache| / 4
      && HasMagic(block) && SizeOf(block) == |data| && CounterOf(block) == counter
      && Payload(block) == data
  {
    CacheImageHeaders(cache, data, counter);
    CacheImageData(cache, data, counter);
    var image := CacheImage(cache, data, counter);
    HeadersReadBack(image, |cache| / 4, |data|, counter);
    PayloadReadBack(image);
  }

  lemma PairIsEightBytes(low: Word, high: Word)
    ensures BytesOf([low, high]) == [ByteOf(low, 0), ByteOf(low, 1), ByteOf(low, 2), ByteOf(low, 3),
                                     ByteOf(high, 0), ByteOf(high, 1), ByteOf(high, 2), ByteOf(high, 3)]
  {
    PairBytes(low, high, 0);
    PairBytes(low, high, 1);
    PairBytes(low, high, 2);
    PairBytes(low, high, 3);
  }

  /** The magic as eight bytes, lowest first. */
  lemma MagicBytes()
    ensures BytesOf([MAGIC_LOW, MAGIC_HIGH]) == [0x3E, 0xA1, 0xEF, 0x0F, 0xA5, 0xC5, 0xBD, 0x74]
  {
    PairIsEightBytes(MAGIC_LOW, MAGIC_HIGH);
  }

  lemma CacheImageParts(cache: seq<Byte>, data: seq<Byte>, counter: Word)
    requires 32 <= |cache| <= UINT32_MAX && HEADER + |data| <= |cache| - HEADER
    ensures var image, last := CacheImage(cache, data, counter), |cache| - 8;
      && image[..8] == BytesOf([MAGIC_LOW, MAGIC_HIGH]) && image[8..8 + |data|] == data
      && image[8 + |data|..last] == cache[8 + |data|..last] && image[last..] == BytesOf([|data|, counter])
  {
  }

  /** The cache buffer byte for byte: the 64-bit magic, lowest byte first, the data, what
      was there before, then the size and the counter, lowest byte first. */
  lemma CacheImageBytes(cache: seq<Byte>, data: seq<Byte>, counter: Word)
    requires 32 <= |cache| <= UINT32_MAX && HEADER + |data| <= |cache| - HEADER
    ensures var image, last := CacheImage(cache, data, counter), |cache| - 8;
      && image[..8] == [0x3E, 0xA1, 0xEF, 0x0F, 0xA5, 0xC5, 0xBD, 0x74]
      && image[8..8 + |data|] == data && image[8 + |data|..last] == cache[8 + |data|..last]
      && LittleEndian(image[last..][0], image[last..][1], image[last..][2], image[last..][3]) == |data|
      && LittleEndian(image[last..][4], image[last..][5], image[last..][6], image[last..][7]) == counter
  {
    CacheImageParts(cache, data, counter);
    MagicBytes();
    PairIsEightBytes(|data|, counter);
    WordFromBytes(|data|);
    WordFromBytes(counter);
  }

  /** An oversized write is reported but still carried out. Data of a given size comes back
      unchanged, whatever the bytes, if and only if it leaves room for both headers. */
  lemma ReadBackIff(cache: seq<Byte>, size: nat, counter: Word)
    requires 32 <= |cache| <= UINT32_MAX && HEADER + size <= |cache|
    ensures size <= |cache| - 2 * HEADER <==>
      forall data: seq<Byte> :: |data| == size ==> CacheImage(cache, data, counter)[HEADER..HEADER + size] == data
  {
    if size <= |cache| - 2 * HEADER {
      forall data: seq<Byte> | |data| == size
        ensures CacheImage(cache, data, counter)[HEADER..HEADER + size] == data
      {
        CacheImageData(cache, data, counter);
      }
    } else {
      var at := |cache| - HEADER;
      var clash: Byte := if ByteOf(size, 0) == 0 then 1 else 0;
      var data := seq(size, _ => clash);
      PairBytes(size, counter, 0);
      assert CacheImage(cache, data, counter)[at] == ByteOf(size, 0);
      assert CacheImage(cache, data, counter)[HEADER..HEADER + size][at - HEADER] != data[at - HEADER];
    }
  }

  /** A block whose first `words` words have been programmed. */
  function Partial(block: Block, image: Block, words: nat): (result: Block)
    requires |block| == |image|
    ensures |result| == |block|
  {
    seq(|block|, i requires 0 <= i < |block| => if i < words then And(block[i], image[i]) as Word else block[i])
  }

  /** Programming an erased block in whole flash words: before the first word it is erased,
      after the last it is the image, and in between it is torn. */
  lemma TornWriteShape(image: Block, steps: nat)
    requires 8 <= |image| && |image| % 8 == 0 && 8 * steps <= |image| && HasMagic(image)
    ensures var block := Partial(ErasedBlock(|image|), image, 8 * steps);
      && (steps == 0 ==> block == ErasedBlock(|image|))
      && (0 < 8 * steps < |image| ==> Torn(block))
      && (8 * steps == |image| ==> block == image)
  {
    var block := Partial(ErasedBlock(|image|), image, 8 * steps);
    forall i | 0 <= i < |image|
      ensures block[i] == if i < 8 * steps then image[i] else UINT32_MAX
    {
      ErasedIsNeutral(image[i]);
    }
  }

  /** A block with a free header has not been touched. */
  lemma PartialHeader(image: Block, steps: nat)
    requires 8 <= |image| && |image| % 8 == 0 && 8 * steps <= |image| && HasMagic(image)
    ensures var block := Partial(ErasedBlock(|image|), image, 8 * steps);
      HeaderErased(block) ==> block == ErasedBlock(|image|)
  {
    TornWriteShape(image, steps);
  }
}
