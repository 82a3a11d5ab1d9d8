/** Machine words and bytes as bounded naturals, the bitwise AND that programming
    NOR flash performs, and the little-endian view of a byte buffer as words. */
module Words {
  const UINT32_MAX := 0xFFFF_FFFF

  type Byte = b: nat | b < 0x100
  type Word = w: nat | w <= 0xFFFF_FFFF

  datatype Option<+T> = None | Some(value: T)

  /** The unsigned 32-bit increment, with its wrap-around. */
  function Increment(w: Word): Word {
    if w == UINT32_MAX then 0 else w + 1
  }

  /** Bitwise AND, one binary digit at a time. */
  function And(a: nat, b: nat): (r: nat)
    ensures r <= a && r <= b
    decreases a
  {
    if a == 0 || b == 0 then 0
    else 2 * And(a / 2, b / 2) + (if a % 2 == 1 && b % 2 == 1 then 1 else 0)
  }

  /** Binary digit `k` of a number, counted from the lowest: halve `k` times, then look
      whether what is left is odd. */
  predicate Bit(n: nat, k: nat) {
    if k == 0 then n % 2 == 1 else Bit(n / 2, k - 1)
  }

  lemma {:induction false} ZeroHasNoBits(k: nat)
    ensures !Bit(0, k)
  {
    if k > 0 {
      ZeroHasNoBits(k - 1);
    }
  }

  /** A bit of the AND is set exactly when it is set on both sides. */
  lemma {:induction false} AndIsBitwise(a: nat, b: nat, k: nat)
    ensures Bit(And(a, b), k) <==> Bit(a, k) && Bit(b, k)
    decreases k
  {
    if a == 0 || b == 0 {
      ZeroHasNoBits(k);
    } else if k > 0 {
      assert And(a, b) / 2 == And(a / 2, b / 2);
      AndIsBitwise(a / 2, b / 2, k - 1);
    }
  }

  /** A number is its bits, so that the AND is determined by them. */
  lemma {:induction false} BitsDetermine(a: nat, b: nat)
    requires forall k: nat :: Bit(a, k) <==> Bit(b, k)
    ensures a == b
    decreases a + b
  {
    assert Bit(a, 0) == Bit(b, 0);
    if a + b > 0 {
      forall k: nat
        ensures Bit(a / 2, k) <==> Bit(b / 2, k)
      {
        assert Bit(a, k + 1) == Bit(b, k + 1);
      }
      BitsDetermine(a / 2, b / 2);
    }
  }

  /** Every binary digit of `a`, up to its highest one, is set. */
  predicate AllOnes(a: nat) {
    if a == 0 then true else a % 2 == 1 && AllOnes(a / 2)
  }

  lemma {:induction false} AndIdempotent(a: nat)
    ensures And(a, a) == a
  {
    if a > 0 {
      AndIdempotent(a / 2);
    }
  }

  /** Programming what was read back and masked clears no further bit. */
  lemma {:induction false} AndAbsorbs(a: nat, b: nat)
    ensures And(a, And(a, b)) == And(a, b)
    decreases a
  {
    if a > 0 && b > 0 {
      AndAbsorbs(a / 2, b / 2);
      var r := And(a, b);
      assert r / 2 == And(a / 2, b / 2);
    }
  }

  lemma {:induction false} AndOnesLeft(ones: nat, x: nat)
    requires AllOnes(ones) && x <= ones
    ensures And(ones, x) == x
    decreases ones
  {
    if ones > 0 && x > 0 {
      AndOnesLeft(ones / 2, x / 2);
    }
  }

  lemma {:induction false} AndOnesRight(x: nat, ones: nat)
    requires AllOnes(ones) && x <= ones
    ensures And(x, ones) == x
    decreases x
  {
    if ones > 0 && x > 0 {
      AndOnesRight(x / 2, ones / 2);
    }
  }

  /** The erased word is neutral for programming, on either side. */
  lemma ErasedIsNeutral(x: Word)
    ensures And(UINT32_MAX, x) == x && And(x, UINT32_MAX) == x
  {
    assert AllOnes(0xFFFF);
    assert AllOnes(0xFF_FFFF);
    assert AllOnes(0xFFFF_FFFF);
    AndOnesLeft(UINT32_MAX, x);
    AndOnesRight(x, UINT32_MAX);
  }

  function LittleEndian(b0: Byte, b1: Byte, b2: Byte, b3: Byte): Word {
    b0 + 0x100 * (b1 + 0x100 * (b2 + 0x100 * b3))
  }

  function Power2(m: nat): (power: nat)
    ensures power > 0
  {
    if m == 0 then 1 else 2 * Power2(m - 1)
  }

  /** The bits of a number put together from a low part of `m` bits and a high part. */
  lemma {:induction false} BitOfParts(low: nat, high: nat, m: nat, k: nat)
    requires low < Power2(m)
    ensures Bit(low + Power2(m) * high, k) <==> if k < m then Bit(low, k) else Bit(high, k - m)
    decreases m
  {
    if m > 0 {
      var n, half := low + Power2(m) * high, low / 2 + Power2(m - 1) * high;
      assert Power2(m) * high == 2 * (Power2(m - 1) * high);
      assert n / 2 == half && n % 2 == low % 2;
      if k > 0 {
        BitOfParts(low / 2, high, m - 1, k - 1);
      }
    }
  }

  lemma BitOfLowByte(low: Byte, high: nat, k: nat)
    ensures Bit(low + 0x100 * high, k) <==> if k < 8 then Bit(low, k) else Bit(high, k - 8)
  {
    assert Power2(8) == 0x100;
    BitOfParts(low, high, 8, k);
  }

  /** Bit `k` of a word is bit `k % 8` of its byte `k / 8`, the lowest byte first. */
  lemma LittleEndianBits(b0: Byte, b1: Byte, b2: Byte, b3: Byte, k: nat)
    requires k < 8
    ensures var w := LittleEndian(b0, b1, b2, b3);
      && (Bit(w, k) <==> Bit(b0, k)) && (Bit(w, 8 + k) <==> Bit(b1, k))
      && (Bit(w, 16 + k) <==> Bit(b2, k)) && (Bit(w, 24 + k) <==> Bit(b3, k))
  {
    var w1, w2 := b1 + 0x100 * (b2 + 0x100 * b3), b2 + 0x100 * b3;
    BitOfLowByte(b0, w1, k);
    BitOfLowByte(b0, w1, 8 + k);
    BitOfLowByte(b0, w1, 16 + k);
    BitOfLowByte(b0, w1, 24 + k);
    BitOfLowByte(b1, w2, k);
    BitOfLowByte(b1, w2, 8 + k);
    BitOfLowByte(b1, w2, 16 + k);
    BitOfLowByte(b2, b3, k);
    BitOfLowByte(b2, b3, 8 + k);
  }

  function ByteOf(w: Word, k: nat): Byte
    requires k < 4
  {
    if k == 0 then w % 0x100
    else if k == 1 then w / 0x100 % 0x100
    else if k == 2 then w / 0x100 / 0x100 % 0x100
    else w / 0x100 / 0x100 / 0x100
  }

  /** A byte buffer reinterpreted as 32-bit words. */
  function WordsOf(bytes: seq<Byte>): (words: seq<Word>)
    requires |bytes| % 4 == 0
    ensures 4 * |words| == |bytes|
  {
    seq(|bytes| / 4, i requires 0 <= i < |bytes| / 4 =>
      LittleEndian(bytes[4 * i], bytes[4 * i + 1], bytes[4 * i + 2], bytes[4 * i + 3]))
  }

  /** Bit `k` of byte `j` of word `i`, in the buffer and in the word. */
  lemma BitsOfWords(bytes: seq<Byte>, i: nat, j: nat, k: nat)
    requires |bytes| % 4 == 0 && 4 * i < |bytes| && j < 4 && k < 8
    ensures 4 * i + 3 < |bytes| && (Bit(WordsOf(bytes)[i], 8 * j + k) <==> Bit(bytes[4 * i + j], k))
  {
    LittleEndianBits(bytes[4 * i], bytes[4 * i + 1], bytes[4 * i + 2], bytes[4 * i + 3], k);
  }

  /** Words as they lie in byte-addressed memory. */
  function BytesOf(words: seq<Word>): (bytes: seq<Byte>)
    ensures |bytes| == 4 * |words|
  {
    seq(4 * |words|, k requires 0 <= k < 4 * |words| => ByteOf(words[k / 4], k % 4))
  }

  lemma LittleEndianBytes(b0: Byte, b1: Byte, b2: Byte, b3: Byte)
    ensures var w := LittleEndian(b0, b1, b2, b3);
      ByteOf(w, 0) == b0 && ByteOf(w, 1) == b1 && ByteOf(w, 2) == b2 && ByteOf(w, 3) == b3
  {
  }

  /** Splitting the words of a buffer gives its bytes back, one by one. As an equation of the
      two sequences this would send the solver around in circles. */
  lemma BytesOfWords(bytes: seq<Byte>)
    requires |bytes| % 4 == 0
    ensures |BytesOf(WordsOf(bytes))| == |bytes|
    ensures forall k {:trigger BytesOf(WordsOf(bytes))[k]} :: 0 <= k < |bytes| ==>
      BytesOf(WordsOf(bytes))[k] == bytes[k]
  {
    forall k | 0 <= k < |bytes|
      ensures BytesOf(WordsOf(bytes))[k] == bytes[k]
    {
      var i := k / 4;
      LittleEndianBytes(bytes[4 * i], bytes[4 * i + 1], bytes[4 * i + 2], bytes[4 * i + 3]);
      assert k == 4 * i + k % 4;
    }
  }

  lemma WordFromBytes(w: Word)
    ensures LittleEndian(ByteOf(w, 0), ByteOf(w, 1), ByteOf(w, 2), ByteOf(w, 3)) == w
  {
  }

  lemma BytesOfWordAt(words: seq<Word>, i: nat, k: nat)
    requires i < |words| && k < 4
    ensures BytesOf(words)[4 * i + k] == ByteOf(words[i], k)
  {
    assert (4 * i + k) / 4 == i && (4 * i + k) % 4 == k;
  }

  /** What memcpy leaves in a buffer: `source` laid over `target` from index `at`. */
  function Splice<T>(target: seq<T>, at: nat, source: seq<T>): (result: seq<T>)
    requires at + |source| <= |target|
    ensures |result| == |target|
  {
    seq(|target|, i requires 0 <= i < |target| => if at <= i < at + |source| then source[i - at] else target[i])
  }

  method MemCopy<T>(target: array<T>, at: nat, source: seq<T>)
    requires at + |source| <= target.Length
    modifies target
    ensures target[..] == Splice(old(target[..]), at, source)
  {
    for i := 0 to |source|
      invariant forall j :: 0 <= j < target.Length ==>
        target[j] == if at <= j < at + i then source[j - at] else old(target[j])
    {
      target[at + i] := source[i];
    }
  }
}
