/** The flash array seen as a sequence of logical blocks, and the effect of the driver's
    operations in that view. */
module FlashView {
  import opened Words
  import opened FlashDriver
  import opened BlockFormat
  import opened BlockLog
  import opened Arithmetic

  /** The words of `n` blocks of `width` words: a product, kept away from the solver's
      nonlinear arithmetic. */
  function Span(n: nat, width: nat): nat {
    if n == 0 then 0 else Span(n - 1, width) + width
  }

  lemma {:induction false} SpanIsProduct(n: nat, width: nat)
    ensures Span(n, width) == n * width
  {
    if n > 0 {
      SpanIsProduct(n - 1, width);
    }
  }

  lemma {:induction false} Below(i: nat, j: nat, width: nat)
    requires i < j
    ensures Span(i, width) + width == Span(i + 1, width) <= Span(j, width)
    decreases j
  {
    if i + 1 < j {
      Below(i, j - 1, width);
    }
  }

  ghost predicate Sized(g: Geometry, memory: seq<Word>) {
    |memory| == Span(g.blocks, g.blockWords)
  }

  ghost function BlockAt(g: Geometry, memory: seq<Word>, i: nat): (block: Block)
    requires Sized(g, memory) && i < g.blocks
    ensures |block| == g.blockWords
  {
    Below(i, g.blocks, g.blockWords);
    memory[Span(i, g.blockWords)..Span(i, g.blockWords) + g.blockWords]
  }

  ghost function View(g: Geometry, memory: seq<Word>): (flash: Flash)
    requires Sized(g, memory)
    ensures Shaped(g, flash)
  {
    seq(g.blocks, i requires 0 <= i < g.blocks => BlockAt(g, memory, i))
  }

  lemma SliceOfSlice(memory: seq<Word>, at: nat, length: nat, offset: nat, count: nat)
    requires at + length <= |memory| && offset + count <= length
    ensures memory[at..at + length][offset..offset + count] == memory[at + offset..at + offset + count]
  {
    var slice := memory[at..at + length][offset..offset + count];
    assert forall k :: 0 <= k < count ==> slice[k] == memory[at + offset + k];
  }

  /** Part of a block, by its place in the array. */
  lemma WordsOfBlock(g: Geometry, memory: seq<Word>, i: nat, offset: nat, count: nat)
    requires Sized(g, memory) && i < g.blocks && offset + count <= g.blockWords
    ensures var at := Span(i, g.blockWords) + offset;
      at + count <= |memory| && View(g, memory)[i][offset..offset + count] == memory[at..at + count]
  {
    Below(i, g.blocks, g.blockWords);
    SliceOfSlice(memory, Span(i, g.blockWords), g.blockWords, offset, count);
  }

  lemma SliceOfProgrammed(memory: seq<Word>, start: nat, image: Block, words: nat, at: nat)
    requires words <= |image| && start + |image| <= |memory| && at + |image| <= |memory|
    requires at == start || at + |image| <= start || start + |image| <= at
    ensures var before, slice := memory[at..at + |image|], Programmed(memory, start, image[..words])[at..at + |image|];
      slice == if at == start then Partial(before, image, words) else before
  {
  }

  lemma BlocksApart(g: Geometry, i: nat, j: nat)
    ensures var at, start := Span(j, g.blockWords), Span(i, g.blockWords);
      if i == j then at == start else at + g.blockWords <= start || start + g.blockWords <= at
  {
    if j < i {
      Below(j, i, g.blockWords);
    } else if i < j {
      Below(i, j, g.blockWords);
    }
  }

  lemma BlockOfProgrammed(g: Geometry, memory: seq<Word>, i: nat, image: Block, words: nat, j: nat)
    requires Sized(g, memory) && i < g.blocks && |image| == g.blockWords && words <= |image| && j < g.blocks
    requires Span(i, g.blockWords) + words <= |memory|
    ensures BlockAt(g, Programmed(memory, Span(i, g.blockWords), image[..words]), j)
      == if i == j then Partial(BlockAt(g, memory, j), image, words) else BlockAt(g, memory, j)
  {
    Below(i, g.blocks, g.blockWords);
    Below(j, g.blocks, g.blockWords);
    BlocksApart(g, i, j);
    SliceOfProgrammed(memory, Span(i, g.blockWords), image, words, Span(j, g.blockWords));
    assert i != j ==> Span(j, g.blockWords) != Span(i, g.blockWords);
  }

  lemma ViewOfProgrammed(g: Geometry, memory: seq<Word>, i: nat, image: Block, words: nat)
    requires Sized(g, memory) && i < g.blocks && |image| == g.blockWords && words <= |image|
    ensures Span(i, g.blockWords) + words <= |memory|
    ensures var flash := View(g, memory);
      View(g, Programmed(memory, Span(i, g.blockWords), image[..words])) == flash[i := Partial(flash[i], image, words)]
  {
    Below(i, g.blocks, g.blockWords);
    var after := View(g, Programmed(memory, Span(i, g.blockWords), image[..words]));
    var before := View(g, memory);
    forall j | 0 <= j < g.blocks
      ensures after[j] == if i == j then Partial(before[j], image, words) else before[j]
    {
      BlockOfProgrammed(g, memory, i, image, words, j);
    }
  }

  // ---------- Sectors ----------

  /** Whole blocks fill each sector of 0x8000 words, which is `SECTOR_SIZE` in bytes. */
  ghost predicate Tiled(g: Geometry) {
    Span(g.perSector, g.blockWords) == 0x8000
  }

  lemma SectorBounds(g: Geometry, i: nat, sector: nat)
    ensures g.Sector(i) == sector <==> sector * g.perSector <= i < sector * g.perSector + g.perSector
  {
    var s := g.Sector(i);
    assert i == s * g.perSector + i % g.perSector;
    if s < sector {
      ProductMonotone(s + 1, sector, g.perSector);
    } else if sector < s {
      ProductMonotone(sector + 1, s, g.perSector);
    }
  }

  lemma {:induction false} SpanAdds(m: nat, n: nat, width: nat)
    ensures Span(m + n, width) == Span(m, width) + Span(n, width)
  {
    if n > 0 {
      SpanAdds(m, n - 1, width);
    }
  }

  /** The first block of a sector starts at the sector's first word. */
  lemma {:induction false} SectorSpan(g: Geometry, sector: nat)
    requires Tiled(g)
    ensures Span(sector * g.perSector, g.blockWords) == sector * 0x8000
  {
    if sector > 0 {
      SectorSpan(g, sector - 1);
      assert sector * g.perSector == (sector - 1) * g.perSector + g.perSector;
      SpanAdds((sector - 1) * g.perSector, g.perSector, g.blockWords);
    }
  }

  lemma MemorySize(g: Geometry)
    requires Tiled(g)
    ensures Span(g.blocks, g.blockWords) == g.sectors * 0x8000
  {
    SectorSpan(g, g.sectors);
  }

  lemma SpanMonotone(i: nat, j: nat, width: nat)
    requires i <= j
    ensures Span(i, width) <= Span(j, width)
  {
    if i < j {
      Below(i, j, width);
    }
  }

  /** A block lies inside the words of its sector and outside those of any other. */
  lemma BlockInSector(g: Geometry, j: nat, sector: nat)
    requires Tiled(g)
    ensures var at, from := Span(j, g.blockWords), sector * 0x8000;
      if g.Sector(j) == sector then from <= at && at + g.blockWords <= from + 0x8000
      else at + g.blockWords <= from || from + 0x8000 <= at
  {
    var first := sector * g.perSector;
    var next := first + g.perSector;
    assert g.Sector(j) == sector <==> first <= j < next by {
      SectorBounds(g, j, sector);
    }
    assert Span(first, g.blockWords) == sector * 0x8000 by {
      SectorSpan(g, sector);
    }
    SpanAdds(first, g.perSector, g.blockWords);
    if j < first {
      Below(j, first, g.blockWords);
    } else if j < next {
      SpanMonotone(first, j, g.blockWords);
      Below(j, next, g.blockWords);
    } else {
      SpanMonotone(next, j, g.blockWords);
    }
  }

  lemma SliceOfErased(memory: seq<Word>, start: nat, count: nat, at: nat, words: nat)
    requires start + count <= |memory| && at + words <= |memory|
    ensures var slice := Erased(memory, start, count)[at..at + words];
      && (start <= at && at + words <= start + count ==> slice == ErasedBlock(words))
      && (at + words <= start || start + count <= at ==> slice == memory[at..at + words])
  {
  }

  lemma BlockOfErased(g: Geometry, memory: seq<Word>, sector: nat, j: nat)
    requires Sized(g, memory) && Tiled(g) && sector * 0x8000 + 0x8000 <= |memory| && j < g.blocks
    ensures BlockAt(g, Erased(memory, sector * 0x8000, 0x8000), j)
      == if g.Sector(j) == sector then ErasedBlock(g.blockWords) else BlockAt(g, memory, j)
  {
    BlockInSector(g, j, sector);
    Below(j, g.blocks, g.blockWords);
    SliceOfErased(memory, sector * 0x8000, 0x8000, Span(j, g.blockWords), g.blockWords);
  }

  lemma ViewOfErased(g: Geometry, memory: seq<Word>, sector: nat)
    requires Sized(g, memory) && Tiled(g) && sector < g.sectors
    ensures sector * 0x8000 + 0x8000 <= |memory|
    ensures View(g, Erased(memory, sector * 0x8000, 0x8000)) == EraseSector(g, View(g, memory), sector)
  {
    MemorySize(g);
    var after := Erased(memory, sector * 0x8000, 0x8000);
    forall j | 0 <= j < g.blocks
      ensures View(g, after)[j] == EraseSector(g, View(g, memory), sector)[j]
    {
      BlockOfErased(g, memory, sector, j);
    }
  }
}
