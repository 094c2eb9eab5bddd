/**
 Heaps on which freeing as written goes wrong: between two holes, next to a small hole, at the end of
 the heap, and next to stale tags.
 */
module FreeSamples {
  import opened Memory
  import opened OrderedLists
  import opened BoundaryTags
  import opened HeapSteps
  import opened HeapAsWritten
  import opened RawTags
  import opened Freeing
  import opened FreeOutcomes

  const SAMPLE: seq<Chunk> := [
    Chunk(0x1000, 32, true), Chunk(0x1020, 32, false), Chunk(0x1040, 32, false), Chunk(0x1060, 40, true), Chunk(0x1088, 0x70F78, false)
  ]

  lemma {:induction false} SampleTiles()
    ensures Tiles(SAMPLE, 0x1000) && Span(SAMPLE) == 0x71000 && NoAdjacentHoles(SAMPLE)
    ensures Holes(SAMPLE) == multiset{0x1000, 0x1060}
  {
    var a, b := SAMPLE[..2], SAMPLE[2..];
    assert SAMPLE == a + b;
    assert a == [SAMPLE[0]] + [SAMPLE[1]] && b == [SAMPLE[2]] + ([SAMPLE[3]] + [SAMPLE[4]]);
    One(SAMPLE[0]);
    One(SAMPLE[1]);
    One(SAMPLE[2]);
    One(SAMPLE[3]);
    One(SAMPLE[4]);
    var c := [SAMPLE[3]] + [SAMPLE[4]];
    hide Tiles, Span, NoAdjacentHoles, Holes;
    SpanConcat([SAMPLE[0]], [SAMPLE[1]]);
    SpanConcat([SAMPLE[3]], [SAMPLE[4]]);
    SpanConcat([SAMPLE[2]], c);
    SpanConcat(a, b);
    HolesConcat([SAMPLE[0]], [SAMPLE[1]]);
    HolesConcat([SAMPLE[3]], [SAMPLE[4]]);
    HolesConcat([SAMPLE[2]], c);
    HolesConcat(a, b);
    TilesConcat([SAMPLE[0]], [SAMPLE[1]], 0x1000);
    TilesConcat([SAMPLE[3]], [SAMPLE[4]], 0x1060);
    TilesConcat([SAMPLE[2]], c, 0x1040);
    TilesConcat(a, b, 0x1000);
    NoAdjacentConcat([SAMPLE[0]], [SAMPLE[1]]);
    NoAdjacentConcat([SAMPLE[3]], [SAMPLE[4]]);
    NoAdjacentConcat([SAMPLE[2]], c);
    NoAdjacentConcat(a, b);
  }

  const INDEX: seq<nat> := [0x1000, 0x1060]

  /** The sample in memory, with one more chunk behind it. */
  ghost function Stored(behind: Chunk): Bytes {
    PutAll(Blank(), SAMPLE + [behind])
  }

  lemma {:induction false} SampleStored(behind: Chunk)
    requires behind.addr == 0x72000 && behind.size == 0x1000
    ensures var m := Stored(behind);
            && |m| == ADDRESS_SPACE && Consistent(m, INDEX, SAMPLE, 0x1000, 0x72000, multiset{}) && NoAdjacentHoles(SAMPLE)
            && ChunkAt(m, behind) && SizeAt(m, 0x1000) == 32 && SizeAt(m, 0x1060) == 40 && !StaleFooter(m, 0x1000)
  {
    hide Tiles, Span, NoAdjacentHoles, Holes, PutAll, Word, ChunkAt, SameOutside, StaleFooter;
    var m := Stored(behind);
    SampleTiles();
    One(behind);
    TilesConcat(SAMPLE, [behind], 0x1000);
    SpanConcat(SAMPLE, [behind]);
    PutAllWrites(Blank(), SAMPLE + [behind], 0x1000);
    assert forall c :: c in SAMPLE ==> c in SAMPLE + [behind];
    assert behind in SAMPLE + [behind];
    SampleSizes(m);
    SampleSorted(m);
    NoFooter(m, 0x1000, 0x73000);
  }

  lemma {:induction false} SampleSizes(m: Bytes)
    requires Written(m, SAMPLE)
    ensures SizeAt(m, 0x1000) == 32 && SizeAt(m, 0x1060) == 40
  {
    hide Word, FooterAt;
    assert ChunkAt(m, SAMPLE[0]) && ChunkAt(m, SAMPLE[3]);
  }

  lemma SampleSorted(m: Bytes)
    requires SizeAt(m, 0x1000) == 32 && SizeAt(m, 0x1060) == 40
    ensures SortedIndex(m, INDEX) && multiset(INDEX) + multiset{} == multiset{0x1000, 0x1060}
  {
    hide SizeAt;
  }

  lemma NoFooter(m: Bytes, lo: nat, hi: nat)
    requires FOOTER <= lo <= ADDRESS_SPACE && SameOutside(Blank(), m, lo, hi)
    ensures !StaleFooter(m, lo)
  {
    assert |m| == ADDRESS_SPACE;
    hide SameOutside;
    WordFrame(Blank(), m, lo - FOOTER, lo, hi);
  }

  /**
   Freeing the block at 0x1040 leaves the footer of the merged hole wrong, freeing the one at 0x1020
   leaves the index out of order; freeing the last one works.
   */
  lemma {:induction false} FreeFails()
    ensures var m, live := Stored(Chunk(0x72000, 0x1000, false)), Live(SAMPLE);
            && Consistent(m, INDEX, SAMPLE, 0x1000, 0x72000, multiset{}) && NoAdjacentHoles(SAMPLE)
            && !Works(FreeAsWritten(m, INDEX, 0x1040, 0x1000, 0x72000), 0x1000, live - {SAMPLE[2]})
            && !Works(FreeAsWritten(m, INDEX, 0x1020, 0x1000, 0x72000), 0x1000, live - {SAMPLE[1]})
            && Works(FreeAsWritten(m, INDEX, 0x1088, 0x1000, 0x72000), 0x1000, live - {SAMPLE[4]})
  {
    var behind := Chunk(0x72000, 0x1000, false);
    hide Tiles, Span, NoAdjacentHoles, Holes, PutAll, FreeAsWritten, Works, FreeWorks, Word, ChunkAt, StaleFooter, Live, Consistent, Stored;
    var m := Stored(behind);
    SampleStored(behind);
    SampleWorks(m);
    NoHeader(m, behind);
    FreeExact(m, INDEX, SAMPLE, 0x1000, 0x72000, 2);
    FreeExact(m, INDEX, SAMPLE, 0x1000, 0x72000, 1);
    FreeExact(m, INDEX, SAMPLE, 0x1000, 0x72000, 4);
  }

  lemma SampleWorks(m: Bytes)
    requires SizeAt(m, 0x1000) == 32 && SizeAt(m, 0x1060) == 40
    ensures !FreeWorks(m, INDEX, SAMPLE, 0x1000, 0x72000, 1) && !FreeWorks(m, INDEX, SAMPLE, 0x1000, 0x72000, 2)
    ensures EndWorks(m, INDEX, SAMPLE, 0x1000, 4)
    ensures !GoesRight(m, 0x72000) ==> FreeWorks(m, INDEX, SAMPLE, 0x1000, 0x72000, 4)
  {
    hide SizeAt, StaleFooter, GoesRight;
  }

  lemma NoHeader(m: Bytes, c: Chunk)
    requires ChunkAt(m, c)
    ensures GoesRight(m, c.addr) <==> c.hole
    ensures ReadWord(m, c.addr + 8) == c.size
  {
    hide Word, FooterAt;
  }

  /** The header of a hole that was cut off is joined again when the last block is freed. */
  lemma {:induction false} StaleHeaderFails()
    ensures var m := Stored(Chunk(0x72000, 0x1000, true));
            && Consistent(m, INDEX, SAMPLE, 0x1000, 0x72000, multiset{}) && NoAdjacentHoles(SAMPLE)
            && EndWorks(m, INDEX, SAMPLE, 0x1000, 4)
            && !Works(FreeAsWritten(m, INDEX, 0x1088, 0x1000, 0x72000), 0x1000, Live(SAMPLE) - {SAMPLE[4]})
  {
    var behind := Chunk(0x72000, 0x1000, true);
    hide Tiles, Span, NoAdjacentHoles, Holes, PutAll, FreeAsWritten, Works, Word, ChunkAt, StaleFooter, Live, Consistent, Stored,
         GoesRight, EndWorks, InsideWorks, ReadWord;
    var m := Stored(behind);
    SampleStored(behind);
    SampleWorks(m);
    NoHeader(m, behind);
    FreeExact(m, INDEX, SAMPLE, 0x1000, 0x72000, 4);
  }

  /** Freeing a last block beyond the minimum length cuts it away, but its entry stays in the index. */
  lemma {:induction false} CutFails()
    ensures var last := Chunk(0x72000, 0x1000, false);
            var m := Stored(last);
            && Consistent(m, INDEX, SAMPLE + [last], 0x1000, 0x73000, multiset{}) && NoAdjacentHoles(SAMPLE + [last])
            && !Works(FreeAsWritten(m, INDEX, 0x72000, 0x1000, 0x73000), 0x1000, Live(SAMPLE + [last]) - {last})
  {
    var last := Chunk(0x72000, 0x1000, false);
    var cs := SAMPLE + [last];
    hide Tiles, Span, NoAdjacentHoles, Holes, PutAll, FreeAsWritten, Works, Word, ChunkAt, StaleFooter, Live, Stored, ReadWord, Search, InPlace,
         SameOutside, SortedIndex, GoesRight;
    var m := Stored(last);
    SampleStored(last);
    Longer(m, last);
    assert cs[5] == last;
    FreeExact(m, INDEX, cs, 0x1000, 0x73000, 5);
  }

  lemma {:induction false} Longer(m: Bytes, last: Chunk)
    requires Consistent(m, INDEX, SAMPLE, 0x1000, 0x72000, multiset{}) && NoAdjacentHoles(SAMPLE)
    requires last == Chunk(0x72000, 0x1000, false) && ChunkAt(m, last)
    ensures Consistent(m, INDEX, SAMPLE + [last], 0x1000, 0x73000, multiset{}) && NoAdjacentHoles(SAMPLE + [last])
  {
    hide Tiles, Span, NoAdjacentHoles, Holes, Word, ChunkAt, SortedIndex;
    One(last);
    TilesConcat(SAMPLE, [last], 0x1000);
    SpanConcat(SAMPLE, [last]);
    HolesConcat(SAMPLE, [last]);
    NoAdjacentConcat(SAMPLE, [last]);
  }

  /** A hole's footer left before the heap makes the first block join what is not there. */
  lemma {:induction false} StaleFooterSample()
    ensures var cs := [Chunk(0x1000, 0x71000, false)];
            var m := PutAll(Blank(), [Chunk(0xFE0, 32, true)] + cs);
            && Consistent(m, [], cs, 0x1000, 0x72000, multiset{}) && NoAdjacentHoles(cs) && EndWorks(m, [], cs, 0x1000, 0)
            && !Works(FreeAsWritten(m, [], 0x1000, 0x1000, 0x72000), 0x1000, Live(cs) - {cs[0]})
  {
    var before, block := Chunk(0xFE0, 32, true), Chunk(0x1000, 0x71000, false);
    hide Tiles, Span, NoAdjacentHoles, Holes, PutAll, FreeAsWritten, Works, Word, ChunkAt, StaleFooter, Live;
    var cs := [block];
    var m := PutAll(Blank(), [before] + cs);
    One(before);
    One(block);
    TilesConcat([before], cs, 0xFE0);
    SpanConcat([before], cs);
    PutAllWrites(Blank(), [before] + cs, 0xFE0);
    assert before in [before] + cs && block in [before] + cs;
    FooterLeft(m, before);
    assert Consistent(m, [], cs, 0x1000, 0x72000, multiset{});
    FreeExact(m, [], cs, 0x1000, 0x72000, 0);
  }

  lemma FooterLeft(m: Bytes, c: Chunk)
    requires ChunkAt(m, c) && c.hole
    ensures StaleFooter(m, c.addr + c.size)
  {
    hide Word;
  }
}
