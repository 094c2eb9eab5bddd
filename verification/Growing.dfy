/**
 Setting the heap up and growing it as kernel/Heap.cpp:28-33 and 53-90 are written: when exactly the
 result is a heap.
 */
module Growing {
  import opened Memory
  import opened OrderedLists
  import opened BoundaryTags
  import opened HeapSteps
  import opened RawTags

  // ----- Setting up: the first hole gets no footer

  function SetUpAsWritten(m: Bytes, start: nat, end: nat): Bytes {
    PutHeader(m, start, W32(end - start), true)
  }

  /** The constructed heap is one exactly when its footer happens to be in memory already. */
  lemma {:induction false} SetUpExact(m: Bytes, start: nat, end: nat)
    requires start + OVERHEAD <= end < ADDRESS_SPACE == |m|
    ensures SoundWith(SetUpAsWritten(m, start, end), [start], start, end, {}) <==> FooterAt(m, end - FOOTER, start)
  {
    hide Word, HeaderAt, FooterAt, SameOutside, PutHeader, SortedIndex, Holes, Tiles, Span, Written, SoundWith, Live;
    var n := SetUpAsWritten(m, start, end);
    PutHeaderWrites(m, start, end - start, true);
    FooterSame(m, n, start, end);
    var hole := Chunk(start, end - start, true);
    if FooterAt(m, end - FOOTER, start) {
      OneHoleHeap(n, hole);
    }
    if SoundWith(n, [start], start, end, {}) {
      OneHoleFooter(n, start, end);
    }
  }

  lemma FooterSame(m: Bytes, n: Bytes, start: nat, end: nat)
    requires SameOutside(m, n, start, start + HEADER) && start + OVERHEAD <= end <= |m|
    ensures FooterAt(n, end - FOOTER, start) <==> FooterAt(m, end - FOOTER, start)
  {
  }

  lemma OneHoleHeap(n: Bytes, hole: Chunk)
    requires ChunkAt(n, hole) && hole.hole
    ensures SoundWith(n, [hole.addr], hole.addr, hole.addr + hole.size, {})
  {
    assert OVERHEAD <= hole.size;
    hide ChunkAt;
    One(hole);
    SoundBy(n, [hole.addr], [hole], hole.addr, hole.addr + hole.size);
    LiveOfHole(hole);
  }

  lemma {:induction false} OneHoleFooter(n: Bytes, start: nat, end: nat)
    requires SoundWith(n, [start], start, end, {}) && HeaderAt(n, start, end - start, true) && start < end
    ensures FooterAt(n, end - FOOTER, start)
  {
    hide Word, FooterAt, SortedIndex, Holes;
    var x :| IsHeap(n, [start], x, start, end, {});
    assert x[0] in x;
  }

  /** In cleared memory the constructed heap is none. */
  lemma SetUpFails()
    ensures !SoundWith(SetUpAsWritten(Blank(), 0x1000, 0x2000), [0x1000], 0x1000, 0x2000, {})
  {
    hide SoundWith, PutHeader;
    SetUpExact(Blank(), 0x1000, 0x2000);
    assert Word(Blank(), 0x2000 - FOOTER) == 0;
  }

  // ----- Growing: the hole with the greatest address is stretched, and keeps its entry

  /** The entry with the greatest address. */
  function Greatest(index: seq<nat>): (h: nat)
    requires index != []
    ensures h in index && forall a :: a in index ==> a <= h
  {
    if |index| == 1 then index[0]
    else
      var rest := Greatest(index[1..]);
      assert forall a :: a in index ==> a == index[0] || a in index[1..];
      if index[0] > rest then index[0] else rest
  }

  /** Memory and index after the end has moved up and the new pages have been made part of the heap. */
  function GrownAsWritten(m: Bytes, index: seq<nat>, oldEnd: nat, newEnd: nat): (Bytes, seq<nat>) {
    var delta := newEnd - oldEnd;
    if index == [] then
      var n := PutFooter(PutHeader(m, oldEnd, W32(delta), true), W32(newEnd - FOOTER), oldEnd);
      (n, Inserted([], oldEnd, BySize(n)))
    else
      var h := Greatest(index);
      var size := W32(ReadWord(m, h + 8) + delta);
      (PutFooter(Write(m, h + 8, size), W32(h + size - FOOTER), h), index)
  }

  /** When that does what is meant. */
  predicate GrowthWorks(m: Bytes, index: seq<nat>, cs: seq<Chunk>, delta: nat) {
    index == []
    || (EndsInHole(cs)
        && var last := cs[|cs| - 1]; InPlace(m, index, Search(index, last.addr), last.size + delta))
  }

  /**
   With fresh pages of any content behind the old end, growing as written leaves a heap with the same
   blocks live exactly when there was no hole at all, or the last chunk is one and keeps its place
   in the index.
   */
  lemma {:induction false} GrowExact(m: Bytes, n: Bytes, index: seq<nat>, cs: seq<Chunk>, start: nat, oldEnd: nat, newEnd: nat)
    requires Consistent(m, index, cs, start, oldEnd, multiset{}) && NoAdjacentHoles(cs) && SameOutside(m, n, oldEnd, newEnd)
    requires FOOTER <= start && oldEnd + OVERHEAD <= newEnd < ADDRESS_SPACE == |m|
    ensures var (p, after) := GrownAsWritten(n, index, oldEnd, newEnd);
            SoundWith(p, after, start, newEnd, Live(cs)) <==> GrowthWorks(m, index, cs, newEnd - oldEnd)
  {
    hide Tiles, Span, Holes, SortedIndex, Written, Word, SameOutside, Consistent, SoundWith, Live, GrownAsWritten, InPlace, Search,
         NoAdjacentHoles;
    if index == [] {
      GrowEmpty(m, n, cs, start, oldEnd, newEnd);
    } else {
      var h := Greatest(index);
      GreatestHole(m, index, cs, start, oldEnd);
      var j := Find(cs, h);
      Stretch(m, n, index, cs, start, oldEnd, newEnd, j);
      if j + 1 == |cs| {
        GrowLast(m, GrownAsWritten(n, index, oldEnd, newEnd).0, index, cs, start, oldEnd, newEnd);
      } else {
        Covered(GrownAsWritten(n, index, oldEnd, newEnd).0, index, cs, start, oldEnd, newEnd, j);
      }
    }
  }

  lemma {:induction false} GrowEmpty(m: Bytes, n: Bytes, cs: seq<Chunk>, start: nat, oldEnd: nat, newEnd: nat)
    requires Consistent(m, [], cs, start, oldEnd, multiset{}) && NoAdjacentHoles(cs) && SameOutside(m, n, oldEnd, newEnd)
    requires oldEnd + OVERHEAD <= newEnd < ADDRESS_SPACE == |m|
    ensures var (p, after) := GrownAsWritten(n, [], oldEnd, newEnd);
            var longer := cs + [Chunk(oldEnd, newEnd - oldEnd, true)];
            && after == [oldEnd] && Consistent(p, after, longer, start, newEnd, multiset{}) && NoAdjacentHoles(longer)
            && Live(longer) == Live(cs) && SoundWith(p, after, start, newEnd, Live(cs))
  {
    assert |n| == |m|;
    hide Tiles, Span, Holes, SortedIndex, Written, Word, SameOutside, ChunkAt, Consistent, SoundWith, Live, PutHeader, PutFooter, Inserted,
         NoAdjacentHoles;
    var hole := Chunk(oldEnd, newEnd - oldEnd, true);
    FirstHole(n, oldEnd, newEnd);
    OneInserted(PutChunk(n, hole), oldEnd);
    hide GrownAsWritten, PutChunk, BySize;
    var (p, after) := GrownAsWritten(n, [], oldEnd, newEnd);
    PutChunkWrites(n, hole);
    Compose(m, n, p, oldEnd, newEnd, oldEnd, newEnd, oldEnd, newEnd);
    Appended(m, p, [], cs, start, oldEnd, newEnd);
    assert multiset{} + multiset{oldEnd} == multiset{oldEnd};
    PutIn(p, [], oldEnd, cs + [hole], start, newEnd, multiset{});
    FirstAlone(m, cs, start, oldEnd, newEnd);
    SoundBy(p, after, cs + [hole], start, newEnd);
    LiveWith(cs, hole);
  }

  lemma OneInserted(m: Bytes, a: nat)
    ensures Inserted<nat>([], a, BySize(m)) == [a]
  {
  }

  /** Without an entry there is no hole, so a new one at the end stands alone. */
  lemma {:induction false} FirstAlone(m: Bytes, cs: seq<Chunk>, start: nat, end: nat, newEnd: nat)
    requires Consistent(m, [], cs, start, end, multiset{}) && NoAdjacentHoles(cs) && end <= newEnd
    ensures NoAdjacentHoles(cs + [Chunk(end, newEnd - end, true)])
  {
    hide Word, Written, SortedIndex, Tiles, Span, Holes, NoAdjacentHoles;
    if EndsInHole(cs) {
      HasEntry(m, [], cs, start, end, multiset{}, cs[|cs| - 1]);
    }
    GrownNoAdjacent(cs, end, newEnd - end);
  }

  lemma FirstHole(n: Bytes, oldEnd: nat, newEnd: nat)
    requires oldEnd + OVERHEAD <= newEnd < ADDRESS_SPACE
    ensures var (p, after) := GrownAsWritten(n, [], oldEnd, newEnd);
            p == PutChunk(n, Chunk(oldEnd, newEnd - oldEnd, true)) && after == Inserted([], oldEnd, BySize(p))
  {
    hide PutHeader, PutFooter, Inserted, W32;
  }

  lemma LiveWith(cs: seq<Chunk>, hole: Chunk)
    requires hole.hole
    ensures Live(cs + [hole]) == Live(cs)
  {
  }

  /** The greatest entry is the last hole of the tiling; what follows it are blocks. */
  lemma {:induction false} GreatestHole(m: Bytes, index: seq<nat>, cs: seq<Chunk>, start: nat, end: nat)
    requires Consistent(m, index, cs, start, end, multiset{}) && index != []
    ensures var j := Find(cs, Greatest(index));
            && j < |cs| && cs[j].hole && cs[j].addr == Greatest(index) && SizeAt(m, cs[j].addr) == cs[j].size
            && (j + 1 < |cs| ==> !cs[j + 1].hole && cs[j + 1].addr == cs[j].addr + cs[j].size)
            && start <= cs[j].addr && OVERHEAD <= cs[j].size && cs[j].addr + cs[j].size <= end
            && (EndsInHole(cs) <==> j + 1 == |cs|) && (j + 1 == |cs| ==> cs[j].addr + cs[j].size == end)
  {
    hide Word, Written, SortedIndex, Holes, Span, Tiles;
    var h := Greatest(index);
    var k :| 0 <= k < |index| && index[k] == h;
    Indexed(m, index, cs, start, end, multiset{}, k);
    var j := Find(cs, h);
    Neighbours(m, index, cs, start, end, multiset{}, j);
    if j + 1 < |cs| {
      NoneFurther(m, index, cs, start, end, j, j + 1);
      NoneFurther(m, index, cs, start, end, j, |cs| - 1);
    }
  }

  lemma {:induction false} NoneFurther(m: Bytes, index: seq<nat>, cs: seq<Chunk>, start: nat, end: nat, j: nat, l: nat)
    requires Consistent(m, index, cs, start, end, multiset{}) && j < l < |cs|
    requires forall a :: a in index ==> a <= cs[j].addr
    ensures !cs[l].hole
  {
    hide Word, Written, SortedIndex, Holes;
    InOrder(cs, start, j, l);
    Within(cs, start, cs[j]);
    if cs[l].hole {
      HasEntry(m, index, cs, start, end, multiset{}, cs[l]);
    }
  }

  /** The writes stretch the hole by what the heap has grown. */
  lemma {:induction false} Stretch(m: Bytes, n: Bytes, index: seq<nat>, cs: seq<Chunk>, start: nat, oldEnd: nat, newEnd: nat, j: nat)
    requires Consistent(m, index, cs, start, oldEnd, multiset{}) && SameOutside(m, n, oldEnd, newEnd) && index != []
    requires oldEnd < newEnd < ADDRESS_SPACE == |m|
    requires j < |cs| && cs[j].hole && cs[j].addr == Greatest(index) && OVERHEAD <= cs[j].size && cs[j].addr + cs[j].size <= oldEnd
    ensures var (p, after) := GrownAsWritten(n, index, oldEnd, newEnd);
            var size := cs[j].size + newEnd - oldEnd;
            && after == index && ChunkAt(p, Chunk(cs[j].addr, size, true)) && SameOutside(n, p, cs[j].addr, cs[j].addr + size)
            && (cs[j].addr + cs[j].size == oldEnd ==> SameOutside(m, p, cs[j].addr, newEnd))
  {
    assert |n| == |m|;
    hide Tiles, Span, Holes, SortedIndex, Written, Word, SameOutside, HeaderAt, FooterAt, ChunkAt, Consistent, GrownAsWritten, Greatest;
    BlockTags(m, index, cs, start, oldEnd, j);
    var h := cs[j].addr;
    HeaderOf(m, cs[j]);
    HeaderFrame(m, n, h, cs[j].size, true, oldEnd, newEnd);
    StretchWrites(n, index, h, cs[j].size, oldEnd, newEnd);
    var p := GrownAsWritten(n, index, oldEnd, newEnd).0;
    if h + cs[j].size == oldEnd {
      Compose(m, n, p, oldEnd, newEnd, h, newEnd, h, newEnd);
    }
  }

  lemma HeaderOf(m: Bytes, c: Chunk)
    requires ChunkAt(m, c)
    ensures HeaderAt(m, c.addr, c.size, c.hole)
  {
  }

  lemma StretchWrites(n: Bytes, index: seq<nat>, h: nat, size: nat, oldEnd: nat, newEnd: nat)
    requires index != [] && h == Greatest(index) && HeaderAt(n, h, size, true) && OVERHEAD <= size
    requires h + size <= oldEnd < newEnd < ADDRESS_SPACE == |n|
    ensures var (p, after) := GrownAsWritten(n, index, oldEnd, newEnd);
            var longer := size + newEnd - oldEnd;
            after == index && ChunkAt(p, Chunk(h, longer, true)) && SameOutside(n, p, h, h + longer)
  {
    hide Word, SameOutside, HeaderAt, FooterAt, ChunkAt, PutFooter, Write, ReadWord, W32, Greatest;
    HeaderSize(n, h, size, true);
    SizeAndFooter(n, h, size, size + newEnd - oldEnd);
  }

  /** The stretched last hole, while its entry is taken for missing. */
  lemma {:induction false} LastStretched(m: Bytes, p: Bytes, index: seq<nat>, cs: seq<Chunk>, start: nat, oldEnd: nat, newEnd: nat)
    requires Consistent(m, index, cs, start, oldEnd, multiset{}) && NoAdjacentHoles(cs) && EndsInHole(cs) && oldEnd < newEnd
    requires var last := cs[|cs| - 1];
             && ChunkAt(p, Chunk(last.addr, last.size + newEnd - oldEnd, true)) && SameOutside(m, p, last.addr, newEnd)
    ensures var last := cs[|cs| - 1];
            var k, longer := Search(index, last.addr), Grown(cs, oldEnd, newEnd - oldEnd);
            && k < |index| && index[k] == last.addr && SortedIndex(m, index)
            && longer != [] && longer[|longer| - 1] == Chunk(last.addr, last.size + newEnd - oldEnd, true)
            && Consistent(p, Removed(index, k), longer, start, newEnd, multiset{last.addr})
            && NoAdjacentHoles(longer) && Live(longer) == Live(cs)
            && forall a :: a in Removed(index, k) ==> SizeAt(p, a) == SizeAt(m, a)
  {
    hide Tiles, Span, Holes, SortedIndex, Written, Word, SameOutside, ChunkAt, Consistent, Live, Search, Removed, NoAdjacentHoles;
    TilesOf(m, index, cs, start, oldEnd, multiset{});
    LastChunk(cs, start);
    var lo := |cs| - 1;
    var last := cs[lo];
    TakeHole(m, index, cs, start, oldEnd, last);
    assert cs[lo..] == [last];
    One(last);
    TailRewritten(m, p, Removed(index, Search(index, last.addr)), cs, lo, start, oldEnd, newEnd, newEnd);
    LiveGrown(cs, oldEnd, newEnd - oldEnd);
    GrownNoAdjacent(cs, oldEnd, newEnd - oldEnd);
  }

  lemma {:induction false} GrowLast(m: Bytes, p: Bytes, index: seq<nat>, cs: seq<Chunk>, start: nat, oldEnd: nat, newEnd: nat)
    requires Consistent(m, index, cs, start, oldEnd, multiset{}) && NoAdjacentHoles(cs) && EndsInHole(cs) && oldEnd < newEnd
    requires var last := cs[|cs| - 1];
             && ChunkAt(p, Chunk(last.addr, last.size + newEnd - oldEnd, true)) && SameOutside(m, p, last.addr, newEnd)
    ensures var last := cs[|cs| - 1];
            SoundWith(p, index, start, newEnd, Live(cs)) <==> InPlace(m, index, Search(index, last.addr), last.size + newEnd - oldEnd)
  {
    hide Tiles, Span, Holes, SortedIndex, Written, Word, SameOutside, ChunkAt, Consistent, SoundWith, Live, InPlace, Search, Removed, Sound,
         NoAdjacentHoles, Grown;
    var last := cs[|cs| - 1];
    var longer := Grown(cs, oldEnd, newEnd - oldEnd);
    LastStretched(m, p, index, cs, start, oldEnd, newEnd);
    assert multiset{} + multiset{last.addr} == multiset{last.addr};
    BackIn(m, p, index, Search(index, last.addr), longer, longer[|longer| - 1], start, newEnd, multiset{});
    OrderDecides(p, index, longer, start, newEnd);
  }

  /** A stretched hole that covers a live block leaves no heap in which the block is live. */
  lemma {:induction false} Covered(p: Bytes, index: seq<nat>, cs: seq<Chunk>, start: nat, oldEnd: nat, newEnd: nat, j: nat)
    requires j + 1 < |cs| && !cs[j + 1].hole && cs[j + 1].addr == cs[j].addr + cs[j].size && oldEnd < newEnd
    requires cs[j].addr in index && 0 < cs[j].size && ChunkAt(p, Chunk(cs[j].addr, cs[j].size + newEnd - oldEnd, true))
    ensures !SoundWith(p, index, start, newEnd, Live(cs))
  {
    var block, h := cs[j + 1], cs[j].addr;
    assert block in Live(cs);
    forall x ensures !IsHeap(p, index, x, start, newEnd, Live(cs)) {
      if IsHeap(p, index, x, start, newEnd, Live(cs)) {
        HoleThere(p, index, x, start, newEnd, Chunk(h, cs[j].size + newEnd - oldEnd, true));
        hide Written, SortedIndex, Tiles, Word;
        assert block in Live(x);
        Disjoint(x, start, Chunk(h, cs[j].size + newEnd - oldEnd, true), block);
        Within(x, start, block);
      }
    }
  }

  /** GrowthFails shows the overlap; here the hole at the end grows past the size of the other one. */
  const SHORT: seq<Chunk> := [Chunk(0x1000, 0x100, true), Chunk(0x1100, 0xEE0, false), Chunk(0x1FE0, 32, true)]

  lemma {:induction false} GrowFails()
    ensures var m, index := PutAll(Blank(), SHORT), [0x1FE0, 0x1000];
            && Consistent(m, index, SHORT, 0x1000, 0x2000, multiset{}) && EndsInHole(SHORT)
            && var (p, after) := GrownAsWritten(m, index, 0x2000, 0x3000); !SoundWith(p, after, 0x1000, 0x3000, Live(SHORT))
  {
    hide Tiles, Span, Holes, PutAll, Word, ChunkAt, SameOutside, SoundWith, Live, GrownAsWritten, NoAdjacentHoles;
    var m, index := PutAll(Blank(), SHORT), [0x1FE0, 0x1000];
    ShortTiles();
    PutAllWrites(Blank(), SHORT, 0x1000);
    ShortSizes(m);
    Unchanged(m, 0x2000, 0x3000);
    assert |m| == ADDRESS_SPACE;
    GrowExact(m, m, index, SHORT, 0x1000, 0x2000, 0x3000);
  }

  lemma {:induction false} ShortTiles()
    ensures Tiles(SHORT, 0x1000) && Span(SHORT) == 0x1000 && Holes(SHORT) == multiset{0x1000, 0x1FE0} && NoAdjacentHoles(SHORT)
  {
    var a, b, c := [SHORT[0]], [SHORT[1]], [SHORT[2]];
    One(SHORT[0]);
    One(SHORT[1]);
    One(SHORT[2]);
    hide Tiles, Span, Holes, NoAdjacentHoles;
    assert SHORT == a + b + c;
    NoAdjacentConcat(a, b);
    NoAdjacentConcat(a + b, c);
    SpliceTiles(a, b, c, 0x1000);
    SpliceHoles(a, b, c);
  }

  lemma {:induction false} ShortSizes(m: Bytes)
    requires Written(m, SHORT)
    ensures var index := [0x1FE0, 0x1000];
            SizeAt(m, 0x1FE0) == 32 && SizeAt(m, 0x1000) == 0x100 && SortedIndex(m, index) && !GrowthWorks(m, index, SHORT, 0x1000)
            && multiset(index) + multiset{} == multiset{0x1000, 0x1FE0}
  {
    hide Word, FooterAt;
    assert ChunkAt(m, SHORT[0]) && ChunkAt(m, SHORT[2]);
  }
}
