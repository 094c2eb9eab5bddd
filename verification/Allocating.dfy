/**
 One whole call of `Heap::Alloc` as it is written (kernel/Heap.cpp:36-154): the search, the placing and,
 for unaligned requests, growing and trying again.
 */
module Allocating {
  import opened Memory
  import opened Options
  import opened OrderedLists
  import opened BoundaryTags
  import opened HeapSteps
  import opened RawTags
  import opened Growing
  import opened Placing
  import Heaps

  /** The bytes to look for: the sum wraps (line 40). */
  function Need(size: nat): nat {
    W32(size + OVERHEAD)
  }

  /** What the search finds is what is meant: a smallest hole that fits, or none. */
  lemma {:induction false} SearchIsBest(m: Bytes, index: seq<nat>, cs: seq<Chunk>, start: nat, end: nat, need: nat, align: bool)
    requires Consistent(m, index, cs, start, end, multiset{})
    requires var k := FoundAsWritten(m, index, need, align);
             forall j :: 0 <= j < |index| && j <= k ==> Told(index[j], SizeAt(m, index[j]), need, align)
    ensures var k := FoundAsWritten(m, index, need, align);
            && (k == |index| <==> !FitsSome(cs, need, align))
            && (k < |index| ==> Chosen(cs, Find(cs, index[k]), need, align))
  {
    hide Consistent, Told, SizeAt, Fits, Chosen, FitsSome;
    SearchExact(m, index, need, align);
    Heaps.FirstFitIsBest(m, index, cs, start, end, need, align, FoundMeant(m, index, need, align));
  }

  // ----- A call that finds a hole

  /** A block of at least the requested size has become live, on a page boundary if asked for, and no other. */
  ghost predicate Allocates(placed: (Bytes, seq<nat>, nat), block: nat, size: nat, align: bool, start: nat, end: nat, live: set<Chunk>) {
    && size + OVERHEAD <= block && Places(placed, block, start, end, live)
    && (align ==> OnPage(placed.2 + HEADER))
  }

  /** The size the text gives to the block it puts into the hole at `index[k]`. */
  function BlockOf(m: Bytes, index: seq<nat>, k: nat, need: nat): nat
    requires k < |index|
  {
    BlockAsWritten(SizeAt(m, index[k]), need)
  }

  /**
   A call that finds a hole does what is meant exactly when the size does not wrap and, for an aligned
   request, the pieces of the hole fit and the front hole keeps its place.
   */
  lemma {:induction false} AllocExact(m: Bytes, index: seq<nat>, cs: seq<Chunk>, start: nat, end: nat, size: nat, align: bool)
    requires Consistent(m, index, cs, start, end, multiset{}) && NoAdjacentHoles(cs) && PAGE <= start && end < ADDRESS_SPACE == |m|
    requires size < ADDRESS_SPACE && FoundAsWritten(m, index, Need(size), align) < |index|
    ensures var need, k := Need(size), FoundAsWritten(m, index, Need(size), align);
            var i := Find(cs, index[k]);
            && i < |cs| && cs[i].hole && cs[i].addr == index[k]
            && (Allocates(PlaceAsWritten(m, index, k, need, align, end), BlockOf(m, index, k, need), size, align, start, end, Live(cs))
                <==> size + OVERHEAD < ADDRESS_SPACE && (align ==> AlignedWorks(m, index, k, cs[i], need)))
  {
    hide Tiles, Span, Holes, SortedIndex, Written, Word, Consistent, SoundWith, Live, PlaceAsWritten, NoAdjacentHoles, SizeAt, AlignedWorks,
         BlockAsWritten, BlockSize, Places, W32, FoundAsWritten, Find, FitsAsWritten;
    var need, k := Need(size), FoundAsWritten(m, index, Need(size), align);
    Indexed(m, index, cs, start, end, multiset{}, k);
    var i := Find(cs, index[k]);
    PlaceFacts(m, index, k, cs, start, end, i);
    BlockBound(cs[i].size, need);
    if size + OVERHEAD < ADDRESS_SPACE {
      if align {
        Placing.AlignedExact(m, index, k, cs, start, end, i, need);
        AlignedAt(m, index, k, cs[i], need, end);
      } else {
        SmallSlack(cs[i].size, need);
        UnalignedPlaces(m, index, k, cs, start, end, i, need);
      }
    }
  }

  lemma BlockBound(size: nat, need: nat)
    requires size < ADDRESS_SPACE && need < ADDRESS_SPACE
    ensures BlockAsWritten(size, need) < ADDRESS_SPACE
  {
  }

  lemma AlignedAt(m: Bytes, index: seq<nat>, k: nat, hole: Chunk, need: nat, end: nat)
    requires k < |index| && hole.addr == index[k] && PAGE <= hole.addr && hole.size < ADDRESS_SPACE
    ensures OnPage(PlaceAsWritten(m, index, k, need, true, end).2 + HEADER)
    ensures AlignedWorks(m, index, k, hole, need) ==> BlockAsWritten(hole.size, need) == need
  {
    hide PlaceAsWritten, InPlace, BlockAsWritten, W32;
    FrontEntry(m, index, k, need, end);
    Cut32(hole.size, need, Front(hole.addr));
  }

  // ----- A whole unaligned call: search, and grow and search again if nothing is found

  /** The outcome, the block's size and the heap's end; `n` is memory after the pages up to `newEnd` have been mapped. */
  function AllocAsWritten(m: Bytes, n: Bytes, index: seq<nat>, size: nat, oldEnd: nat, newEnd: nat)
    : Option<((Bytes, seq<nat>, nat), nat, nat)>
  {
    var need := Need(size);
    var k := FoundAsWritten(m, index, need, false);
    if k < |index| then
      Some((PlaceAsWritten(m, index, k, need, false, oldEnd), BlockOf(m, index, k, need), oldEnd))
    else
      var (p, after) := GrownAsWritten(n, index, oldEnd, newEnd);
      var l := FoundAsWritten(p, after, need, false);
      if l < |after| then
        Some((PlaceAsWritten(p, after, l, need, false, newEnd), BlockOf(p, after, l, need), newEnd))
      else None
  }

  ghost predicate AllocWorks(outcome: Option<((Bytes, seq<nat>, nat), nat, nat)>, size: nat, start: nat, live: set<Chunk>) {
    outcome.Some? && Allocates(outcome.value.0, outcome.value.1, size, false, start, outcome.value.2, live)
  }

  /** The only entry that accepts is the one that is found. */
  lemma FoundAt(m: Bytes, index: seq<nat>, need: nat, align: bool, k: nat)
    requires k < |index| && Accepts(index[k], SizeAt(m, index[k]), need, align)
    requires forall j :: 0 <= j < |index| && j != k ==> !Accepts(index[j], SizeAt(m, index[j]), need, align)
    ensures FoundAsWritten(m, index, need, align) == k
  {
    hide Accepts, SizeAt;
  }

  /**
   An unaligned call, growing included, does what is meant exactly when the size does not wrap and
   either a hole fits, or there is no hole at all, or the last chunk is one.  An entry that growing has
   left out of order does no harm, because the grown hole is the one that is used up.
   */
  lemma {:induction false} UnalignedExact(m: Bytes, n: Bytes, index: seq<nat>, cs: seq<Chunk>, start: nat, oldEnd: nat, newEnd: nat, size: nat)
    requires Consistent(m, index, cs, start, oldEnd, multiset{}) && NoAdjacentHoles(cs) && PAGE <= start
    requires SameOutside(m, n, oldEnd, newEnd) && size < ADDRESS_SPACE
    requires oldEnd + OVERHEAD <= newEnd && oldEnd + Need(size) <= newEnd < ADDRESS_SPACE == |m|
    ensures AllocWorks(AllocAsWritten(m, n, index, size, oldEnd, newEnd), size, start, Live(cs)) <==>
            size + OVERHEAD < ADDRESS_SPACE && (FitsSome(cs, size + OVERHEAD, false) || index == [] || EndsInHole(cs))
  {
    hide Tiles, Span, Holes, SortedIndex, Written, Word, Consistent, SoundWith, Live, PlaceAsWritten, NoAdjacentHoles, SizeAt, Places,
         FoundAsWritten, GrownAsWritten, BlockOf, SameOutside, FitsSome, Chosen, W32, EndsInHole;
    var need := Need(size);
    var k := FoundAsWritten(m, index, need, false);
    Wrapped(m, index, k, need, size);
    if size + OVERHEAD < ADDRESS_SPACE {
      SearchIsBest(m, index, cs, start, oldEnd, need, false);
      if k < |index| {
        AllocExact(m, index, cs, start, oldEnd, size, false);
      } else if index == [] {
        AfterFirst(m, n, cs, start, oldEnd, newEnd, need);
      } else {
        AfterStretch(m, n, index, cs, start, oldEnd, newEnd, need);
      }
    } else if k == |index| {
      var (p, after) := GrownAsWritten(n, index, oldEnd, newEnd);
      Wrapped(p, after, FoundAsWritten(p, after, need, false), need, size);
    }
  }

  /** A size that wraps never gets a block of its size. */
  lemma Wrapped(m: Bytes, index: seq<nat>, k: nat, need: nat, size: nat)
    requires need < ADDRESS_SPACE
    ensures k < |index| && ADDRESS_SPACE <= size + OVERHEAD ==> BlockOf(m, index, k, need) < size + OVERHEAD
  {
    if k < |index| {
      SizeBound(m, index[k]);
      BlockBound(SizeAt(m, index[k]), need);
    }
  }

  /** With no hole before, the new one takes the block. */
  lemma {:induction false} AfterFirst(m: Bytes, n: Bytes, cs: seq<Chunk>, start: nat, oldEnd: nat, newEnd: nat, need: nat)
    requires Consistent(m, [], cs, start, oldEnd, multiset{}) && NoAdjacentHoles(cs) && PAGE <= start && SameOutside(m, n, oldEnd, newEnd)
    requires OVERHEAD <= need && oldEnd + need <= newEnd < ADDRESS_SPACE == |m|
    ensures var (p, after) := GrownAsWritten(n, [], oldEnd, newEnd);
            var l := FoundAsWritten(p, after, need, false);
            l < |after| && need <= BlockOf(p, after, l, need)
            && Places(PlaceAsWritten(p, after, l, need, false, newEnd), BlockOf(p, after, l, need), start, newEnd, Live(cs))
  {
    assert |n| == |m|;
    hide Tiles, Span, Holes, SortedIndex, Written, Word, Consistent, SoundWith, Live, PlaceAsWritten, NoAdjacentHoles, SizeAt, Places,
         GrownAsWritten, SameOutside, FoundAsWritten, BlockSize, BlockAsWritten, W32;
    var hole := Chunk(oldEnd, newEnd - oldEnd, true);
    var longer := cs + [hole];
    var (p, after) := GrownAsWritten(n, [], oldEnd, newEnd);
    GrowEmpty(m, n, cs, start, oldEnd, newEnd);
    GrownLength(n, [], oldEnd, newEnd);
    assert longer[|cs|] == hole && hole in longer;
    PlaceFacts(p, after, 0, longer, start, newEnd, |cs|);
    FoundAt(p, after, need, false, 0);
    SmallSlack(hole.size, need);
    UnalignedPlaces(p, after, 0, longer, start, newEnd, |cs|, need);
  }

  /** The entries below the stretched hole keep their sizes, so it is the one that is found. */
  lemma {:induction false} StretchedFound(m: Bytes, n: Bytes, p: Bytes, index: seq<nat>, cs: seq<Chunk>, start: nat, oldEnd: nat, newEnd: nat,
                                          need: nat, size: nat)
    requires Consistent(m, index, cs, start, oldEnd, multiset{}) && index != [] && oldEnd <= newEnd
    requires SameOutside(m, n, oldEnd, newEnd) && SameOutside(n, p, Greatest(index), Greatest(index) + size)
    requires SizeAt(p, Greatest(index)) == size && need <= size
    requires forall j :: 0 <= j < |index| ==> SizeAt(m, index[j]) < need
    ensures FoundAsWritten(p, index, need, false) == Search(index, Greatest(index)) < |index|
  {
    hide Word, Tiles, Span, Holes, SortedIndex, Written, FoundAsWritten, SameOutside, SizeAt, Consistent, Search;
    var h := Greatest(index);
    SearchFinds(index, h);
    var k := Search(index, h);
    forall j | 0 <= j < |index| && j != k ensures SizeAt(p, index[j]) < need {
      BelowKept(m, n, p, index, cs, start, oldEnd, newEnd, j, k, size);
    }
    FoundAt(p, index, need, false, k);
  }

  lemma {:induction false} BelowKept(m: Bytes, n: Bytes, p: Bytes, index: seq<nat>, cs: seq<Chunk>, start: nat, oldEnd: nat, newEnd: nat,
                                     j: nat, k: nat, size: nat)
    requires Consistent(m, index, cs, start, oldEnd, multiset{}) && oldEnd <= newEnd && j < |index| && k < |index| && j != k
    requires forall a :: a in index ==> a <= index[k]
    requires SameOutside(m, n, oldEnd, newEnd) && SameOutside(n, p, index[k], index[k] + size)
    ensures SizeAt(p, index[j]) == SizeAt(m, index[j])
  {
    hide Word, Written, SortedIndex, Holes, Span, Tiles, SameOutside;
    EntryOnce(m, index, cs, start, oldEnd, j, k);
    Indexed(m, index, cs, start, oldEnd, multiset{}, j);
    Indexed(m, index, cs, start, oldEnd, multiset{}, k);
    var c, d := cs[Find(cs, index[j])], cs[Find(cs, index[k])];
    assert index[j] in index;
    Disjoint(cs, start, c, d);
    Within(cs, start, c);
    Within(cs, start, d);
    SizeFrame(m, n, index[j], oldEnd, newEnd);
    SizeFrame(n, p, index[j], index[k], index[k] + size);
  }

  /** A block that reaches into a live one is none. */
  lemma {:induction false} Overlapping(placed: (Bytes, seq<nat>, nat), block: nat, start: nat, end: nat, live: set<Chunk>, c: Chunk)
    requires c in live && placed.2 < c.addr < placed.2 + block
    ensures !Places(placed, block, start, end, live)
  {
    hide IsHeap;
    if Places(placed, block, start, end, live) {
      var b := Chunk(placed.2, block, false);
      var x :| IsHeap(placed.0, placed.1, x, start, end, live + {b});
      TwoBlocks(placed.0, placed.1, x, start, end, live + {b}, b, c);
    }
  }

  /** With holes but none that fits, the stretched one is what the second search finds. */
  lemma {:induction false} StretchState(m: Bytes, n: Bytes, index: seq<nat>, cs: seq<Chunk>, start: nat, oldEnd: nat, newEnd: nat, need: nat)
    requires Consistent(m, index, cs, start, oldEnd, multiset{}) && SameOutside(m, n, oldEnd, newEnd)
    requires OVERHEAD <= need && oldEnd + need <= newEnd < ADDRESS_SPACE == |m| && index != []
    requires forall j :: 0 <= j < |index| ==> SizeAt(m, index[j]) < need
    ensures var (p, after) := GrownAsWritten(n, index, oldEnd, newEnd);
            var h, j := Greatest(index), Find(cs, Greatest(index));
            && j < |cs| && cs[j].hole && cs[j].addr == h && cs[j].size < need && OVERHEAD <= cs[j].size
            && (EndsInHole(cs) <==> j + 1 == |cs|)
            && (j + 1 < |cs| ==> !cs[j + 1].hole && cs[j + 1].addr == h + cs[j].size)
            && after == index && |p| == |m| && SizeAt(p, h) == cs[j].size + newEnd - oldEnd
            && ChunkAt(p, Chunk(h, cs[j].size + newEnd - oldEnd, true))
            && (j + 1 == |cs| ==> SameOutside(m, p, h, newEnd))
            && FoundAsWritten(p, after, need, false) == Search(index, h) < |index| && index[Search(index, h)] == h
  {
    hide Tiles, Span, Holes, SortedIndex, Written, Word, Consistent, SizeAt, GrownAsWritten, SameOutside, FoundAsWritten, W32, Greatest,
         Find, Search, ChunkAt, Accepts, EndsInHole, InPlace;
    SameLength(m, n, oldEnd, newEnd);
    var h := Greatest(index);
    GreatestHole(m, index, cs, start, oldEnd);
    var j := Find(cs, h);
    Stretch(m, n, index, cs, start, oldEnd, newEnd, j);
    var p := GrownAsWritten(n, index, oldEnd, newEnd).0;
    GrownLength(n, index, oldEnd, newEnd);
    var hole := Chunk(h, cs[j].size + newEnd - oldEnd, true);
    HoleSize(p, hole);
    SearchFinds(index, h);
    assert SizeAt(m, index[Search(index, h)]) < need;
    StretchedFound(m, n, p, index, cs, start, oldEnd, newEnd, need, hole.size);
  }

  lemma SameLength(m: Bytes, n: Bytes, lo: nat, hi: nat)
    requires SameOutside(m, n, lo, hi)
    ensures |n| == |m|
  {
  }

  lemma NoneAccepted(m: Bytes, index: seq<nat>, need: nat)
    requires FoundAsWritten(m, index, need, false) == |index|
    ensures forall j :: 0 <= j < |index| ==> SizeAt(m, index[j]) < need
  {
  }

  /** It takes the block, rightly exactly if it is the last chunk. */
  lemma {:induction false} AfterStretch(m: Bytes, n: Bytes, index: seq<nat>, cs: seq<Chunk>, start: nat, oldEnd: nat, newEnd: nat, need: nat)
    requires Consistent(m, index, cs, start, oldEnd, multiset{}) && NoAdjacentHoles(cs) && PAGE <= start && SameOutside(m, n, oldEnd, newEnd)
    requires OVERHEAD <= need && oldEnd + need <= newEnd < ADDRESS_SPACE == |m| && index != []
    requires FoundAsWritten(m, index, need, false) == |index|
    ensures var (p, after) := GrownAsWritten(n, index, oldEnd, newEnd);
            var l := FoundAsWritten(p, after, need, false);
            l < |after| && need <= BlockOf(p, after, l, need)
            && (Places(PlaceAsWritten(p, after, l, need, false, newEnd), BlockOf(p, after, l, need), start, newEnd, Live(cs)) <==> EndsInHole(cs))
  {
    hide Tiles, Span, Holes, SortedIndex, Written, Word, Consistent, Live, PlaceAsWritten, NoAdjacentHoles, SizeAt, Places, GrownAsWritten,
         SameOutside, FoundAsWritten, BlockSize, BlockAsWritten, Greatest, Find, Search, ChunkAt;
    NoneAccepted(m, index, need);
    StretchState(m, n, index, cs, start, oldEnd, newEnd, need);
    var h, j := Greatest(index), Find(cs, Greatest(index));
    var p := GrownAsWritten(n, index, oldEnd, newEnd).0;
    var k := Search(index, h);
    SizeBound(p, h);
    SmallSlack(SizeAt(p, h), need);
    if j + 1 == |cs| {
      StretchPlaces(m, p, index, cs, start, oldEnd, newEnd, need);
    } else {
      PlacedAt(p, index, k, need, newEnd);
      NextIsLive(cs, j);
      Overlapping(PlaceAsWritten(p, index, k, need, false, newEnd), BlockOf(p, index, k, need), start, newEnd, Live(cs), cs[j + 1]);
    }
  }

  lemma {:induction false} StretchPlaces(m: Bytes, p: Bytes, index: seq<nat>, cs: seq<Chunk>, start: nat, oldEnd: nat, newEnd: nat, need: nat)
    requires Consistent(m, index, cs, start, oldEnd, multiset{}) && NoAdjacentHoles(cs) && EndsInHole(cs) && oldEnd < newEnd
    requires PAGE <= start && newEnd < ADDRESS_SPACE == |p| && OVERHEAD <= need
    requires var last := cs[|cs| - 1];
             && ChunkAt(p, Chunk(last.addr, last.size + newEnd - oldEnd, true)) && SameOutside(m, p, last.addr, newEnd)
             && need <= last.size + newEnd - oldEnd
    ensures var last := cs[|cs| - 1];
            var k := Search(index, last.addr);
            k < |index| && Places(PlaceAsWritten(p, index, k, need, false, newEnd), BlockSize(last.size + newEnd - oldEnd, need),
                                  start, newEnd, Live(cs))
  {
    hide Tiles, Span, Holes, SortedIndex, Written, Word, Consistent, SoundWith, Live, PlaceAsWritten, NoAdjacentHoles, SizeAt, Places,
         SameOutside, BlockSize, Search, Removed, Grown, ChunkAt;
    var longer := Grown(cs, oldEnd, newEnd - oldEnd);
    LastStretched(m, p, index, cs, start, oldEnd, newEnd);
    HoleSize(p, longer[|longer| - 1]);
    TakenPlaces(p, index, Search(index, cs[|cs| - 1].addr), longer, start, newEnd, |longer| - 1, need);
  }

  lemma PlacedAt(m: Bytes, index: seq<nat>, k: nat, need: nat, end: nat)
    requires k < |index|
    ensures PlaceAsWritten(m, index, k, need, false, end).2 == index[k]
  {
    hide PutBlock, BlockAsWritten, ReadWord;
  }

  lemma NextIsLive(cs: seq<Chunk>, j: nat)
    requires j + 1 < |cs| && !cs[j + 1].hole
    ensures cs[j + 1] in Live(cs)
  {
  }

  lemma GrownLength(n: Bytes, index: seq<nat>, oldEnd: nat, newEnd: nat)
    requires oldEnd + OVERHEAD <= newEnd
    ensures |GrownAsWritten(n, index, oldEnd, newEnd).0| == |n|
  {
    hide Word;
  }

  // ----- Two heaps that have to grow

  /** The heap on which growing leaves the index out of order is one again after the whole call. */
  lemma {:induction false} AllocHeals()
    ensures var m, index := PutAll(Blank(), SHORT), [0x1FE0, 0x1000];
            && !SoundWith(GrownAsWritten(m, index, 0x2000, 0x3000).0, GrownAsWritten(m, index, 0x2000, 0x3000).1, 0x1000, 0x3000, Live(SHORT))
            && AllocWorks(AllocAsWritten(m, m, index, 0x200, 0x2000, 0x3000), 0x200, 0x1000, Live(SHORT))
  {
    hide Tiles, Span, Holes, PutAll, Word, ChunkAt, SameOutside, SoundWith, Live, GrownAsWritten, NoAdjacentHoles, AllocAsWritten, AllocWorks,
         FitsSome;
    var m, index := PutAll(Blank(), SHORT), [0x1FE0, 0x1000];
    GrowFails();
    ShortTiles();
    Unchanged(m, 0x2000, 0x3000);
    UnalignedExact(m, m, index, SHORT, 0x1000, 0x2000, 0x3000, 0x200);
  }

  const COVERED: seq<Chunk> := [Chunk(0x1000, 0x100, true), Chunk(0x1100, 0xF00, false)]

  /** A hole before the last block is stretched over it and handed out. */
  lemma {:induction false} AllocFails()
    ensures var m := PutAll(Blank(), COVERED);
            && Consistent(m, [0x1000], COVERED, 0x1000, 0x2000, multiset{}) && NoAdjacentHoles(COVERED)
            && !AllocWorks(AllocAsWritten(m, m, [0x1000], 0x200, 0x2000, 0x3000), 0x200, 0x1000, Live(COVERED))
  {
    hide Tiles, Span, Holes, PutAll, Word, ChunkAt, SameOutside, Live, NoAdjacentHoles, AllocAsWritten, AllocWorks, FitsSome;
    var m := PutAll(Blank(), COVERED);
    CoveredTiles();
    PutAllWrites(Blank(), COVERED, 0x1000);
    assert |m| == ADDRESS_SPACE && Consistent(m, [0x1000], COVERED, 0x1000, 0x2000, multiset{});
    Unchanged(m, 0x2000, 0x3000);
    NoneFits();
    UnalignedExact(m, m, [0x1000], COVERED, 0x1000, 0x2000, 0x3000, 0x200);
  }

  lemma NoneFits()
    ensures !FitsSome(COVERED, 0x200 + OVERHEAD, false)
  {
  }

  lemma {:induction false} CoveredTiles()
    ensures Tiles(COVERED, 0x1000) && Span(COVERED) == 0x1000 && Holes(COVERED) == multiset{0x1000} && NoAdjacentHoles(COVERED)
  {
    var a, b := [COVERED[0]], [COVERED[1]];
    One(COVERED[0]);
    One(COVERED[1]);
    hide Tiles, Span, Holes, NoAdjacentHoles;
    assert COVERED == a + b;
    TilesConcat(a, b, 0x1000);
    SpanConcat(a, b);
    HolesConcat(a, b);
    NoAdjacentConcat(a, b);
  }
}
