/**
 Finding a hole and putting a block into it as kernel/Heap.cpp:95-153 and 236-263 are written: when
 exactly the search finds what is meant, and when exactly the result is a heap with the new block.
 */
module Placing {
  import opened Memory
  import opened OrderedLists
  import opened BoundaryTags
  import opened HeapSteps
  import opened RawTags

  // ----- Does an aligned block fit? (lines 245-252)

  /** The bytes the text allows for alignment: none at even addresses. */
  function OffsetAsWritten(addr: nat): nat {
    if (addr + HEADER) % 2 == 1 then PAGE - (addr + HEADER) % PAGE else 0
  }

  predicate FitsAsWritten(addr: nat, size: nat, need: nat) {
    need <= W32(size - OffsetAsWritten(addr))
  }

  /** When the test as written tells the truth. */
  predicate FitTold(addr: nat, size: nat, need: nat) {
    var off := OffsetAsWritten(addr);
    if off <= size then !(off + need <= size < Gap(addr, true) + need) else ADDRESS_SPACE + size - off < need
  }

  lemma FitExact(addr: nat, size: nat, need: nat)
    requires size < ADDRESS_SPACE
    ensures FitsAsWritten(addr, size, need) == Fits(addr, size, need, true) <==> FitTold(addr, size, need)
  {
  }

  /** At an odd address the difference wraps; at an even one alignment is forgotten. */
  lemma FitFails()
    ensures FitsAsWritten(0x2001, 0x100, 0x1000) && !Fits(0x2001, 0x100, 0x1000, true)
    ensures FitsAsWritten(0x2000, 0x100, 0x80) && !Fits(0x2000, 0x100, 0x80, true)
  {
  }

  /** The test the search makes, aligned or not. */
  predicate Accepts(addr: nat, size: nat, need: nat, align: bool) {
    if align then FitsAsWritten(addr, size, need) else need <= size
  }

  predicate Told(addr: nat, size: nat, need: nat, align: bool) {
    align ==> FitTold(addr, size, need)
  }

  lemma AcceptsExact(addr: nat, size: nat, need: nat, align: bool)
    requires size < ADDRESS_SPACE
    ensures Accepts(addr, size, need, align) == Fits(addr, size, need, align) <==> Told(addr, size, need, align)
  {
    hide FitsAsWritten, FitTold;
    if align {
      FitExact(addr, size, need);
    }
  }

  /** The first entry the test accepts, or the length. */
  function FoundAsWritten(m: Bytes, index: seq<nat>, need: nat, align: bool): (k: nat)
    ensures k <= |index|
    ensures k < |index| ==> Accepts(index[k], SizeAt(m, index[k]), need, align)
    ensures forall j :: 0 <= j < k ==> !Accepts(index[j], SizeAt(m, index[j]), need, align)
  {
    if index == [] || Accepts(index[0], SizeAt(m, index[0]), need, align) then 0 else 1 + FoundAsWritten(m, index[1..], need, align)
  }

  /** The first entry that fits, or the length. */
  function FoundMeant(m: Bytes, index: seq<nat>, need: nat, align: bool): (k: nat)
    ensures k <= |index|
    ensures k < |index| ==> Fits(index[k], SizeAt(m, index[k]), need, align)
    ensures forall j :: 0 <= j < k ==> !Fits(index[j], SizeAt(m, index[j]), need, align)
  {
    if index == [] || Fits(index[0], SizeAt(m, index[0]), need, align) then 0 else 1 + FoundMeant(m, index[1..], need, align)
  }

  /** The search finds what is meant exactly when the test tells the truth about every entry it looks at. */
  lemma {:induction false} SearchExact(m: Bytes, index: seq<nat>, need: nat, align: bool)
    ensures FoundAsWritten(m, index, need, align) == FoundMeant(m, index, need, align) <==>
            forall k :: 0 <= k < |index| && k <= FoundAsWritten(m, index, need, align) ==> Told(index[k], SizeAt(m, index[k]), need, align)
  {
    hide Accepts, Fits, Told, SizeAt;
    forall k | 0 <= k < |index|
      ensures Accepts(index[k], SizeAt(m, index[k]), need, align) == Fits(index[k], SizeAt(m, index[k]), need, align)
              <==> Told(index[k], SizeAt(m, index[k]), need, align)
    {
      SizeBound(m, index[k]);
      AcceptsExact(index[k], SizeAt(m, index[k]), need, align);
    }
  }

  lemma SizeBound(m: Bytes, a: nat)
    ensures SizeAt(m, a) < ADDRESS_SPACE
  {
  }

  // ----- Placing the block (lines 95-153)

  /** The slack is compared before the block has moved to its page boundary. */
  function BlockAsWritten(size: nat, need: nat): nat {
    if W32(size - need) < OVERHEAD then size else need
  }

  function WithEntry(index: seq<nat>, a: nat, m: Bytes): seq<nat> {
    Inserted<nat>(index, a, BySize(m))
  }

  /** Header and footer of the block, and a hole for what the text takes to be left. */
  function PutBlock(m: Bytes, index: seq<nat>, pos: nat, room: int, block: nat, end: nat): (Bytes, seq<nat>) {
    var n := PutFooter(PutHeader(m, pos, block, false), W32(pos + block - FOOTER), pos);
    var rest := W32(room - block);
    if rest > 0 then
      var t := W32(pos + block);
      var o := PutHeader(n, t, rest, true);
      var f := W32(t + rest - FOOTER);
      var p := if f < end then PutFooter(o, f, t) else o;
      (p, WithEntry(index, t, p))
    else (n, index)
  }

  /** Memory, index and the block's address. */
  function PlaceAsWritten(m: Bytes, index: seq<nat>, k: nat, need: nat, align: bool, end: nat): (Bytes, seq<nat>, nat)
    requires k < |index|
  {
    var pos := index[k];
    var size := ReadWord(m, pos + 8);
    var block := BlockAsWritten(size, need);
    if align && PAGE <= pos then
      var front := PAGE - pos % PAGE - HEADER;
      var n := PutFooter(PutHeader(m, pos, W32(front), true), pos + front - FOOTER, pos);
      var (p, after) := PutBlock(n, index, pos + front, size - ReadWord(n, pos + 8), block, end);
      (p, after, pos + front)
    else
      var (p, after) := PutBlock(m, Removed(index, k), pos, size, block, end);
      (p, after, pos)
  }

  /** The outcome is a heap in which exactly one block is new. */
  ghost predicate Places(placed: (Bytes, seq<nat>, nat), block: nat, start: nat, end: nat, live: set<Chunk>) {
    var new' := Chunk(placed.2, block, false);
    new' !in live && SoundWith(placed.0, placed.1, start, end, live + {new'})
  }

  /** The writes for a block, and for a hole behind it. */
  lemma PutBlockIs(m: Bytes, index: seq<nat>, pos: nat, size: nat, block: nat, end: nat)
    requires OVERHEAD <= block <= size && (block == size || block + OVERHEAD <= size) && pos + size <= end < ADDRESS_SPACE
    ensures var n, t, rest := PutChunk(m, Chunk(pos, block, false)), pos + block, size - block;
            var p := PutChunk(n, Chunk(t, rest, true));
            PutBlock(m, index, pos, size, block, end) == if rest > 0 then (p, WithEntry(index, t, p)) else (n, index)
  {
    hide PutHeader, PutFooter, WithEntry, W32;
  }

  lemma {:induction false} PutFirst(m: Bytes, c: Chunk, rest: seq<Chunk>)
    requires OVERHEAD <= c.size < ADDRESS_SPACE && c.addr + c.size <= |m| <= ADDRESS_SPACE
    ensures |PutChunk(m, c)| == |m| && PutAll(m, [c] + rest) == PutAll(PutChunk(m, c), rest)
  {
    hide PutChunk;
    PutChunkWrites(m, c);
    assert ([c] + rest)[1..] == rest;
  }

  /** Blocks and holes that fit edge to edge are written as such. */
  lemma {:induction false} PutBlockWrites(m: Bytes, index: seq<nat>, pos: nat, size: nat, block: nat, end: nat)
    requires OVERHEAD <= block <= size && (block == size || block + OVERHEAD <= size) && pos + size <= end < ADDRESS_SPACE == |m|
    ensures var (p, after) := PutBlock(m, index, pos, size, block, end);
            var rest := size - block;
            && p == PutAll(m, [Chunk(pos, block, false)] + HoleIf(pos + block, rest))
            && after == if rest > 0 then WithEntry(index, pos + block, p) else index
  {
    hide PutBlock, PutChunk, WithEntry, HoleIf, PutAll, PutHeader, PutFooter, W32, BySize, SizeAt;
    PutBlockIs(m, index, pos, size, block, end);
    var b := Chunk(pos, block, false);
    PutFirst(m, b, HoleIf(pos + block, size - block));
    PutTail(PutChunk(m, b), pos + block, size - block);
  }

  lemma {:induction false} PutTail(m: Bytes, a: nat, size: nat)
    requires (size == 0 || OVERHEAD <= size) && a + size < ADDRESS_SPACE == |m|
    ensures PutAll(m, HoleIf(a, size)) == if size > 0 then PutChunk(m, Chunk(a, size, true)) else m
  {
    hide PutChunk;
    if size > 0 {
      var t := Chunk(a, size, true);
      PutFirst(m, t, []);
      assert [t] + [] == [t];
    }
  }

  // ----- Unaligned: as meant

  /** An unaligned block is placed as meant, in every hole it fits into. */
  lemma {:induction false} UnalignedPlaces(m: Bytes, index: seq<nat>, k: nat, cs: seq<Chunk>, start: nat, end: nat, i: nat, need: nat)
    requires Consistent(m, index, cs, start, end, multiset{}) && NoAdjacentHoles(cs) && 0 < start && end < ADDRESS_SPACE == |m|
    requires k < |index| && i < |cs| && cs[i].hole && cs[i].addr == index[k] && OVERHEAD <= need <= cs[i].size
    ensures Places(PlaceAsWritten(m, index, k, need, false, end), BlockSize(cs[i].size, need), start, end, Live(cs))
  {
    hide Tiles, Span, Holes, SortedIndex, Written, Word, Consistent, SoundWith, Live, Removed, SizeAt, PlaceAsWritten, NoAdjacentHoles;
    PlaceFacts(m, index, k, cs, start, end, i);
    TakenPlaces(m, index, k, cs, start, end, i, need);
  }

  /** The same when everything but the place of the hole's own entry is in order. */
  lemma {:induction false} TakenPlaces(m: Bytes, index: seq<nat>, k: nat, cs: seq<Chunk>, start: nat, end: nat, i: nat, need: nat)
    requires k < |index| && Consistent(m, Removed(index, k), cs, start, end, multiset{index[k]}) && NoAdjacentHoles(cs)
    requires 0 < start && end < ADDRESS_SPACE == |m|
    requires i < |cs| && cs[i].hole && cs[i].addr == index[k] && OVERHEAD <= need <= cs[i].size == SizeAt(m, index[k])
    ensures Places(PlaceAsWritten(m, index, k, need, false, end), BlockSize(cs[i].size, need), start, end, Live(cs))
  {
    hide Tiles, Span, Holes, SortedIndex, Written, Word, SameOutside, Consistent, SoundWith, Live, WithEntry, Removed, SizeAt, HoleIf, PutAll,
         Carved, PlaceAsWritten, Pieces, BySize, NoAdjacentHoles;
    var c, block, rest := cs[i], BlockSize(cs[i].size, need), Removed(index, k);
    Neighbours(m, rest, cs, start, end, multiset{index[k]}, i);
    UnalignedWrites(m, index, k, c, need, end);
    PiecesPut(m, c, 0, block);
    var (p, after, _) := PlaceAsWritten(m, index, k, need, false, end);
    CarvedConsistent(m, p, rest, cs, i, 0, block, start, end);
    TilesOf(m, rest, cs, start, end, multiset{index[k]});
    LiveCarved(cs, i, 0, block, start);
    NoFront(c.addr + block, c.size - block, c.addr);
    RestIn(p, rest, Carved(cs, i, 0, block), c.addr + block, c.size - block, start, end);
    CarvedNoAdjacent(cs, i, 0, block);
    SoundBy(p, after, Carved(cs, i, 0, block), start, end);
    NewIsNew(cs, Chunk(c.addr, block, false));
  }

  /** What the writes of an unaligned placement come to. */
  lemma {:induction false} UnalignedWrites(m: Bytes, index: seq<nat>, k: nat, c: Chunk, need: nat, end: nat)
    requires k < |index| && c.addr == index[k] && SizeAt(m, c.addr) == c.size && c.addr + c.size <= end < ADDRESS_SPACE == |m|
    requires OVERHEAD <= need <= c.size
    ensures var block := BlockSize(c.size, need);
            var (p, after, pos) := PlaceAsWritten(m, index, k, need, false, end);
            && p == PutAll(m, Pieces(c, 0, block)) && pos == c.addr
            && after == if c.size - block > 0 then WithEntry(Removed(index, k), c.addr + block, p) else Removed(index, k)
  {
    hide WithEntry, Removed, SizeAt, ReadWord, PutBlock, PutAll, HoleIf, BySize, BlockSize, BlockAsWritten, Pieces;
    Size32(m, c.addr, end);
    SmallSlack(c.size, need);
    PutBlockWrites(m, Removed(index, k), c.addr, c.size, BlockSize(c.size, need), end);
    Pieces0(c, BlockSize(c.size, need));
  }

  lemma Size32(m: Bytes, a: nat, end: nat)
    requires a + HEADER <= |m|
    ensures ReadWord(m, a + 8) == SizeAt(m, a)
  {
  }

  lemma SmallSlack(size: nat, need: nat)
    requires need <= size < ADDRESS_SPACE
    ensures BlockAsWritten(size, need) == BlockSize(size, need)
  {
  }

  lemma NewIsNew(cs: seq<Chunk>, c: Chunk)
    requires c !in cs
    ensures c !in Live(cs)
  {
  }

  lemma Pieces0(c: Chunk, size: nat)
    requires size <= c.size
    ensures Pieces(c, 0, size) == [Chunk(c.addr, size, false)] + HoleIf(c.addr + size, c.size - size)
  {
  }

  /** The pieces of a hole, all written. */
  lemma {:induction false} PiecesPut(m: Bytes, c: Chunk, gap: nat, size: nat)
    requires Clean(c, gap, size) && 0 < c.addr && c.addr + c.size <= |m| <= ADDRESS_SPACE
    ensures var p := PutAll(m, Pieces(c, gap, size));
            Written(p, Pieces(c, gap, size)) && SameOutside(m, p, c.addr, c.addr + c.size)
  {
    hide Word, ChunkAt, Pieces, SameOutside, PutAll;
    PiecesTile(c, gap, size);
    PiecesSpan(c, gap, size);
    PutAllWrites(m, Pieces(c, gap, size), c.addr);
  }

  /** The rest of the hole goes into the index if there is one. */
  lemma {:induction false} RestIn(p: Bytes, index: seq<nat>, cs: seq<Chunk>, back: nat, rest: nat, start: nat, end: nat)
    requires Consistent(p, index, cs, start, end, Holes(HoleIf(back, rest))) && (rest == 0 || OVERHEAD <= rest)
    ensures Consistent(p, if rest > 0 then WithEntry(index, back, p) else index, cs, start, end, multiset{})
  {
    HoleIfTiles(back, rest);
    hide Consistent, Holes, HoleIf, Inserted;
    if rest > 0 {
      assert multiset{} + multiset{back} == multiset{back};
      PutIn(p, index, back, cs, start, end, multiset{});
    }
  }

  lemma {:induction false} NoFront(back: nat, rest: nat, front: nat)
    ensures Holes(HoleIf(back, rest)) + Holes(HoleIf(front, 0)) == Holes(HoleIf(back, rest))
  {
    HoleIfTiles(front, 0);
  }

  // ----- Aligned

  /** The front gap as the text computes it, which may be negative. */
  function Front(pos: nat): int {
    PAGE - pos % PAGE - HEADER
  }

  /** When placing an aligned block into hole `i`, at position `k` of the index, does what is meant. */
  predicate AlignedWorks(m: Bytes, index: seq<nat>, k: nat, hole: Chunk, need: nat) {
    var front := Front(hole.addr);
    && OVERHEAD <= front
    && (front + need == hole.size || front + need + OVERHEAD <= hole.size)
    && InPlace(m, index, k, front)
  }

  /**
   An aligned block is placed as meant exactly when the front gap can hold a hole, the hole is used up
   or has room for one more, and the shrunk hole in front keeps its place in the index.
   */
  lemma {:induction false} AlignedExact(m: Bytes, index: seq<nat>, k: nat, cs: seq<Chunk>, start: nat, end: nat, i: nat, need: nat)
    requires Consistent(m, index, cs, start, end, multiset{}) && NoAdjacentHoles(cs) && PAGE <= start && end < ADDRESS_SPACE == |m|
    requires k < |index| && i < |cs| && cs[i].hole && cs[i].addr == index[k] && OVERHEAD <= need < ADDRESS_SPACE
    ensures Places(PlaceAsWritten(m, index, k, need, true, end), BlockAsWritten(cs[i].size, need), start, end, Live(cs))
            <==> AlignedWorks(m, index, k, cs[i], need)
  {
    hide Tiles, Span, Holes, SortedIndex, Written, Word, SameOutside, Consistent, SoundWith, Live, PlaceAsWritten, InPlace, NoAdjacentHoles,
         BlockAsWritten;
    var c, front := cs[i], Front(cs[i].addr);
    PlaceFacts(m, index, k, cs, start, end, i);
    Cut32(c.size, need, front);
    if OVERHEAD <= front && (front + need == c.size || front + need + OVERHEAD <= c.size) {
      AlignedOrder(m, index, k, cs, start, end, i, need);
    } else {
      var (p, after, pos) := PlaceAsWritten(m, index, k, need, true, end);
      var block := BlockAsWritten(c.size, need);
      if Places((p, after, pos), block, start, end, Live(cs)) {
        AlignedGeometry(m, index, k, cs, start, end, i, need);
      }
    }
  }

  lemma Cut32(size: nat, need: nat, front: int)
    requires size < ADDRESS_SPACE
    ensures OVERHEAD <= front && front + need <= size ==> BlockAsWritten(size, need) == need
  {
  }

  /** With the pieces edge to edge, only the order of the index can be wrong. */
  lemma {:induction false} AlignedOrder(m: Bytes, index: seq<nat>, k: nat, cs: seq<Chunk>, start: nat, end: nat, i: nat, need: nat)
    requires Consistent(m, index, cs, start, end, multiset{}) && NoAdjacentHoles(cs) && PAGE <= start && end < ADDRESS_SPACE == |m|
    requires k < |index| && i < |cs| && cs[i].hole && cs[i].addr == index[k] && OVERHEAD <= need
    requires var front := Front(cs[i].addr);
             OVERHEAD <= front && (front + need == cs[i].size || front + need + OVERHEAD <= cs[i].size)
    ensures Places(PlaceAsWritten(m, index, k, need, true, end), need, start, end, Live(cs)) <==> InPlace(m, index, k, Front(cs[i].addr))
  {
    hide Tiles, Span, Holes, SortedIndex, Written, Word, SameOutside, Consistent, SoundWith, Live, WithEntry, Removed, SizeAt, HoleIf, PutAll,
         Carved, PlaceAsWritten, InPlace, Pieces, Sound, NoAdjacentHoles;
    var c, front := cs[i], Front(cs[i].addr);
    var carved, rest := Carved(cs, i, front, need), c.size - front - need;
    var t := c.addr + front + need;
    PlaceFacts(m, index, k, cs, start, end, i);
    AlignedWrites(m, index, k, c, need, end);
    PiecesPut(m, c, front, need);
    var (p, after, _) := PlaceAsWritten(m, index, k, need, true, end);
    CarvedConsistent(m, p, Removed(index, k), cs, i, front, need, start, end);
    OthersKept(m, p, index, k, cs, start, end, i);
    TilesOf(m, index, cs, start, end, multiset{});
    LiveCarved(cs, i, front, need, start);
    NewIsNew(cs, Chunk(c.addr + front, need, false));
    FrontThere(cs, i, front, need);
    IndexSorted(m, index, cs, start, end, multiset{});
    AlignedIndex(m, p, index, k, carved, Chunk(c.addr, front, true), t, rest, start, end);
    CarvedNoAdjacent(cs, i, front, need);
    if InPlace(m, index, k, front) {
      SoundBy(p, after, carved, start, end);
    }
    if SoundWith(p, after, start, end, Live(cs) + {Chunk(c.addr + front, need, false)}) {
      SoundAtAll(p, after, start, end, Live(cs) + {Chunk(c.addr + front, need, false)});
      SortedIfSound(p, after, start, end);
    }
  }

  lemma {:induction false} FrontThere(cs: seq<Chunk>, i: nat, gap: nat, size: nat)
    requires i < |cs| && gap + size <= cs[i].size && gap > 0
    ensures Chunk(cs[i].addr, gap, true) in Carved(cs, i, gap, size)
  {
    assert Carved(cs, i, gap, size)[i] == Chunk(cs[i].addr, gap, true);
  }

  /** The two orders, before and after the rest has been inserted. */
  lemma {:induction false} AlignedIndex(m: Bytes, p: Bytes, index: seq<nat>, k: nat, cs: seq<Chunk>, front: Chunk, t: nat, rest: nat,
                                        start: nat, end: nat)
    requires k < |index| && SortedIndex(m, index) && front in cs && front.hole && front.addr == index[k] && OVERHEAD <= front.size
    requires rest == 0 || OVERHEAD <= rest
    requires Consistent(p, Removed(index, k), cs, start, end, Holes(HoleIf(t, rest)) + Holes(HoleIf(front.addr, front.size)))
    requires forall a :: a in Removed(index, k) ==> SizeAt(p, a) == SizeAt(m, a)
    ensures var after := if rest > 0 then WithEntry(index, t, p) else index;
            && (SortedIndex(p, after) ==> InPlace(m, index, k, front.size))
            && (InPlace(m, index, k, front.size) ==> Consistent(p, after, cs, start, end, multiset{}))
  {
    hide Holes, HoleIf, Word, Consistent, SortedIndex, InPlace, WithEntry, SizeAt, Tiles, Span, Removed;
    HoleIfTiles(front.addr, front.size);
    BackIn(m, p, index, k, cs, front, start, end, Holes(HoleIf(t, rest)));
    if SortedIndex(p, index) {
      RestIn(p, index, cs, t, rest, start, end);
    }
    if rest > 0 && SortedIndex(p, WithEntry(index, t, p)) {
      SortedBefore(p, index, t);
    }
  }

  /** A list that is sorted after an insertion was sorted before. */
  lemma SortedBefore(p: Bytes, index: seq<nat>, t: nat)
    requires SortedIndex(p, WithEntry(index, t, p))
    ensures SortedIndex(p, index)
  {
    hide InsertPoint;
    var after, k := WithEntry(index, t, p), InsertPoint<nat>(index, t, BySize(p));
    InsertThenRemove<nat>(index, t, BySize(p));
    hide Inserted;
    assert Removed(after, k) == index && |after| == |index| + 1 by {
      InsertedLength(index, t, p);
    }
    RemoveSorts<nat>(after, k, BySize(p));
  }

  lemma InsertedLength(s: seq<nat>, t: nat, m: Bytes)
    ensures |WithEntry(s, t, m)| == |s| + 1
  {
  }

  /** All other entries keep their sizes. */
  lemma {:induction false} OthersKept(m: Bytes, p: Bytes, index: seq<nat>, k: nat, cs: seq<Chunk>, start: nat, end: nat, i: nat)
    requires Consistent(m, index, cs, start, end, multiset{}) && k < |index| && i < |cs| && cs[i].addr == index[k]
    requires SameOutside(m, p, cs[i].addr, cs[i].addr + cs[i].size)
    ensures forall a :: a in Removed(index, k) ==> SizeAt(p, a) == SizeAt(m, a)
  {
    hide Word, SameOutside, SortedIndex, Tiles, Span, Holes;
    var rest := Removed(index, k);
    forall a | a in rest ensures SizeAt(p, a) == SizeAt(m, a) {
      var r :| 0 <= r < |rest| && rest[r] == a;
      var j := if r < k then r else r + 1;
      EntryOnce(m, index, cs, start, end, j, k);
      Indexed(m, index, cs, start, end, multiset{}, j);
      var d := cs[Find(cs, a)];
      Disjoint(cs, start, d, cs[i]);
      ChunkFrame(m, p, d, cs[i].addr, cs[i].addr + cs[i].size);
    }
  }

  /** What the writes of an aligned placement come to when the pieces fit. */
  lemma {:induction false} AlignedWrites(m: Bytes, index: seq<nat>, k: nat, c: Chunk, need: nat, end: nat)
    requires k < |index| && c.addr == index[k] && SizeAt(m, c.addr) == c.size && PAGE <= c.addr && c.addr + c.size <= end < ADDRESS_SPACE == |m|
    requires var front := Front(c.addr);
             OVERHEAD <= front && OVERHEAD <= need && (front + need == c.size || front + need + OVERHEAD <= c.size)
    ensures var front := Front(c.addr);
            var (p, after, pos) := PlaceAsWritten(m, index, k, need, true, end);
            var rest := c.size - front - need;
            && p == PutAll(m, Pieces(c, front, need)) && pos == c.addr + front
            && after == if rest > 0 then WithEntry(index, c.addr + front + need, p) else index
  {
    hide PutHeader, PutFooter, WithEntry, W32, PutBlock, SizeAt, ReadWord, BlockAsWritten;
    var front := Front(c.addr);
    var first := Chunk(c.addr, front, true);
    Size32(m, c.addr, end);
    Cut32(c.size, need, front);
    PutChunkWrites(m, first);
    var n := PutChunk(m, first);
    FrontHeader(m, c.addr, front);
    Size32(n, c.addr, end);
    PutBlockWrites(n, index, c.addr + front, c.size - front, need, end);
    PutFirst(m, first, [Chunk(c.addr + front, need, false)] + HoleIf(c.addr + front + need, c.size - front - need));
    PiecesFrom(c, front, need);
  }

  lemma PiecesFrom(c: Chunk, gap: nat, size: nat)
    requires 0 < gap && gap + size <= c.size
    ensures Pieces(c, gap, size)
            == [Chunk(c.addr, gap, true)] + ([Chunk(c.addr + gap, size, false)] + HoleIf(c.addr + gap + size, c.size - gap - size))
  {
  }

  // Why nothing else can work: whatever heap there is holds the front hole, the new block and its neighbours.

  lemma WriteAbove(m: Bytes, a: int, v: nat, lo: nat)
    requires lo <= a
    ensures SameOutside(m, Write(m, a, v), lo, |m|)
  {
  }

  lemma HeaderAbove(m: Bytes, a: int, size: nat, hole: bool, lo: nat)
    requires lo <= a
    ensures SameOutside(m, PutHeader(m, a, size, hole), lo, |m|)
  {
    hide Write;
    var n := Write(m, a, MAGIC);
    var o := WriteByte(n, a + 4, if hole then 1 else 0);
    WriteAbove(m, a, MAGIC, lo);
    WriteAbove(o, a + 8, size, lo);
  }

  lemma FooterAbove(m: Bytes, f: int, header: nat, lo: nat)
    requires lo <= f
    ensures SameOutside(m, PutFooter(m, f, header), lo, |m|)
  {
    hide Write;
    WriteAbove(m, f, MAGIC, lo);
    WriteAbove(Write(m, f, MAGIC), f + 4, header, lo);
  }

  lemma Above(m: Bytes, n: Bytes, o: Bytes, lo: nat)
    requires SameOutside(m, n, lo, |m|) && SameOutside(n, o, lo, |n|)
    ensures SameOutside(m, o, lo, |m|)
  {
  }

  /** Placing the block writes nothing below the end of the front hole's header. */
  lemma BlockAbove(m: Bytes, index: seq<nat>, pos: nat, room: int, block: nat, end: nat, lo: nat)
    requires lo + FOOTER <= pos && OVERHEAD <= block && pos + block <= end < ADDRESS_SPACE
    requires lo + FOOTER <= pos + room <= end
    ensures var (p, after) := PutBlock(m, index, pos, room, block, end);
            && SameOutside(m, p, lo, |m|)
            && after == if W32(room - block) > 0 then WithEntry(index, pos + block, p) else index
  {
    hide PutHeader, PutFooter, SameOutside, WithEntry;
    var n := PutHeader(m, pos, block, false);
    HeaderAbove(m, pos, block, false, lo);
    var q := PutFooter(n, pos + block - FOOTER, pos);
    FooterAbove(n, pos + block - FOOTER, pos, lo);
    Above(m, n, q, lo);
    var rest := W32(room - block);
    if rest > 0 {
      var t := pos + block;
      var o := PutHeader(q, t, rest, true);
      HeaderAbove(q, t, rest, true, lo);
      Above(m, q, o, lo);
      TailEnd(pos, room, block);
      var f := W32(t + rest - FOOTER);
      FooterAbove(o, f, t, lo);
      Above(m, o, PutFooter(o, f, t), lo);
    }
  }

  /** However the size of the rest wraps, its footer comes to lie at the end of the hole. */
  lemma TailEnd(pos: nat, room: int, block: nat)
    requires FOOTER <= pos + room < ADDRESS_SPACE && pos + block < ADDRESS_SPACE
    ensures W32(pos + block + W32(room - block) - FOOTER) == pos + room - FOOTER
  {
  }

  lemma FrontHeader(m: Bytes, pos: nat, front: nat)
    requires pos + HEADER <= |m| && OVERHEAD <= front < ADDRESS_SPACE
    ensures SizeAt(PutFooter(PutHeader(m, pos, front, true), pos + front - FOOTER, pos), pos) == front
    ensures |PutFooter(PutHeader(m, pos, front, true), pos + front - FOOTER, pos)| == |m|
  {
    hide PutHeader, PutFooter, Word, FooterAt;
    var n := PutHeader(m, pos, front, true);
    PutHeaderWrites(m, pos, front, true);
    FooterAbove(n, pos + front - FOOTER, pos, pos + HEADER);
    SizeFrame(n, PutFooter(n, pos + front - FOOTER, pos), pos, pos + HEADER, |m|);
  }

  /** What an aligned placement leaves in the front header, and which entries there are. */
  lemma {:induction false} AlignedFront(m: Bytes, index: seq<nat>, k: nat, c: Chunk, need: nat, end: nat)
    requires k < |index| && c.addr == index[k] && SizeAt(m, c.addr) == c.size && PAGE <= c.addr && OVERHEAD <= c.size
    requires c.addr + c.size <= end < ADDRESS_SPACE == |m|
    requires var front := Front(c.addr);
             var block := BlockAsWritten(c.size, need);
             OVERHEAD <= front && OVERHEAD <= block && c.addr + front + block <= end
    ensures var front, block := Front(c.addr), BlockAsWritten(c.size, need);
            var (p, after, pos) := PlaceAsWritten(m, index, k, need, true, end);
            && pos == c.addr + front && SizeAt(p, c.addr) == front
            && after == if W32(c.size - front - block) > 0 then WithEntry(index, pos + block, p) else index
  {
    hide PutHeader, PutFooter, WithEntry, PutBlock, SizeAt, ReadWord, BlockAsWritten, SameOutside;
    var front, block := Front(c.addr), BlockAsWritten(c.size, need);
    Size32(m, c.addr, end);
    FrontHeader(m, c.addr, front);
    var n := PutFooter(PutHeader(m, c.addr, front, true), c.addr + front - FOOTER, c.addr);
    Size32(n, c.addr, end);
    BlockAbove(n, index, c.addr + front, c.size - front, block, end, c.addr + HEADER);
    var p := PlaceAsWritten(m, index, k, need, true, end).0;
    SizeFrame(n, p, c.addr, c.addr + HEADER, |n|);
  }

  lemma EntryStays(s: seq<nat>, t: nat, m: Bytes, a: nat)
    ensures a in s ==> a in WithEntry(s, t, m)
    ensures t in WithEntry(s, t, m)
  {
    hide InsertPoint;
    var k := InsertPoint<nat>(s, t, BySize(m));
    assert s == s[..k] + s[k..];
    assert WithEntry(s, t, m)[k] == t;
  }

  lemma PutBlockEntries(m: Bytes, index: seq<nat>, pos: nat, room: int, block: nat, end: nat, a: nat)
    requires a in index
    ensures a in PutBlock(m, index, pos, room, block, end).1
  {
    hide WithEntry, PutHeader, PutFooter, W32;
    var n := PutFooter(PutHeader(m, pos, block, false), W32(pos + block - FOOTER), pos);
    var rest := W32(room - block);
    if rest > 0 {
      var p := PutBlock(m, index, pos, room, block, end).0;
      EntryStays(index, W32(pos + block), p, a);
    }
  }

  lemma FrontEntry(m: Bytes, index: seq<nat>, k: nat, need: nat, end: nat)
    requires k < |index| && PAGE <= index[k]
    ensures var (_, after, pos) := PlaceAsWritten(m, index, k, need, true, end);
            index[k] in after && pos == index[k] + Front(index[k])
  {
    hide PutBlock, PutHeader, PutFooter;
    var pos, size := index[k], ReadWord(m, index[k] + 8);
    var front := Front(pos);
    var n := PutFooter(PutHeader(m, pos, W32(front), true), pos + front - FOOTER, pos);
    PutBlockEntries(n, index, pos + front, size - ReadWord(n, pos + 8), BlockAsWritten(size, need), end, pos);
  }

  /** Two chunks of a heap, a hole that the index names and a live block, lie apart. */
  lemma {:induction false} HoleAndBlock(p: Bytes, index: seq<nat>, x: seq<Chunk>, start: nat, end: nat, live: set<Chunk>, h: nat, b: Chunk)
    requires IsHeap(p, index, x, start, end, live) && h in index && b in live
    ensures OVERHEAD <= SizeAt(p, h) && h + SizeAt(p, h) <= end && OVERHEAD <= b.size && b.addr + b.size <= end
    ensures h + SizeAt(p, h) <= b.addr || b.addr + b.size <= h
  {
    hide Word, SortedIndex, Tiles, Span, Written;
    assert h in multiset(index) + multiset{};
    HolesAreChunks(x, h);
    var c :| c in x && c.hole && c.addr == h;
    HoleThereSize(p, index, x, start, end, c);
    assert b in Live(x);
    Within(x, start, b);
    Within(x, start, c);
    Disjoint(x, start, c, b);
  }

  lemma HoleThereSize(m: Bytes, index: seq<nat>, cs: seq<Chunk>, start: nat, end: nat, c: Chunk)
    requires Consistent(m, index, cs, start, end, multiset{}) && c in cs
    ensures SizeAt(m, c.addr) == c.size
  {
    hide Word, SortedIndex, Tiles, Span;
    HoleSize(m, c);
  }

  lemma {:induction false} TwoBlocks(p: Bytes, index: seq<nat>, x: seq<Chunk>, start: nat, end: nat, live: set<Chunk>, b: Chunk, c: Chunk)
    requires IsHeap(p, index, x, start, end, live) && b in live && c in live && b != c
    ensures b.addr + b.size <= c.addr || c.addr + c.size <= b.addr
  {
    hide Word, SortedIndex, Written;
    assert b in Live(x) && c in Live(x);
    Disjoint(x, start, b, c);
  }

  /** A heap with the new block and all old ones has the pieces edge to edge. */
  lemma {:induction false} AlignedGeometry(m: Bytes, index: seq<nat>, k: nat, cs: seq<Chunk>, start: nat, end: nat, i: nat, need: nat)
    requires Consistent(m, index, cs, start, end, multiset{}) && NoAdjacentHoles(cs) && PAGE <= start && end < ADDRESS_SPACE == |m|
    requires k < |index| && i < |cs| && cs[i].hole && cs[i].addr == index[k] && OVERHEAD <= need < ADDRESS_SPACE
    requires Places(PlaceAsWritten(m, index, k, need, true, end), BlockAsWritten(cs[i].size, need), start, end, Live(cs))
    ensures var front := Front(cs[i].addr);
            OVERHEAD <= front && (front + need == cs[i].size || front + need + OVERHEAD <= cs[i].size)
  {
    hide Tiles, Span, Holes, SortedIndex, Written, Word, Consistent, PlaceAsWritten, NoAdjacentHoles, SizeAt, Live, BlockAsWritten, IsHeap, W32;
    var c, front, block := cs[i], Front(cs[i].addr), BlockAsWritten(cs[i].size, need);
    var (p, after, pos) := PlaceAsWritten(m, index, k, need, true, end);
    var new' := Chunk(pos, block, false);
    var live := Live(cs) + {new'};
    var x :| IsHeap(p, after, x, start, end, live);
    PlaceFacts(m, index, k, cs, start, end, i);
    FrontEntry(m, index, k, need, end);
    HoleAndBlock(p, after, x, start, end, live, c.addr, new');
    assert OVERHEAD <= front;
    AlignedFront(m, index, k, c, need, end);
    var rest := W32(c.size - front - block);
    if rest > 0 {
      EntryStays(index, pos + block, p, c.addr);
    }
    NextLive(m, index, cs, start, end, i);
    if i + 1 < |cs| {
      HoleAndBlock(p, after, x, start, end, live, c.addr, cs[i + 1]);
      TwoBlocks(p, after, x, start, end, live, new', cs[i + 1]);
      if rest > 0 {
        HoleAndBlock(p, after, x, start, end, live, pos + block, cs[i + 1]);
      }
    } else if rest > 0 {
      HoleAndBlock(p, after, x, start, end, live, pos + block, new');
    }
    assert front + block <= c.size;
    BlockIs(c.size, need, front);
  }

  lemma BlockIs(size: nat, need: nat, front: nat)
    requires size < ADDRESS_SPACE && need < ADDRESS_SPACE && OVERHEAD <= front && front + BlockAsWritten(size, need) <= size
    ensures BlockAsWritten(size, need) == need
  {
  }

  lemma {:induction false} NextLive(m: Bytes, index: seq<nat>, cs: seq<Chunk>, start: nat, end: nat, i: nat)
    requires Consistent(m, index, cs, start, end, multiset{}) && NoAdjacentHoles(cs) && i < |cs| && cs[i].hole
    ensures if i + 1 < |cs| then cs[i + 1] in Live(cs) && cs[i + 1].addr == cs[i].addr + cs[i].size && OVERHEAD <= cs[i + 1].size
            else cs[i].addr + cs[i].size == end
  {
    hide Word, Written, SortedIndex, Holes, Span;
    Neighbours(m, index, cs, start, end, multiset{}, i);
    if i + 1 < |cs| {
      HoleNeighbours(cs, i);
      Within(cs, start, cs[i + 1]);
    }
  }

  // ----- A hole whose shrunk front loses its place

  const SAMPLE: seq<Chunk> := [Chunk(0x2000, 0x100, true), Chunk(0x2100, 0xEC0, false), Chunk(0x2FC0, 0x3000, true), Chunk(0x5FC0, 0x40, false)]

  /** The parts fit edge to edge, but the front hole of 52 bytes stays behind one of 0x100. */
  lemma {:induction false} PlaceFails()
    ensures var m, index := PutAll(Blank(), SAMPLE), [0x2000, 0x2FC0];
            && Consistent(m, index, SAMPLE, 0x2000, 0x6000, multiset{}) && NoAdjacentHoles(SAMPLE)
            && Front(0x2FC0) == 52 && 52 + 0x200 + OVERHEAD <= 0x3000
            && !Places(PlaceAsWritten(m, index, 1, 0x200, true, 0x6000), BlockAsWritten(0x3000, 0x200), 0x2000, 0x6000, Live(SAMPLE))
  {
    hide Tiles, Span, Holes, NoAdjacentHoles, PutAll, Word, ChunkAt, SameOutside, Live, PlaceAsWritten, Places, BlockAsWritten, SizeAt;
    var m, index := PutAll(Blank(), SAMPLE), [0x2000, 0x2FC0];
    SampleTiles();
    PutAllWrites(Blank(), SAMPLE, 0x2000);
    SampleSizes(m);
    assert |m| == ADDRESS_SPACE;
    AlignedExact(m, index, 1, SAMPLE, 0x2000, 0x6000, 2, 0x200);
  }

  lemma {:induction false} SampleTiles()
    ensures Tiles(SAMPLE, 0x2000) && Span(SAMPLE) == 0x4000 && Holes(SAMPLE) == multiset{0x2000, 0x2FC0} && NoAdjacentHoles(SAMPLE)
  {
    var a, b, c, d := [SAMPLE[0]], [SAMPLE[1]], [SAMPLE[2]], [SAMPLE[3]];
    One(SAMPLE[0]);
    One(SAMPLE[1]);
    One(SAMPLE[2]);
    One(SAMPLE[3]);
    hide Tiles, Span, Holes, NoAdjacentHoles;
    assert SAMPLE == a + b + (c + d);
    SpanConcat(c, d);
    HolesConcat(c, d);
    TilesConcat(c, d, 0x2FC0);
    NoAdjacentConcat(c, d);
    SpliceTiles(a, b, c + d, 0x2000);
    SpliceHoles(a, b, c + d);
    NoAdjacentConcat(a, b);
    NoAdjacentConcat(a + b, c + d);
  }

  lemma {:induction false} SampleSizes(m: Bytes)
    requires Written(m, SAMPLE)
    ensures var index := [0x2000, 0x2FC0];
            && SizeAt(m, 0x2000) == 0x100 && SizeAt(m, 0x2FC0) == 0x3000 && SortedIndex(m, index) && !InPlace(m, index, 1, 52)
            && multiset(index) + multiset{} == multiset{0x2000, 0x2FC0}
  {
    hide Word, FooterAt;
    assert ChunkAt(m, SAMPLE[0]) && ChunkAt(m, SAMPLE[2]);
  }
}
