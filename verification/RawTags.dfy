/**
 Tags read and written without any check, as the kernel does it, and what makes memory, index and
 extent a heap.  The models of the code as it is written build on this.
 */
module RawTags {
  import opened Memory
  import opened OrderedLists
  import opened BoundaryTags
  import opened HeapSteps

  function ReadWord(m: Bytes, a: int): (w: nat)
    ensures w < ADDRESS_SPACE
  {
    if 0 <= a && a + 4 <= |m| then Word(m, a) else 0
  }

  function ReadByte(m: Bytes, a: int): int {
    if 0 <= a < |m| then m[a] else 0
  }

  function Write(m: Bytes, a: int, v: nat): Bytes {
    if 0 <= a && a + 4 <= |m| then PutWord(m, a, W32(v)) else m
  }

  /** The first position of `a`, or the length. */
  function Search(index: seq<nat>, a: nat): (k: nat)
    ensures k <= |index| && (k < |index| ==> index[k] == a)
    ensures a in index ==> k < |index| && index[k] == a
  {
    if index == [] || index[0] == a then 0 else 1 + Search(index[1..], a)
  }

  /** Some tiling makes the tags and the index a heap without anything missing. */
  ghost predicate Sound(m: Bytes, index: seq<nat>, start: nat, end: nat) {
    exists cs :: Consistent(m, index, cs, start, end, multiset{})
  }

  /** The same with exactly these blocks live and no two holes adjacent. */
  ghost predicate SoundWith(m: Bytes, index: seq<nat>, start: nat, end: nat, live: set<Chunk>) {
    exists cs :: IsHeap(m, index, cs, start, end, live)
  }

  ghost predicate IsHeap(m: Bytes, index: seq<nat>, cs: seq<Chunk>, start: nat, end: nat, live: set<Chunk>) {
    Consistent(m, index, cs, start, end, multiset{}) && NoAdjacentHoles(cs) && Live(cs) == live
  }

  lemma SoundAtAll(m: Bytes, index: seq<nat>, start: nat, end: nat, live: set<Chunk>)
    requires SoundWith(m, index, start, end, live)
    ensures Sound(m, index, start, end)
  {
    var cs :| IsHeap(m, index, cs, start, end, live);
    assert Consistent(m, index, cs, start, end, multiset{});
  }

  lemma SoundBy(m: Bytes, index: seq<nat>, cs: seq<Chunk>, start: nat, end: nat)
    requires Consistent(m, index, cs, start, end, multiset{}) && NoAdjacentHoles(cs)
    ensures SoundWith(m, index, start, end, Live(cs))
  {
    assert IsHeap(m, index, cs, start, end, Live(cs));
  }

  /** A hole that the index names is a chunk of any heap, with the size its header tells. */
  lemma {:induction false} HoleThere(m: Bytes, index: seq<nat>, cs: seq<Chunk>, start: nat, end: nat, c: Chunk)
    requires Consistent(m, index, cs, start, end, multiset{}) && c.addr in index && c.hole && SizeAt(m, c.addr) == c.size
    ensures c in cs
  {
    hide Word, SortedIndex;
    assert c.addr in multiset(index) + multiset{};
    HolesAreChunks(cs, c.addr);
    var d :| d in cs && d.hole && d.addr == c.addr;
    HoleSize(m, d);
  }

  lemma HoleSize(m: Bytes, c: Chunk)
    requires ChunkAt(m, c)
    ensures SizeAt(m, c.addr) == c.size
  {
  }

  /** The entry at `k` can take this size without leaving its place. */
  predicate InPlace(m: Bytes, index: seq<nat>, k: nat, size: nat) {
    && (0 < k <= |index| ==> SizeAt(m, index[k - 1]) <= size)
    && (k + 1 < |index| ==> size <= SizeAt(m, index[k + 1]))
  }

  function WriteByte(m: Bytes, a: int, v: byte): Bytes {
    if 0 <= a < |m| then m[a := v] else m
  }

  function PutHeader(m: Bytes, a: int, size: nat, hole: bool): Bytes {
    Write(WriteByte(Write(m, a, MAGIC), a + 4, if hole then 1 else 0), a + 8, size)
  }

  function PutFooter(m: Bytes, f: int, header: nat): Bytes {
    Write(Write(m, f, MAGIC), f + 4, header)
  }

  lemma PutHeaderWrites(m: Bytes, a: nat, size: nat, hole: bool)
    requires a + HEADER <= |m| && size < ADDRESS_SPACE
    ensures var n := PutHeader(m, a, size, hole); HeaderAt(n, a, size, hole) && SameOutside(m, n, a, a + HEADER)
  {
  }

  lemma PutFooterWrites(m: Bytes, f: nat, header: nat)
    requires f + FOOTER <= |m| && header < ADDRESS_SPACE
    ensures var n := PutFooter(m, f, header); FooterAt(n, f, header) && SameOutside(m, n, f, f + FOOTER)
  {
    hide Word, SameOutside, Write;
    var n := Write(m, f, MAGIC);
    WriteFacts(m, f, MAGIC);
    WriteFacts(n, f + 4, header);
    WordFrame(n, PutFooter(m, f, header), f, f + 4, f + 8);
    TwoWords(PutFooter(m, f, header), f, header);
    Compose(m, n, PutFooter(m, f, header), f, f + 4, f + 4, f + 8, f, f + 8);
  }

  lemma WriteFacts(m: Bytes, a: nat, v: nat)
    requires a + 4 <= |m| && v < ADDRESS_SPACE
    ensures var n := Write(m, a, v); |n| == |m| && Word(n, a) == v && SameOutside(m, n, a, a + 4)
  {
  }

  /** A footer made to point at another header. */
  lemma FooterWrite(m: Bytes, f: nat, old': nat, header: nat)
    requires FooterAt(m, f, old') && header < ADDRESS_SPACE
    ensures var n := Write(m, f + 4, header); FooterAt(n, f, header) && SameOutside(m, n, f, f + FOOTER)
  {
    WriteFacts(m, f + 4, header);
    WordFrame(m, Write(m, f + 4, header), f, f + 4, f + 8);
  }

  /** A header's size field replaced. */
  lemma SizeWrite(m: Bytes, a: nat, old': nat, size: nat)
    requires HeaderAt(m, a, old', true) && size < ADDRESS_SPACE
    ensures var n := Write(m, a + 8, size); HeaderAt(n, a, size, true) && SameOutside(m, n, a, a + HEADER)
  {
    WriteFacts(m, a + 8, size);
    WordFrame(m, Write(m, a + 8, size), a, a + 8, a + 12);
  }

  /** A header's size and a whole footer written make a chunk. */
  lemma SizeAndFooter(o: Bytes, h: nat, old': nat, size: nat)
    requires HeaderAt(o, h, old', true) && OVERHEAD <= size && h + size <= |o| && h + size < ADDRESS_SPACE
    ensures var p := PutFooter(Write(o, h + 8, size), h + size - FOOTER, h);
            ChunkAt(p, Chunk(h, size, true)) && SameOutside(o, p, h, h + size)
  {
    hide Write, PutFooter, Word, SameOutside, HeaderAt, FooterAt;
    var n, f := Write(o, h + 8, size), h + size - FOOTER;
    WriteFacts(o, h + 8, size);
    SizeWrite(o, h, old', size);
    PutFooterWrites(n, f, h);
    HeaderFrame(n, PutFooter(n, f, h), h, size, true, f, f + FOOTER);
    Compose(o, n, PutFooter(n, f, h), h, h + HEADER, f, f + FOOTER, h, h + size);
  }

  /** Tags outside the changed range stay. */
  lemma HeaderFrame(m: Bytes, n: Bytes, a: nat, size: nat, hole: bool, lo: nat, hi: nat)
    requires HeaderAt(m, a, size, hole) && SameOutside(m, n, lo, hi) && (a + HEADER <= lo || hi <= a)
    ensures HeaderAt(n, a, size, hole)
  {
  }

  lemma FooterFrame(m: Bytes, n: Bytes, f: nat, header: nat, lo: nat, hi: nat)
    requires FooterAt(m, f, header) && SameOutside(m, n, lo, hi) && (f + FOOTER <= lo || hi <= f)
    ensures FooterAt(n, f, header)
  {
  }

  lemma HeaderSize(m: Bytes, a: nat, size: nat, hole: bool)
    requires HeaderAt(m, a, size, hole)
    ensures ReadWord(m, a + 8) == size == SizeAt(m, a) && ReadWord(m, a) == MAGIC
    ensures ReadByte(m, a + 4) == if hole then 1 else 0
  {
  }

  lemma FooterReads(m: Bytes, f: nat, header: nat)
    requires FooterAt(m, f, header)
    ensures ReadWord(m, f) == MAGIC && ReadWord(m, f + 4) == header
  {
  }

  lemma {:induction false} BlockTags(m: Bytes, index: seq<nat>, cs: seq<Chunk>, start: nat, end: nat, i: nat)
    requires Consistent(m, index, cs, start, end, multiset{}) && i < |cs|
    ensures ChunkAt(m, cs[i])
  {
    assert cs[i] in cs;
  }

  /** One key changed: the list stays sorted exactly when the entry keeps its place. */
  lemma {:induction false} SortedMove(m: Bytes, n: Bytes, index: seq<nat>, k: nat)
    requires SortedIndex(m, index) && k < |index|
    requires forall j :: 0 <= j < |index| && j != k ==> SizeAt(n, index[j]) == SizeAt(m, index[j])
    ensures SortedIndex(n, index) <==> InPlace(m, index, k, SizeAt(n, index[k]))
  {
    if InPlace(m, index, k, SizeAt(n, index[k])) {
      forall i, j | 0 <= i < j < |index| ensures !BySize(n)(index[j], index[i]) {
        assert !BySize(m)(index[j], index[i]);
        if i == k && k + 1 < j {
          assert !BySize(m)(index[j], index[k + 1]);
        }
        if j == k && i < k - 1 {
          assert !BySize(m)(index[k - 1], index[i]);
        }
      }
    } else if 0 < k && SizeAt(n, index[k]) < SizeAt(m, index[k - 1]) {
      assert BySize(n)(index[k], index[k - 1]);
    } else {
      assert BySize(n)(index[k + 1], index[k]);
    }
  }

  lemma SearchFinds(index: seq<nat>, a: nat)
    requires a in index
    ensures Search(index, a) < |index| && index[Search(index, a)] == a
  {
  }

  lemma OneWritten(n: Bytes, c: Chunk)
    requires ChunkAt(n, c)
    ensures Written(n, [c])
  {
  }

  /** No hole is indexed twice. */
  lemma {:induction false} EntryOnce(m: Bytes, index: seq<nat>, cs: seq<Chunk>, start: nat, end: nat, j: nat, k: nat)
    requires Consistent(m, index, cs, start, end, multiset{}) && j < |index| && k < |index| && j != k
    ensures index[j] != index[k]
  {
    if index[j] == index[k] {
      hide Word, Written, SortedIndex, Tiles, Span, Holes;
      Twice(index, j, k);
      HolesOnce(cs, start, index[k]);
    }
  }

  lemma Twice(index: seq<nat>, j: nat, k: nat)
    requires j < |index| && k < |index| && j != k && index[j] == index[k]
    ensures multiset(index)[index[k]] >= 2
  {
    var lo, hi := if j < k then j else k, if j < k then k else j;
    assert index == index[..hi] + index[hi..];
    assert index[..hi][lo] == index[k] && index[hi..][0] == index[k];
    assert index[k] in multiset(index[..hi]) && index[k] in multiset(index[hi..]);
  }

  lemma TwoWords(m: Bytes, f: nat, header: nat)
    requires f + FOOTER <= |m| && Word(m, f) == MAGIC && Word(m, f + 4) == header
    ensures FooterAt(m, f, header)
  {
  }

  /** A tiling that follows the same headers and is longer starts with the same chunks. */
  lemma {:induction false} PrefixWalk(m: Bytes, x: seq<Chunk>, y: seq<Chunk>, a: nat)
    requires Tiles(x, a) && Tiles(y, a) && Span(y) <= Span(x)
    requires forall c :: c in x ==> HeaderAt(m, c.addr, c.size, c.hole)
    requires forall c :: c in y ==> HeaderAt(m, c.addr, c.size, c.hole)
    ensures |y| <= |x| && x[..|y|] == y
  {
    if y != [] {
      assert x[0] in x && y[0] in y;
      PrefixWalk(m, x[1..], y[1..], a + x[0].size);
      assert x == [x[0]] + x[1..] && y == [y[0]] + y[1..];
    }
  }

  lemma GoesIn(s: seq<nat>, item: nat, less: (nat, nat) -> bool)
    ensures item in Inserted(s, item, less)
  {
    hide InsertPoint;
    assert Inserted(s, item, less)[InsertPoint(s, item, less)] == item;
  }

  /** The last chunks rewritten as one hole up to the new end, while they are out of the index. */
  lemma {:induction false} TailRewritten(m: Bytes, p: Bytes, index: seq<nat>, cs: seq<Chunk>, lo: nat, start: nat, end: nat, newEnd: nat, hi: nat)
    requires lo < |cs| && Consistent(m, index, cs, start, end, Holes(cs[lo..]))
    requires var h := cs[lo].addr; h + OVERHEAD <= newEnd && ChunkAt(p, Chunk(h, newEnd - h, true)) && SameOutside(m, p, h, hi)
    ensures cs[lo].addr == start + Span(cs[..lo])
    ensures var hole := Chunk(cs[lo].addr, newEnd - cs[lo].addr, true);
            Consistent(p, index, cs[..lo] + [hole], start, newEnd, multiset{hole.addr})
    ensures Live(cs[..lo] + [Chunk(cs[lo].addr, newEnd - cs[lo].addr, true)]) == Live(cs[..lo])
    ensures forall a :: a in index ==> SizeAt(p, a) == SizeAt(m, a)
  {
    hide Word, ChunkAt, Tiles, Span, Holes, SameOutside, SortedIndex;
    var l, mid, hole := cs[..lo], cs[lo..], Chunk(cs[lo].addr, newEnd - cs[lo].addr, true);
    SplitAt(cs, lo, |cs|, start);
    assert cs == l + mid + [] && cs[lo..|cs|] == mid && cs[|cs|..] == [];
    One(hole);
    Rewrite(m, p, index, l, mid, [hole], [], start, end, hi);
    SpanConcat(l, [hole]);
    assert l + [hole] + [] == l + [hole];
    SpliceTiles(l, mid, [], start);
    WrittenConcat(m, l, mid, []);
    Frame(m, p, l, start, hole.addr, hi);
    SpliceHoles(l, mid, []);
    EntriesIn(m, p, index, l, Holes(mid));
  }

  lemma {:induction false} EntriesIn(m: Bytes, p: Bytes, index: seq<nat>, l: seq<Chunk>, mid: multiset<nat>)
    requires multiset(index) + mid == Holes(l) + mid + Holes([])
    requires forall c :: c in l ==> SizeAt(p, c.addr) == SizeAt(m, c.addr)
    ensures forall a :: a in index ==> SizeAt(p, a) == SizeAt(m, a)
  {
    hide SizeAt;
    Cancel(multiset(index), Holes(l), mid, Holes([]));
    forall a | a in index ensures SizeAt(p, a) == SizeAt(m, a) {
      assert a in multiset(index);
      HolesAreChunks(l, a);
    }
  }

  lemma TilesOf(m: Bytes, index: seq<nat>, cs: seq<Chunk>, start: nat, end: nat, out: multiset<nat>)
    requires Consistent(m, index, cs, start, end, out)
    ensures Tiles(cs, start) && start + Span(cs) == end
  {
  }

  /** A hole of the tiling taken out of the index. */
  lemma {:induction false} TakeHole(m: Bytes, index: seq<nat>, cs: seq<Chunk>, start: nat, end: nat, c: Chunk)
    requires Consistent(m, index, cs, start, end, multiset{}) && c in cs && c.hole
    ensures var k := Search(index, c.addr);
            && k < |index| && index[k] == c.addr && SortedIndex(m, index)
            && Consistent(m, Removed(index, k), cs, start, end, multiset{c.addr})
  {
    hide Word, Written, Tiles, Span, Holes, Search, Removed;
    HasEntry(m, index, cs, start, end, multiset{}, c);
    SearchFinds(index, c.addr);
    TakeOut(m, index, Search(index, c.addr), cs, start, end, multiset{});
    assert multiset{} + multiset{c.addr} == multiset{c.addr};
  }

  lemma IndexSorted(m: Bytes, index: seq<nat>, cs: seq<Chunk>, start: nat, end: nat, out: multiset<nat>)
    requires Consistent(m, index, cs, start, end, out)
    ensures SortedIndex(m, index)
  {
  }

  /** An entry that never left the index while its hole changed size: only the order can be wrong. */
  lemma {:induction false} BackIn(m: Bytes, p: Bytes, index: seq<nat>, k: nat, cs: seq<Chunk>, c: Chunk, start: nat, end: nat,
                                  out: multiset<nat>)
    requires k < |index| && SortedIndex(m, index) && c in cs && c.hole && c.addr == index[k]
    requires Consistent(p, Removed(index, k), cs, start, end, out + multiset{index[k]})
    requires forall a :: a in Removed(index, k) ==> SizeAt(p, a) == SizeAt(m, a)
    ensures SortedIndex(p, index) <==> InPlace(m, index, k, c.size)
    ensures SortedIndex(p, index) ==> Consistent(p, index, cs, start, end, out)
  {
    hide Tiles, Span, Holes, InPlace;
    RemoveSorts(index, k, BySize(m));
    assert index[k] in multiset(index);
    forall j | 0 <= j < |index| && j != k ensures SizeAt(p, index[j]) == SizeAt(m, index[j]) {
      assert index[j] == Removed(index, k)[if j < k then j else j - 1];
    }
    assert ChunkAt(p, c);
    hide SortedIndex, Word, Written;
    SortedMove(m, p, index, k);
  }

  lemma SortedIfSound(m: Bytes, index: seq<nat>, start: nat, end: nat)
    requires Sound(m, index, start, end)
    ensures SortedIndex(m, index)
  {
  }

  /** When only the order can be wrong, it decides. */
  lemma OrderDecides(m: Bytes, index: seq<nat>, cs: seq<Chunk>, start: nat, end: nat)
    requires (SortedIndex(m, index) ==> Consistent(m, index, cs, start, end, multiset{})) && NoAdjacentHoles(cs)
    ensures SoundWith(m, index, start, end, Live(cs)) <==> SortedIndex(m, index)
    ensures Sound(m, index, start, end) <==> SortedIndex(m, index)
  {
    hide SortedIndex, Live;
    if SortedIndex(m, index) {
      SoundBy(m, index, cs, start, end);
    }
    if SoundWith(m, index, start, end, Live(cs)) {
      SoundAtAll(m, index, start, end, Live(cs));
    }
    if Sound(m, index, start, end) {
      SortedIfSound(m, index, start, end);
    }
  }

  // ----- Memory with given chunks

  function PutChunk(m: Bytes, c: Chunk): (n: Bytes) {
    PutFooter(PutHeader(m, c.addr, c.size, c.hole), c.addr + c.size - FOOTER, c.addr)
  }

  lemma PutChunkWrites(m: Bytes, c: Chunk)
    requires OVERHEAD <= c.size < ADDRESS_SPACE && c.addr + c.size <= |m| <= ADDRESS_SPACE
    ensures ChunkAt(PutChunk(m, c), c) && SameOutside(m, PutChunk(m, c), c.addr, c.addr + c.size)
    ensures |PutChunk(m, c)| == |m|
  {
    var n, f := PutHeader(m, c.addr, c.size, c.hole), c.addr + c.size - FOOTER;
    PutHeaderWrites(m, c.addr, c.size, c.hole);
    assert |n| == |m|;
    PutFooterWrites(n, f, c.addr);
    assert |PutChunk(m, c)| == |n|;
    hide PutHeader, PutFooter, HeaderAt, FooterAt, SameOutside, Word;
    HeaderFrame(n, PutChunk(m, c), c.addr, c.size, c.hole, f, f + FOOTER);
    Compose(m, n, PutChunk(m, c), c.addr, c.addr + HEADER, f, f + FOOTER, c.addr, c.addr + c.size);
  }

  function PutAll(m: Bytes, cs: seq<Chunk>): (n: Bytes)
    requires |m| <= ADDRESS_SPACE
    ensures |n| == |m|
    decreases cs
  {
    if cs == [] || !(OVERHEAD <= cs[0].size < ADDRESS_SPACE) || |m| < cs[0].addr + cs[0].size then m
    else
      PutChunkWrites(m, cs[0]);
      PutAll(PutChunk(m, cs[0]), cs[1..])
  }

  /** Every tiling can be written into memory. */
  lemma {:induction false} PutAllWrites(m: Bytes, cs: seq<Chunk>, a: nat)
    requires 0 < a && Tiles(cs, a) && a + Span(cs) <= |m| <= ADDRESS_SPACE
    ensures Written(PutAll(m, cs), cs) && SameOutside(m, PutAll(m, cs), a, a + Span(cs))
    decreases cs
  {
    hide PutChunk, ChunkAt;
    if cs != [] {
      var c, rest := cs[0], cs[1..];
      var n := PutChunk(m, c);
      Within(cs, a, c);
      PutChunkWrites(m, c);
      PutAllWrites(n, rest, a + c.size);
      Compose(m, n, PutAll(n, rest), a, a + c.size, a + c.size, a + Span(cs), a, a + Span(cs));
      ChunkFrame(n, PutAll(n, rest), c, a + c.size, a + Span(cs));
    }
  }

  function Blank(): (m: Bytes)
    ensures |m| == ADDRESS_SPACE && forall i :: 0 <= i < |m| ==> m[i] == 0
  {
    seq(ADDRESS_SPACE, _ => 0)
  }
}
