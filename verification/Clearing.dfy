/**
 Clearing memory inside a heap, as kernel/paging.cpp:228-230 does it with a new page table: the table
 gets one page, and the size of a whole directory is cleared.
 */
module Clearing {
  import opened Memory
  import opened BoundaryTags
  import opened HeapSteps
  import opened RawTags
  import opened Placing
  import opened PageTables

  /** What a directory occupies: 1024 pointers, 1024 physical addresses and its own. */
  const DIRECTORY_SIZE: nat := 4 * ENTRIES + 4 * ENTRIES + 4

  function Cleared(m: Bytes, a: nat, n: nat): (o: Bytes)
    ensures |o| == |m| && SameOutside(m, o, a, a + n)
    ensures forall i :: a <= i < a + n && i < |m| ==> o[i] == 0
  {
    seq(|m|, i requires 0 <= i < |m| => if a <= i < a + n then 0 else m[i])
  }

  /** The owner of a block may write whatever it likes between the tags. */
  lemma {:induction false} PayloadIsFree(m: Bytes, o: Bytes, index: seq<nat>, cs: seq<Chunk>, start: nat, end: nat, i: nat)
    requires Consistent(m, index, cs, start, end, multiset{}) && NoAdjacentHoles(cs) && i < |cs| && !cs[i].hole
    requires OVERHEAD <= cs[i].size && SameOutside(m, o, cs[i].addr + HEADER, cs[i].addr + cs[i].size - FOOTER)
    ensures IsHeap(o, index, cs, start, end, Live(cs))
  {
    hide Word, SameOutside, SortedIndex, Tiles, Span, Holes, NoAdjacentHoles, HeaderAt, FooterAt;
    forall c | c in cs ensures ChunkAt(o, c) && SizeAt(o, c.addr) == SizeAt(m, c.addr) {
      if c == cs[i] {
        OwnTags(m, o, c);
      } else {
        Disjoint(cs, start, c, cs[i]);
        Compose(m, o, o, cs[i].addr + HEADER, cs[i].addr + cs[i].size - FOOTER, cs[i].addr, cs[i].addr,
                cs[i].addr, cs[i].addr + cs[i].size) by {
          Unchanged(o, cs[i].addr, cs[i].addr);
        }
        ChunkFrame(m, o, c, cs[i].addr, cs[i].addr + cs[i].size);
      }
    }
    forall a | a in index ensures SizeAt(m, a) == SizeAt(o, a) {
      var k :| 0 <= k < |index| && index[k] == a;
      Indexed(m, index, cs, start, end, multiset{}, k);
      assert cs[Find(cs, a)] in cs;
    }
    SortedFrame(m, o, index);
  }

  lemma OwnTags(m: Bytes, o: Bytes, c: Chunk)
    requires ChunkAt(m, c) && SameOutside(m, o, c.addr + HEADER, c.addr + c.size - FOOTER)
    ensures ChunkAt(o, c) && SizeAt(o, c.addr) == SizeAt(m, c.addr)
  {
    hide Word;
    WordFrame(m, o, c.addr, c.addr + HEADER, c.addr + c.size - FOOTER);
    WordFrame(m, o, c.addr + 8, c.addr + HEADER, c.addr + c.size - FOOTER);
    WordFrame(m, o, c.addr + c.size - FOOTER, c.addr + HEADER, c.addr + c.size - FOOTER);
    WordFrame(m, o, c.addr + c.size - FOOTER + 4, c.addr + HEADER, c.addr + c.size - FOOTER);
  }

  /** A block whose footer has begun to be cleared is no block of any heap. */
  lemma {:induction false} FooterGone(o: Bytes, index: seq<nat>, start: nat, end: nat, live: set<Chunk>, c: Chunk)
    requires c in live && c.addr + c.size - FOOTER < |o| && FOOTER <= c.addr + c.size && o[c.addr + c.size - FOOTER] == 0
    ensures !SoundWith(o, index, start, end, live)
  {
    hide SortedIndex, Tiles, Span, Holes, NoAdjacentHoles, HeaderAt;
    forall x ensures !IsHeap(o, index, x, start, end, live) {
      if IsHeap(o, index, x, start, end, live) {
        assert c in Live(x);
        NotMagic(o, c);
      }
    }
  }

  lemma NotMagic(o: Bytes, c: Chunk)
    requires ChunkAt(o, c)
    ensures o[c.addr + c.size - FOOTER] != 0
  {
  }

  /** Clearing from the start of a block's payload leaves the heap exactly if it ends before the footer. */
  lemma {:induction false} ClearExact(m: Bytes, index: seq<nat>, cs: seq<Chunk>, start: nat, end: nat, i: nat, n: nat)
    requires Consistent(m, index, cs, start, end, multiset{}) && NoAdjacentHoles(cs) && end <= |m|
    requires i < |cs| && !cs[i].hole
    ensures SoundWith(Cleared(m, cs[i].addr + HEADER, n), index, start, end, Live(cs)) <==> n + OVERHEAD <= cs[i].size
  {
    hide Word, SortedIndex, Tiles, Span, Holes, NoAdjacentHoles, Written, SameOutside, IsHeap;
    var c := cs[i];
    var o := Cleared(m, c.addr + HEADER, n);
    Neighbours(m, index, cs, start, end, multiset{}, i);
    if n + OVERHEAD <= c.size {
      Compose(m, o, o, c.addr + HEADER, c.addr + HEADER + n, c.addr + HEADER, c.addr + HEADER,
              c.addr + HEADER, c.addr + c.size - FOOTER) by {
        Unchanged(o, c.addr + HEADER, c.addr + HEADER);
      }
      PayloadIsFree(m, o, index, cs, start, end, i);
    } else {
      FooterGone(o, index, start, end, Live(cs), c);
    }
  }

  /** No block as small as one page's worth of table survives the clearing of a directory's worth of bytes. */
  lemma {:induction false} TableClearFails(m: Bytes, index: seq<nat>, cs: seq<Chunk>, start: nat, end: nat, i: nat)
    requires Consistent(m, index, cs, start, end, multiset{}) && NoAdjacentHoles(cs) && end <= |m|
    requires i < |cs| && !cs[i].hole && cs[i].size < PAGE + 2 * OVERHEAD
    ensures !SoundWith(Cleared(m, cs[i].addr + HEADER, DIRECTORY_SIZE), index, start, end, Live(cs))
  {
    hide Word, SortedIndex, Tiles, Span, Holes, NoAdjacentHoles, Written, Consistent, SoundWith;
    ClearExact(m, index, cs, start, end, i, DIRECTORY_SIZE);
  }

  /**
   A page table allocated as written, in any heap and from any hole: even when the allocation works,
   clearing it as written leaves no heap, and clearing the table alone would.
   */
  lemma {:induction false} NewTableExact(m: Bytes, index: seq<nat>, k: nat, cs: seq<Chunk>, start: nat, end: nat, i: nat, n: nat)
    requires Consistent(m, index, cs, start, end, multiset{}) && NoAdjacentHoles(cs) && PAGE <= start && end < ADDRESS_SPACE == |m|
    requires k < |index| && i < |cs| && cs[i].hole && cs[i].addr == index[k]
    requires AlignedWorks(m, index, k, cs[i], PAGE + OVERHEAD)
    ensures var (p, after, pos) := PlaceAsWritten(m, index, k, PAGE + OVERHEAD, true, end);
            OnPage(pos + HEADER)
            && (SoundWith(Cleared(p, pos + HEADER, n), after, start, end, Live(cs) + {Chunk(pos, PAGE + OVERHEAD, false)}) <==> n <= PAGE)
  {
    hide Word, SortedIndex, Tiles, Span, Holes, NoAdjacentHoles, Written, Consistent, SoundWith, PlaceAsWritten, InPlace, IsHeap, Live;
    var (p, after, pos) := PlaceAsWritten(m, index, k, PAGE + OVERHEAD, true, end);
    HoleInRange(m, index, cs, start, end, i);
    Placing.AlignedExact(m, index, k, cs, start, end, i, PAGE + OVERHEAD);
    FrontEntry(m, index, k, PAGE + OVERHEAD, end);
    OnItsPage(index[k]);
    hide AlignedWorks;
    Cut32(cs[i].size, PAGE + OVERHEAD, Front(cs[i].addr));
    var block := Chunk(pos, PAGE + OVERHEAD, false);
    assert SoundWith(p, after, start, end, Live(cs) + {block});
    ClearedBlock(p, after, start, end, Live(cs) + {block}, block, n);
  }

  lemma {:induction false} HoleInRange(m: Bytes, index: seq<nat>, cs: seq<Chunk>, start: nat, end: nat, i: nat)
    requires Consistent(m, index, cs, start, end, multiset{}) && i < |cs| && end < ADDRESS_SPACE
    ensures cs[i].size < ADDRESS_SPACE && start <= cs[i].addr
  {
    Neighbours(m, index, cs, start, end, multiset{}, i);
  }

  lemma OnItsPage(pos: nat)
    requires PAGE <= pos
    ensures 0 <= pos + Front(pos) && OnPage(pos + Front(pos) + HEADER)
  {
  }

  lemma {:induction false} ClearedBlock(p: Bytes, index: seq<nat>, start: nat, end: nat, live: set<Chunk>, block: Chunk, n: nat)
    requires SoundWith(p, index, start, end, live) && block in live
    ensures SoundWith(Cleared(p, block.addr + HEADER, n), index, start, end, live) <==> n + OVERHEAD <= block.size
  {
    hide Word, SortedIndex, Tiles, Span, Holes, NoAdjacentHoles, Written;
    var x :| IsHeap(p, index, x, start, end, live);
    assert block in Live(x);
    var j :| 0 <= j < |x| && x[j] == block;
    EndFits(p, index, x, start, end);
    ClearExact(p, index, x, start, end, j, n);
  }

  lemma {:induction false} EndFits(m: Bytes, index: seq<nat>, cs: seq<Chunk>, start: nat, end: nat)
    requires Consistent(m, index, cs, start, end, multiset{}) && cs != []
    ensures end <= |m|
  {
    hide Word, SortedIndex, Holes;
    LastChunk(cs, start);
    assert ChunkAt(m, cs[|cs| - 1]);
  }

  // ----- What the clearing does to the tables behind the new one

  /** Entry `k` of the page table at `s`. */
  function TableEntry(m: Bytes, s: nat, k: nat): nat
    requires s + PAGE <= |m| && k < ENTRIES
  {
    Word(m, s + 4 * k)
  }

  /**
   The entries of the table at `s` survive the clearing of the one at `t` exactly unless it lies on
   one of the next two pages, with something to lose: any of its entries, or its first.
   */
  lemma TablesBehindExact(m: Bytes, t: nat, s: nat)
    requires OnPage(t) && OnPage(s) && t != s && s + PAGE <= |m|
    ensures var o := Cleared(m, t, DIRECTORY_SIZE);
            (forall k :: 0 <= k < ENTRIES ==> TableEntry(o, s, k) == TableEntry(m, s, k)) <==>
            && (s == t + PAGE ==> forall k :: 0 <= k < ENTRIES ==> TableEntry(m, s, k) == 0)
            && (s == t + 2 * PAGE ==> TableEntry(m, s, 0) == 0)
  {
    hide TableEntry, OnPage, Cleared;
    var o := Cleared(m, t, DIRECTORY_SIZE);
    forall k | 0 <= k < ENTRIES
      ensures TableEntry(o, s, k) == if s == t + PAGE || (s == t + 2 * PAGE && k == 0) then 0 else TableEntry(m, s, k)
    {
      EntryBehind(m, t, s, k);
    }
  }

  lemma EntryBehind(m: Bytes, t: nat, s: nat, k: nat)
    requires OnPage(t) && OnPage(s) && t != s && s + PAGE <= |m| && k < ENTRIES
    ensures TableEntry(Cleared(m, t, DIRECTORY_SIZE), s, k)
            == if s == t + PAGE || (s == t + 2 * PAGE && k == 0) then 0 else TableEntry(m, s, k)
  {
    hide OnPage, Word, SameOutside, Cleared;
    var a := s + 4 * k;
    OnPageStep(t, s);
    OnPageStep(t + PAGE, s);
    OnPageStep(t + 2 * PAGE, s);
    OnPageStep(s, t);
    if t <= a && a + 4 <= t + DIRECTORY_SIZE {
      ZeroWord(Cleared(m, t, DIRECTORY_SIZE), a);
    } else {
      WordFrame(m, Cleared(m, t, DIRECTORY_SIZE), a, t, t + DIRECTORY_SIZE);
    }
  }

  lemma ZeroWord(m: Bytes, a: nat)
    requires a + 4 <= |m| && forall i :: a <= i < a + 4 ==> m[i] == 0
    ensures Word(m, a) == 0
  {
    assert m[a] == 0 && m[a + 1] == 0 && m[a + 2] == 0 && m[a + 3] == 0;
  }

  // ----- A heap with a page table in it

  const SAMPLE: seq<Chunk> := [Chunk(0x1000, 0xFF4, true), Chunk(0x1FF4, 0x1014, false), Chunk(0x3008, 0xFF8, false)]

  /** Clearing the page of a table leaves the heap, clearing a directory's worth of bytes does not. */
  lemma {:induction false} ClearFails()
    ensures var m := PutAll(Blank(), SAMPLE);
            && IsHeap(m, [0x1000], SAMPLE, 0x1000, 0x4000, Live(SAMPLE))
            && SoundWith(Cleared(m, 0x2000, PAGE), [0x1000], 0x1000, 0x4000, Live(SAMPLE))
            && !SoundWith(Cleared(m, 0x2000, DIRECTORY_SIZE), [0x1000], 0x1000, 0x4000, Live(SAMPLE))
  {
    hide Tiles, Span, Holes, NoAdjacentHoles, PutAll, Word, ChunkAt, SameOutside, SoundWith, Live;
    var m := PutAll(Blank(), SAMPLE);
    SampleTiles();
    PutAllWrites(Blank(), SAMPLE, 0x1000);
    assert |m| == ADDRESS_SPACE && Consistent(m, [0x1000], SAMPLE, 0x1000, 0x4000, multiset{});
    ClearExact(m, [0x1000], SAMPLE, 0x1000, 0x4000, 1, PAGE);
    ClearExact(m, [0x1000], SAMPLE, 0x1000, 0x4000, 1, DIRECTORY_SIZE);
  }

  lemma {:induction false} SampleTiles()
    ensures Tiles(SAMPLE, 0x1000) && Span(SAMPLE) == 0x3000 && Holes(SAMPLE) == multiset{0x1000} && NoAdjacentHoles(SAMPLE)
  {
    var a, b, c := [SAMPLE[0]], [SAMPLE[1]], [SAMPLE[2]];
    One(SAMPLE[0]);
    One(SAMPLE[1]);
    One(SAMPLE[2]);
    hide Tiles, Span, Holes, NoAdjacentHoles;
    assert SAMPLE == a + b + c;
    NoAdjacentConcat(a, b);
    NoAdjacentConcat(a + b, c);
    SpliceTiles(a, b, c, 0x1000);
    SpliceHoles(a, b, c);
  }
}
