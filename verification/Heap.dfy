/**
 The kernel heap (kernel/Heap.h:26-44, kernel/Heap.cpp), working in place on byte-addressed
 memory and on the sorted hole index.  `chunks` is the tiling the tags in memory describe;
 `Valid` ties the tags, the index and the mapped pages to it.
 */
module Heaps {
  import opened Memory
  import opened OrderedLists
  import opened BoundaryTags
  import opened HeapSteps

  const INDEX_SIZE: nat := 0x20000

  /** The pages that make up a page-aligned range. */
  function Pages(lo: nat, hi: nat): set<nat> {
    set a | lo <= a < hi && OnPage(a)
  }

  lemma PagesGrow(lo: nat, hi: nat)
    requires lo <= hi && OnPage(hi)
    ensures Pages(lo, hi + PAGE) == Pages(lo, hi) + {hi}
    ensures hi !in Pages(lo, hi)
  {
  }

  lemma OneHole(m: Bytes, c: Chunk)
    requires ChunkAt(m, c) && c.hole
    ensures Consistent(m, [], [c], c.addr, c.addr + c.size, multiset{} + multiset{c.addr}) && NoAdjacentHoles([c])
  {
    assert OVERHEAD <= c.size;
    hide ChunkAt;
    One(c);
  }

  class Heap {
    const index: OrderedList<nat>
    const mem: array<byte>
    const start: nat
    const max: nat
    var end: nat
    var mapped: set<nat>
    var freeFrames: nat
    ghost var chunks: seq<Chunk>

    /** The extent of the heap: whole mapped pages, within the limits. */
    ghost predicate Extent()
      reads this, index
    {
      && index.Valid()
      && mem.Length == ADDRESS_SPACE
      && index.elements as object != mem as object
      && 0 < start && OnPage(start) && OnPage(end)
      && start + MIN_SIZE <= end <= max < ADDRESS_SPACE
      && mapped == Pages(start, end)
    }

    /** Everything but the absence of adjacent holes; `out` is missing from the index. */
    ghost predicate Shape(out: multiset<nat>)
      reads this, mem, index, index.elements
    {
      Extent() && Consistent(mem[..], index.Contents(), chunks, start, end, out)
    }

    ghost predicate Valid()
      reads this, mem, index, index.elements
    {
      Shape(multiset{}) && NoAdjacentHoles(chunks)
    }

    /** One large hole over the mapped range behind the index. */
    constructor (memory: array<byte>, location: nat, endAddr: nat, maxAddr: nat, frames: nat)
      requires memory.Length == ADDRESS_SPACE
      requires RoundUp(location + 4 * INDEX_SIZE) + MIN_SIZE <= endAddr <= maxAddr < ADDRESS_SPACE
      requires OnPage(endAddr)
      modifies memory
      ensures Valid() && mem == memory && fresh(index) && fresh(index.elements)
      ensures start == RoundUp(location + 0x8_0000) && end == endAddr && max == maxAddr && freeFrames == frames
      ensures chunks == [Chunk(start, end - start, true)] && index.elements.Length == INDEX_SIZE
    {
      var first := RoundUp(location + 4 * INDEX_SIZE);
      index := new OrderedList<nat>(INDEX_SIZE);
      mem := memory;
      start := first;
      max := maxAddr;
      end := endAddr;
      mapped := Pages(first, endAddr);
      freeFrames := frames;
      chunks := [Chunk(first, endAddr - first, true)];
      new;
      hide Word, ChunkAt, RoundUp, Pages, SameOutside;
      assert index.elements as object != mem as object;
      WriteChunk(Chunk(start, end - start, true));
      OneHole(mem[..], chunks[0]);
      hide Consistent;
      InsertHole(start, multiset{});
    }

    method WriteHeader(a: nat, size: nat, hole: bool)
      requires a + HEADER <= mem.Length && size < ADDRESS_SPACE
      modifies mem
      ensures HeaderAt(mem[..], a, size, hole)
      ensures SameOutside(old(mem[..]), mem[..], a, a + HEADER)
    {
      StoreWord(mem, a, MAGIC);
      mem[a + 4] := if hole then 1 else 0;
      StoreWord(mem, a + 8, size);
    }

    method WriteFooter(f: nat, header: nat)
      requires f + FOOTER <= mem.Length && header < ADDRESS_SPACE
      modifies mem
      ensures FooterAt(mem[..], f, header)
      ensures SameOutside(old(mem[..]), mem[..], f, f + FOOTER)
    {
      StoreWord(mem, f, MAGIC);
      StoreWord(mem, f + 4, header);
    }

    method WriteChunk(c: Chunk)
      requires OVERHEAD <= c.size < ADDRESS_SPACE && c.addr + c.size <= mem.Length && mem.Length == ADDRESS_SPACE
      modifies mem
      ensures ChunkAt(mem[..], c)
      ensures SameOutside(old(mem[..]), mem[..], c.addr, c.addr + c.size)
    {
      WriteHeader(c.addr, c.size, c.hole);
      WriteFooter(c.addr + c.size - FOOTER, c.addr);
    }

    /** One more page behind the mapped ones, with whatever its frame happens to hold. */
    method MapPage(a: nat, junk: nat -> byte)
      requires a + PAGE <= mem.Length && freeFrames > 0
      modifies this`mapped, this`freeFrames, mem
      ensures mapped == old(mapped) + {a} && freeFrames == old(freeFrames) - 1
      ensures SameOutside(old(mem[..]), mem[..], a, a + PAGE)
    {
      freeFrames := freeFrames - 1;
      mapped := mapped + {a};
      forall k | a <= k < a + PAGE {
        mem[k] := junk(k);
      }
    }

    /** Maps pages up to the requested length, rounded up; refuses when room or frames run out. */
    method Expand(newSize: nat, junk: nat -> byte) returns (ok: bool)
      requires Shape(multiset{}) && end - start <= newSize
      modifies this`end, this`mapped, this`freeFrames, mem
      ensures ok <==> start + RoundUp(newSize) <= max && RoundUp(newSize) - old(end - start) <= old(freeFrames) * PAGE
      ensures ok ==> end == start + RoundUp(newSize) && SameOutside(old(mem[..]), mem[..], old(end), end)
      ensures !ok ==> end == old(end) && mem[..] == old(mem[..])
      ensures mapped == Pages(start, end)
      ensures freeFrames * PAGE + end == old(freeFrames * PAGE + end)
    {
      hide RoundUp, Pages, SameOutside, Consistent, OnPage;
      var size := RoundUp(newSize);
      Unchanged(mem[..], end, end);
      OnPageShift(start, end - start);
      if start + size > max || size - (end - start) > freeFrames * PAGE {
        return false;
      }
      var i := end - start;
      while i < size
        invariant old(end) - start <= i <= size && OnPage(i)
        invariant end == old(end)
        invariant mapped == Pages(start, start + i)
        invariant freeFrames * PAGE + i == old(freeFrames * PAGE + (end - start))
        invariant SameOutside(old(mem[..]), mem[..], old(end), start + i)
      {
        ghost var before := mem[..];
        OnPageShift(start, i);
        OnPageStep(i, size);
        MapPage(start + i, junk);
        PagesGrow(start, start + i);
        Compose(old(mem[..]), before, mem[..], old(end), start + i, start + i, start + i + PAGE, old(end), start + i + PAGE);
        i := i + PAGE;
      }
      end := start + size;
      ok := true;
    }

    /** Unmaps whole pages down to the requested length. */
    method Contract(newSize: nat)
      requires mapped == Pages(start, end) && OnPage(start) && OnPage(end)
      requires OnPage(newSize) && newSize <= end - start
      modifies this`end, this`mapped, this`freeFrames
      ensures end == start + newSize && mapped == Pages(start, end)
      ensures freeFrames * PAGE + end == old(freeFrames * PAGE + end)
    {
      var i := end - start;
      while newSize < i
        invariant newSize <= i <= old(end) - start && OnPage(i)
        invariant end == old(end)
        invariant mapped == Pages(start, start + i)
        invariant freeFrames * PAGE + i == old(freeFrames * PAGE + (end - start))
      {
        i := i - PAGE;
        mapped := mapped - {start + i};
        freeFrames := freeFrames + 1;
        PagesGrow(start, start + i);
      }
      end := start + newSize;
    }

    /** The steps of growing: the pages behind `oldEnd` are mapped but not yet a chunk. */
    ghost predicate Stretched(m: Bytes, oldEnd: nat)
      reads this, mem, index, index.elements
    {
      && index.Valid() && mem.Length == ADDRESS_SPACE
      && index.elements as object != mem as object
      && 0 < start && OnPage(start) && OnPage(end)
      && start + MIN_SIZE <= oldEnd && oldEnd + OVERHEAD <= end <= max < ADDRESS_SPACE
      && mapped == Pages(start, end)
      && Consistent(m, index.Contents(), chunks, start, oldEnd, multiset{})
      && SameOutside(m, mem[..], oldEnd, end)
    }

    /** Puts the hole at `a`, missing from the index, where its size belongs. */
    method InsertHole(a: nat, ghost out: multiset<nat>)
      requires Shape(out + multiset{a}) && index.size < index.elements.Length
      modifies index, index.elements
      ensures Shape(out) && index.size == old(index.size) + 1
      ensures chunks == old(chunks) && end == old(end) && mem[..] == old(mem[..])
    {
      PutIn(mem[..], index.Contents(), a, chunks, start, end, out);
      index.Insert(a, BySize(mem[..]));
    }

    method AppendHole(ghost m: Bytes, oldEnd: nat)
      requires Stretched(m, oldEnd) && index.size < index.elements.Length
      modifies this`chunks, mem, index, index.elements
      ensures Shape(multiset{})
      ensures chunks == old(chunks) + [Chunk(oldEnd, end - oldEnd, true)]
      ensures SameOutside(m, mem[..], oldEnd, end)
      ensures index.size == old(index.size) + 1
    {
      hide Word, ChunkAt, Written, Tiles, Span, Holes, SameOutside, SortedIndex;
      ghost var n := mem[..];
      WriteChunk(Chunk(oldEnd, end - oldEnd, true));
      Compose(m, n, mem[..], oldEnd, end, oldEnd, end, oldEnd, end);
      Appended(m, mem[..], index.Contents(), chunks, start, oldEnd, end);
      assert multiset{} + multiset{oldEnd} == multiset{oldEnd};
      chunks := chunks + [Chunk(oldEnd, end - oldEnd, true)];
      InsertHole(oldEnd, multiset{});
    }

    method ExtendHole(ghost m: Bytes, oldEnd: nat, at: nat)
      requires Stretched(m, oldEnd) && index.size < index.elements.Length
      requires at < index.size && chunks != [] && chunks[|chunks| - 1].hole
      requires index.Contents()[at] == chunks[|chunks| - 1].addr
      modifies this`chunks, mem, index, index.elements
      ensures Shape(multiset{})
      ensures chunks == Grown(old(chunks), oldEnd, end - oldEnd)
      ensures SameOutside(m, mem[..], old(chunks[|chunks| - 1].addr), end)
      ensures index.size == old(index.size)
    {
      hide Word, ChunkAt, Tiles, Span, Holes, SameOutside, Consistent, Grown;
      ghost var n, cs, entries := mem[..], chunks, index.Contents();
      var a := index.GetItemAtIndex(at);
      TakeOutLast(m, entries, at, cs, start, oldEnd);
      index.Remove(at);
      WriteChunk(Chunk(a, end - a, true));
      Compose(m, n, mem[..], oldEnd, end, a, end, a, end);
      Extended(m, mem[..], Removed(entries, at), cs, start, oldEnd, end);
      chunks := Grown(cs, oldEnd, end - oldEnd);
      assert Shape(multiset{a});
      hide Shape, Stretched;
      assert multiset{} + multiset{a} == multiset{a};
      InsertHole(a, multiset{});
    }

    /** Looks for an indexed hole that touches the old end. */
    method LastHole(ghost m: Bytes, oldEnd: nat) returns (touches: bool, at: int)
      requires Stretched(m, oldEnd)
      ensures touches <==> EndsInHole(chunks)
      ensures touches ==> 0 <= at < index.size && index.Contents()[at] == chunks[|chunks| - 1].addr
    {
      hide Word, Written, Holes, SortedIndex, Span;
      var value;
      at, value := EndmostEntry();
      ghost var entries := index.Contents();
      SpanPositive(m, entries, chunks, start, oldEnd);
      Endmost(m, entries, chunks, start, oldEnd, at, value);
      touches := false;
      hide Consistent, EndsInHole;
      if at >= 0 {
        var size := LoadWord(mem, value + 8);
        SizeFrame(m, mem[..], value, oldEnd, end);
        touches := value + size == oldEnd;
      }
    }

    /** Makes the freshly mapped pages part of the last hole, or a hole of their own. */
    method AttachTail(ghost m: Bytes, oldEnd: nat)
      requires Stretched(m, oldEnd) && 0 < start && index.size < index.elements.Length
      modifies this`chunks, mem, index, index.elements
      ensures Shape(multiset{})
      ensures chunks == Grown(old(chunks), oldEnd, end - oldEnd)
      ensures SameOutside(m, mem[..], TrailStart(old(chunks), oldEnd), end)
      ensures index.size == old(index.size) + if old(EndsInHole(chunks)) then 0 else 1
    {
      hide Consistent, SameOutside, Shape, Stretched;
      var touches, at := LastHole(m, oldEnd);
      if touches {
        ExtendHole(m, oldEnd, at);
      } else {
        AppendHole(m, oldEnd);
      }
    }

    /**
     Makes the heap longer by the needed bytes, rounded up to pages, as a hole at its end: the
     last hole when that touches the old end, otherwise a new one.
     */
    method Grow(need: nat, junk: nat -> byte) returns (ok: bool)
      requires Valid() && need >= OVERHEAD && index.size < index.elements.Length
      modifies this`chunks, this`end, this`mapped, this`freeFrames, mem, index, index.elements
      ensures Valid()
      ensures ok <==> old(end) + RoundUp(need) <= max && RoundUp(need) <= old(freeFrames) * PAGE
      ensures ok ==> end == old(end) + RoundUp(need) && chunks == Grown(old(chunks), old(end), RoundUp(need))
      ensures ok ==> SameOutside(old(mem[..]), mem[..], TrailStart(old(chunks), old(end)), end)
      ensures ok ==> index.size == old(index.size) + if old(EndsInHole(chunks)) then 0 else 1
      ensures !ok ==> end == old(end) && chunks == old(chunks) && mem[..] == old(mem[..])
      ensures !ok ==> index.Contents() == old(index.Contents())
      ensures freeFrames * PAGE + end == old(freeFrames * PAGE + end)
    {
      ghost var m, cs := mem[..], chunks;
      var oldLength, oldEnd := end - start, end;
      RoundUpShift(oldLength, need);
      hide Word, Tiles, Span, Holes, SameOutside, Consistent, NoAdjacentHoles, Grown, RoundUp;
      ok := Expand(oldLength + need, junk);
      if ok {
        AttachTail(m, oldEnd);
        GrownNoAdjacent(cs, oldEnd, end - oldEnd);
      }
    }

    /** The index entry with the greatest address; -1 if the index is empty. */
    method EndmostEntry() returns (idx: int, value: nat)
      requires index.Valid()
      ensures -1 <= idx < index.size
      ensures idx >= 0 ==> value == index.Contents()[idx]
      ensures forall a :: a in index.Contents() ==> a <= value
      ensures idx == -1 ==> value == 0
    {
      var at := 0;
      idx, value := -1, 0;
      while at < index.size
        invariant 0 <= at <= index.size && -1 <= idx < at
        invariant if idx == -1 then value == 0 else value == index.Contents()[idx]
        invariant forall k :: 0 <= k < at ==> index.Contents()[k] <= value
      {
        var tmp := index.GetItemAtIndex(at);
        if tmp > value {
          value := tmp;
          idx := at;
        }
        at := at + 1;
      }
    }

    method WritePieces(c: Chunk, gap: nat, size: nat)
      requires Clean(c, gap, size) && c.size < ADDRESS_SPACE
      requires c.addr + c.size <= mem.Length && mem.Length == ADDRESS_SPACE
      modifies mem
      ensures Written(mem[..], Pieces(c, gap, size))
      ensures SameOutside(old(mem[..]), mem[..], c.addr, c.addr + c.size)
    {
      hide Word, ChunkAt, SameOutside;
      var rest := c.size - gap - size;
      var front, block := Chunk(c.addr, gap, true), Chunk(c.addr + gap, size, false);
      var back := Chunk(c.addr + gap + size, rest, true);
      ghost var m := mem[..];
      if gap > 0 {
        WriteChunk(front);
      } else {
        Unchanged(m, c.addr, c.addr + gap);
      }
      ghost var n := mem[..];
      WriteChunk(block);
      ghost var o := mem[..];
      if rest > 0 {
        WriteChunk(back);
      } else {
        Unchanged(o, back.addr, back.addr + rest);
      }
      Compose(m, n, o, c.addr, c.addr + gap, block.addr, back.addr, c.addr, back.addr);
      Compose(m, o, mem[..], c.addr, back.addr, back.addr, c.addr + c.size, c.addr, c.addr + c.size);
      ChunkFrame(o, mem[..], block, back.addr, c.addr + c.size);
      if gap > 0 {
        ChunkFrame(n, o, front, block.addr, back.addr);
        ChunkFrame(o, mem[..], front, back.addr, c.addr + c.size);
      }
    }

    /** The hole at index position `at`, taken out and rewritten as its three pieces. */
    method CarveOut(at: nat, ghost i: nat, pos: nat, gap: nat, size: nat, rest: nat)
      requires Valid() && at < index.size < index.elements.Length
      requires i < |chunks| && chunks[i] == Chunk(pos, gap + size + rest, true) && index.Contents()[at] == pos
      requires Clean(chunks[i], gap, size)
      modifies this`chunks, mem, index, index.elements
      ensures Shape(Holes(HoleIf(pos + gap + size, rest)) + Holes(HoleIf(pos, gap)))
      ensures chunks == Carved(old(chunks), i, gap, size)
      ensures SameOutside(old(mem[..]), mem[..], pos, pos + gap + size + rest)
      ensures index.size == old(index.size) - 1
    {
      hide Word, Written, Tiles, Span, Holes, SameOutside, Consistent, NoAdjacentHoles, Pieces, Carved;
      ghost var m, cs, entries := mem[..], chunks, index.Contents();
      PlaceFacts(m, entries, at, cs, start, end, i);
      index.Remove(at);
      WritePieces(Chunk(pos, gap + size + rest, true), gap, size);
      CarvedConsistent(m, mem[..], Removed(entries, at), cs, i, gap, size, start, end);
      chunks := Carved(cs, i, gap, size);
    }

    /**
     Turns the indexed hole into a block of at least `need` bytes, with a front hole before it
     when its payload has to start on a page and a rest behind it when that is worth a hole.
     */
    method Place(at: nat, ghost i: nat, need: nat, align: bool) returns (p: nat)
      requires Valid() && need >= OVERHEAD && at < index.size < index.elements.Length
      requires i < |chunks| && chunks[i].hole && index.Contents()[at] == chunks[i].addr
      requires Fits(chunks[i].addr, chunks[i].size, need, align)
      modifies this`chunks, mem, index, index.elements
      ensures Valid()
      ensures chunks == Placed(old(chunks), i, need, align)
      ensures p == old(chunks)[i].addr + Gap(old(chunks)[i].addr, align) + HEADER
      ensures SameOutside(old(mem[..]), mem[..], old(chunks)[i].addr, old(chunks)[i].addr + old(chunks)[i].size)
      ensures index.size <= old(index.size) + 1
    {
      hide Shape, NoAdjacentHoles, Placed, Gap, Fits, Clean, HoleIf, Carved, SameOutside, Holes, Extent;
      var pos, gap, newSize, rest := Measure(at, i, need, align);
      CarveOut(at, i, pos, gap, newSize, rest);
      InsertPieces(pos, gap, pos + gap + newSize, rest);
      p := pos + gap + HEADER;
    }

    /** Where a block in this hole goes, how big it gets, and what is left. */
    method Measure(at: nat, ghost i: nat, need: nat, align: bool) returns (pos: nat, gap: nat, size: nat, rest: nat)
      requires Valid() && need >= OVERHEAD && at < index.size
      requires i < |chunks| && chunks[i].hole && index.Contents()[at] == chunks[i].addr
      requires Fits(chunks[i].addr, chunks[i].size, need, align)
      ensures chunks[i] == Chunk(pos, gap + size + rest, true) && Clean(chunks[i], gap, size) && gap == Gap(pos, align)
      ensures (gap == 0 || OVERHEAD <= gap) && (rest == 0 || OVERHEAD <= rest)
      ensures Placed(chunks, i, need, align) == Carved(chunks, i, gap, size) && NoAdjacentHoles(Placed(chunks, i, need, align))
    {
      hide Word, Written, Tiles, Span, Holes, SameOutside, Consistent, NoAdjacentHoles, Pieces, Carved, Gap, BlockSize;
      pos := index.GetItemAtIndex(at);
      PlaceFacts(mem[..], index.Contents(), at, chunks, start, end, i);
      var origSize := LoadWord(mem, pos + 8);
      gap := Gap(pos, align);
      size := BlockSize(origSize - gap, need);
      rest := origSize - gap - size;
      CarvedNoAdjacent(chunks, i, gap, size);
    }

    /** Indexes the front hole and the rest, as far as there are any. */
    method InsertPieces(front: nat, gap: nat, back: nat, rest: nat)
      requires Shape(Holes(HoleIf(back, rest)) + Holes(HoleIf(front, gap)))
      requires (gap == 0 || OVERHEAD <= gap) && (rest == 0 || OVERHEAD <= rest)
      requires index.size + 1 < index.elements.Length
      modifies index, index.elements
      ensures Shape(multiset{}) && index.size <= old(index.size) + 2
    {
      HoleIfTiles(front, gap);
      HoleIfTiles(back, rest);
      hide Word, Holes, HoleIf, Shape;
      ghost var out := Holes(HoleIf(back, rest));
      assert out + multiset{} == out && multiset{} + out == out;
      if gap > 0 {
        InsertHole(front, out);
      }
      if rest > 0 {
        InsertHole(back, multiset{});
      }
    }

    /** Puts a block into a smallest hole that fits; 0 exactly when there is none. */
    method PlaceBest(need: nat, align: bool) returns (p: nat)
      requires Valid() && need >= OVERHEAD && index.size < index.elements.Length
      modifies this`chunks, mem, index, index.elements
      ensures Valid()
      ensures p != 0 <==> old(FitsSome(chunks, need, align))
      ensures p == 0 ==> chunks == old(chunks) && mem[..] == old(mem[..]) && index.size == old(index.size)
      ensures p != 0 ==> BestPlaced(old(chunks), chunks, p, need, align) && NewBlock(old(chunks), chunks, p, need)
      ensures p != 0 && align ==> OnPage(p)
      ensures Untouched(old(mem[..]), mem[..], Live(old(chunks)))
      ensures index.size <= old(index.size) + 1
    {
      hide Word, Shape, NoAdjacentHoles, SameOutside, Untouched, NewBlock, Placed, Tiles, Fits, Gap,
           Chosen, BestPlaced, FitsSome, Live, Find;
      TilingFacts();
      ghost var m, cs := mem[..], chunks;
      var at := FindSmallestHole(need, align);
      if at == -1 {
        p := 0;
        NothingTouched(m, Live(cs));
      } else {
        ghost var i := Find(cs, index.Contents()[at]);
        BestAt(cs, i, need, align);
        PlacedBlock(cs, i, need, align, start);
        p := Place(at, i, need, align);
        PlaceUntouched(m, mem[..], cs, i, start);
      }
    }

    /**
     Allocates `size` bytes; the result is 0 exactly when neither the holes nor the address
     space and frames left for growing suffice.
     */
    method Alloc(size: nat, align: bool, junk: nat -> byte) returns (p: nat)
      requires Valid() && index.size + (if EndsInHole(chunks) then 0 else 1) < index.elements.Length
      modifies this`chunks, this`end, this`mapped, this`freeFrames, mem, index, index.elements
      ensures Valid()
      ensures Outcome(old(chunks), old(end), chunks, end, p, max - old(end), old(freeFrames) * PAGE, size + OVERHEAD, align)
      ensures TakesSome(old(chunks), size + OVERHEAD, align) ==> p != 0 && end == old(end)
      ensures var most := (if align then 3 else 1) * RoundUp(size + OVERHEAD);
              && (old(end) + most <= max && most <= old(freeFrames) * PAGE ==> p != 0)
              && (p != 0 ==> end <= old(end) + most)
      ensures !TakesSome(old(chunks), size + OVERHEAD, align) && p != 0 ==> old(end) + RoundUp(size + OVERHEAD) <= end
      ensures p != 0 ==> NewBlock(old(chunks), chunks, p, size + OVERHEAD)
      ensures p != 0 && align ==> OnPage(p)
      ensures p == 0 ==> Live(chunks) == Live(old(chunks))
      ensures Untouched(old(mem[..]), mem[..], Live(old(chunks)))
      ensures old(end) <= end && freeFrames * PAGE + end == old(freeFrames * PAGE + end)
      ensures index.size <= old(index.size + if EndsInHole(chunks) then 1 else 2)
      decreases max - end
    {
      hide Word, Shape, NoAdjacentHoles, SameOutside, Untouched, Live, BestPlaced, GrownBy, FitsSome, NewBlock, Tiles,
           Span, Extra, Outcome, RoundUp, Grown, TakesSome;
      TilingFacts();
      ghost var m, cs, before, frames := mem[..], chunks, end, freeFrames * PAGE;
      var need := size + OVERHEAD;
      p := PlaceBest(need, align);
      if p != 0 {
        OutcomePlaced(cs, before, chunks, p, max - before, frames, need, align);
        OutcomeBounds(cs, before, chunks, end, p, max - before, frames, need, align);
        return;
      }
      var ok := Grow(need, junk);
      if !ok {
        OutcomeRefused(cs, before, max - before, frames, need, align);
        OutcomeBounds(cs, before, chunks, end, p, max - before, frames, need, align);
        return;
      }
      GrownFacts(cs, before, RoundUp(need));
      ghost var n, grown := mem[..], chunks;
      GrowUntouched(m, n, cs, start, end);
      p := Alloc(size, align, junk);
      OutcomeGrown(cs, before, chunks, end, p, max - before, frames, need, align);
      OutcomeBounds(cs, before, chunks, end, p, max - before, frames, need, align);
      UntouchedTwice(m, n, mem[..], Live(cs));
      if p != 0 {
        NewBlockFrame(cs, grown, chunks, p, need);
      }
    }

    /**
     Allocates and frees at once: when nothing has to grow, the tiling is what it was, except
     that a hole at the end is cut as any final hole is.
     */
    method AllocFree(size: nat, align: bool, junk: nat -> byte)
      requires Valid() && index.size + 2 < index.elements.Length && FitsSome(chunks, size + OVERHEAD, align)
      modifies this`chunks, this`end, this`mapped, this`freeFrames, mem, index, index.elements
      ensures Valid()
      ensures Restored(old(chunks), chunks, size + OVERHEAD, align, start)
      ensures Untouched(old(mem[..]), mem[..], Live(old(chunks)))
    {
      hide Word, Shape, NoAdjacentHoles, SameOutside, Untouched, NewBlock, BestPlaced, FitsSome, Tiles, Live;
      ghost var m, cs := mem[..], chunks;
      TilingFacts();
      var p := Alloc(size, align, junk);
      PlacedThenReleased(cs, chunks, p, size + OVERHEAD, align, start);
      ghost var n := mem[..];
      Free(p);
      UntouchedTwice(m, n, mem[..], Live(cs));
    }

    /** Finds the indexed hole at `a` by searching the index, and takes it out. */
    method RemoveEntry(a: nat, ghost out: multiset<nat>)
      requires Shape(out) && a in index.Contents() && index.size < index.elements.Length
      modifies index, index.elements
      ensures Shape(out + multiset{a}) && index.size == old(index.size) - 1
    {
      ghost var entries := index.Contents();
      var at := 0;
      while at < index.size && index.elements[at] != a
        invariant 0 <= at <= index.size
        invariant a !in entries[..at]
      {
        at := at + 1;
      }
      assert at < index.size by {
        assert entries[..index.size] == entries;
      }
      TakeOut(mem[..], entries, at, chunks, start, end, out);
      index.Remove(at);
    }

    /** The first step of freeing: the block's header says hole. */
    method MarkHole(header: nat, ghost i: nat)
      requires Valid() && i < |chunks| && chunks[i].addr == header && !chunks[i].hole
      modifies this`chunks, mem
      ensures Shape(multiset{header})
      ensures chunks == Marked(old(chunks), i)
      ensures SameOutside(old(mem[..]), mem[..], header, header + old(chunks)[i].size)
    {
      ghost var m := mem[..];
      BlockFacts(m, index.Contents(), chunks, start, end, i);
      assert ChunkAt(m, chunks[i]);
      hide Word, Tiles, Span, Holes, ChunkAt, HeaderAt, Written, SortedIndex, SameOutside, Consistent;
      mem[header + 4] := 1;
      assert mem[..] == m[header + 4 := 1];
      MarkTag(m, mem[..], chunks[i]);
      MarkedConsistent(m, mem[..], index.Contents(), chunks, i, start, end);
      chunks := Marked(chunks, i);
    }

    /** Two neighbouring holes, both out of the index, become one. */
    method Merge(ghost i: nat, left: nat, total: nat)
      requires i + 1 < |chunks| && chunks[i].hole && chunks[i + 1].hole
      requires Shape(multiset{chunks[i].addr} + multiset{chunks[i + 1].addr})
      requires left == chunks[i].addr && total == chunks[i].size + chunks[i + 1].size
      modifies this`chunks, mem
      ensures Shape(multiset{left})
      ensures chunks == Joined(old(chunks), i)
      ensures SameOutside(old(mem[..]), mem[..], left, left + total)
    {
      hide Word, Tiles, Span, Holes, ChunkAt, Written, SortedIndex;
      ghost var m := mem[..];
      Neighbours(m, index.Contents(), chunks, start, end, multiset{chunks[i].addr} + multiset{chunks[i + 1].addr}, i);
      WriteChunk(Chunk(left, total, true));
      JoinedConsistent(m, mem[..], index.Contents(), chunks, i, start, end);
      chunks := Joined(chunks, i);
    }

    /** Whether the footer before `header` belongs to a hole, and which one. */
    method LeftHole(header: nat, ghost i: nat) returns (found: bool, left: nat, size: nat)
      requires i < |chunks| && chunks[i].addr == header && Shape(multiset{header})
      ensures found <==> MergeFrom(chunks, i) < i
      ensures found ==> chunks[i - 1] == Chunk(left, size, true) && left + size == header && left in index.Contents()
    {
      hide Word, Tiles, Span, Holes, HeaderAt, ChunkAt, Written, SortedIndex, Consistent;
      ghost var m := mem[..];
      Position(m, index.Contents(), chunks, start, end, multiset{header}, i);
      found, left, size := false, 0, 0;
      if header > start {
        LeftTags(m, index.Contents(), chunks, start, end, multiset{header}, i);
        var magic := LoadWord(mem, header - FOOTER);
        left := LoadWord(mem, header - FOOTER + 4);
        if magic == MAGIC && mem[left + 4] == 1 {
          size := LoadWord(mem, left + 8);
          found := true;
        }
      }
    }

    /** Whether a hole follows at `right`, and of what size. */
    method RightHole(right: nat, ghost i: nat) returns (found: bool, size: nat)
      requires i < |chunks| && chunks[i].addr + chunks[i].size == right && Shape(multiset{chunks[i].addr})
      ensures found <==> i + 1 < MergeTo(chunks, i)
      ensures found ==> chunks[i + 1] == Chunk(right, size, true) && right in index.Contents()
    {
      hide Word, Tiles, Span, Holes, HeaderAt, ChunkAt, Written, SortedIndex, Consistent;
      ghost var m, out := mem[..], multiset{chunks[i].addr};
      Position(m, index.Contents(), chunks, start, end, out, i);
      found, size := false, 0;
      if right < end {
        RightTags(m, index.Contents(), chunks, start, end, out, i);
        var magic := LoadWord(mem, right);
        if magic == MAGIC && mem[right + 4] == 1 {
          size := LoadWord(mem, right + 8);
          found := true;
        }
      }
    }

    /** Joins the hole at `header` with a hole to its left, which the footer before it tells. */
    method UnifyLeft(header: nat, size: nat, ghost i: nat) returns (h: nat, total: nat)
      requires i < |chunks| && chunks[i] == Chunk(header, size, true) && index.size < index.elements.Length
      requires Shape(multiset{header})
      modifies this`chunks, mem, index, index.elements
      ensures Shape(multiset{h}) && index.size <= old(index.size)
      ensures chunks == JoinLeft(old(chunks), i)
      ensures MergeFrom(old(chunks), i) < |chunks| && chunks[MergeFrom(old(chunks), i)] == Chunk(h, total, true)
      ensures h + total == header + size && h <= header
      ensures SameOutside(old(mem[..]), mem[..], h, h + total)
    {
      hide Shape, Joined, SameOutside;
      var found, left, leftSize := LeftHole(header, i);
      h, total := header, size;
      if found {
        h, total := left, leftSize + size;
        assert multiset{header} + multiset{left} == multiset{left} + multiset{header};
        JoinedAt(chunks, i - 1);
        hide MergeFrom, JoinLeft;
        RemoveEntry(left, multiset{header});
        Merge(i - 1, left, total);
      } else {
        Unchanged(mem[..], header, header + size);
      }
    }

    /** Joins the hole at `header` with a hole to its right, if the heap goes on there. */
    method UnifyRight(header: nat, size: nat, ghost i: nat) returns (total: nat)
      requires i < |chunks| && chunks[i] == Chunk(header, size, true) && index.size < index.elements.Length
      requires Shape(multiset{header})
      modifies this`chunks, mem, index, index.elements
      ensures Shape(multiset{header}) && index.size <= old(index.size)
      ensures chunks == JoinRight(old(chunks), i)
      ensures i < |chunks| && chunks[i] == Chunk(header, total, true) && size <= total
      ensures SameOutside(old(mem[..]), mem[..], header, header + total)
    {
      hide Shape, Joined, SameOutside;
      var right := header + size;
      var found, rightSize := RightHole(right, i);
      total := size;
      if found {
        total := size + rightSize;
        JoinedAt(chunks, i);
        hide MergeTo, JoinRight;
        RemoveEntry(right, multiset{header});
        Merge(i, header, total);
      } else {
        Unchanged(mem[..], header, header + size);
      }
    }

    /** Gives the pages of a final hole back, except for what the heap has to keep. */
    method CutTail(header: nat, size: nat) returns (rest: nat)
      requires EndsInHole(chunks) && chunks[|chunks| - 1] == Chunk(header, size, true)
      requires Shape(multiset{header})
      modifies this`chunks, this`end, this`mapped, this`freeFrames, mem
      ensures Shape(Holes(HoleIf(header, rest)))
      ensures start <= header && chunks == Cut(old(chunks), start)
      ensures SameOutside(old(mem[..]), mem[..], header, header + size)
      ensures end <= old(end) && end == header + rest
      ensures rest == 0 || OVERHEAD <= rest
      ensures freeFrames * PAGE + end == old(freeFrames * PAGE + end)
    {
      hide Word, Tiles, Span, Holes, ChunkAt, Written, SortedIndex, NoAdjacentHoles, KeptLength, Cut, SameOutside,
           Consistent, HoleIf, Pages;
      ghost var m, cs, oldEnd := mem[..], chunks, end;
      ghost var shorter := TailFacts(m, index.Contents(), cs, start, end);
      var kept := KeptLength(header - start);
      Contract(kept);
      rest := end - header;
      WriteHoleIf(header, rest);
      Compose(m, m, mem[..], header, header, header, header + rest, header, header + size) by {
        Unchanged(m, header, header);
      }
      CutConsistent(m, mem[..], index.Contents(), cs, start, oldEnd, end);
      chunks := shorter;
    }

    method WriteHoleIf(header: nat, rest: nat)
      requires rest == 0 || OVERHEAD <= rest
      requires header + rest < mem.Length == ADDRESS_SPACE
      modifies mem
      ensures Written(mem[..], HoleIf(header, rest))
      ensures SameOutside(old(mem[..]), mem[..], header, header + rest)
    {
      if rest > 0 {
        WriteChunk(Chunk(header, rest, true));
      }
    }

    /** The block at `header` turned into a hole and merged with its neighbours. */
    method Release(header: nat, ghost i: nat) returns (h: nat, total: nat)
      requires Valid() && index.size < index.elements.Length
      requires i < |chunks| && chunks[i].addr == header && !chunks[i].hole
      modifies this`chunks, mem, index, index.elements
      ensures Shape(multiset{h}) && NoAdjacentHoles(chunks) && index.size <= old(index.size)
      ensures chunks == Coalesced(old(chunks), i)
      ensures MergeFrom(old(chunks), i) < |chunks| && chunks[MergeFrom(old(chunks), i)] == Chunk(h, total, true)
      ensures SameOutside(old(mem[..]), mem[..], h, h + total)
    {
      ghost var m, cs := mem[..], chunks;
      BlockFacts(m, index.Contents(), cs, start, end, i);
      var size := LoadWord(mem, header + 8);
      JoinsCoalesce(cs, i);
      CoalescedNoAdjacent(cs, i);
      hide Word, Shape, NoAdjacentHoles, SameOutside, Coalesced, JoinLeft, JoinRight, MergeTo, MergeFrom, Marked;
      MarkHole(header, i);
      ghost var n := mem[..];
      h, total := UnifyLeft(header, size, i);
      ghost var o := mem[..];
      Compose(m, n, o, header, header + size, h, h + total, h, h + total);
      ghost var before := h + total;
      total := UnifyRight(h, total, MergeFrom(cs, i));
      Compose(m, o, mem[..], h, before, h, h + total, h, h + total);
    }

    /** Cuts the heap if the hole is at its end, and indexes what is left of the hole. */
    method Settle(header: nat, total: nat, ghost k: nat)
      requires Shape(multiset{header}) && NoAdjacentHoles(chunks) && index.size < index.elements.Length
      requires k < |chunks| && chunks[k] == Chunk(header, total, true) && start <= header
      modifies this`chunks, this`end, this`mapped, this`freeFrames, mem, index, index.elements
      ensures Valid()
      ensures chunks == Settled(old(chunks), k, start)
      ensures SameOutside(old(mem[..]), mem[..], header, header + total)
      ensures end <= old(end) && index.size <= old(index.size) + 1
      ensures freeFrames * PAGE + end == old(freeFrames * PAGE + end)
    {
      ghost var m, cs := mem[..], chunks;
      Position(m, index.Contents(), cs, start, end, multiset{header}, k);
      hide Word, Tiles, Span, Holes, NoAdjacentHoles, SameOutside, Consistent, Cut, HoleIf, Shape;
      if header + total == end {
        CutNoAdjacent(cs, start);
        var rest := CutTail(header, total);
        HoleIfTiles(header, rest);
        assert multiset{} + multiset{header} == multiset{header};
        if rest > 0 {
          InsertHole(header, multiset{});
        }
      } else {
        assert multiset{} + multiset{header} == multiset{header};
        InsertHole(header, multiset{});
        Unchanged(m, header, header + total);
      }
    }

    /** Gives the block whose payload is at `p` back; a null pointer is ignored. */
    method Free(p: nat)
      requires Valid() && index.size < index.elements.Length
      requires p != 0 ==> HEADER <= p && BlockAt(chunks, p - HEADER)
      modifies this`chunks, this`end, this`mapped, this`freeFrames, mem, index, index.elements
      ensures Valid()
      ensures p == 0 ==> chunks == old(chunks) && mem[..] == old(mem[..])
      ensures p != 0 ==> chunks == Released(old(chunks), Find(old(chunks), p - HEADER), start)
      ensures p != 0 ==> Live(chunks) == Live(old(chunks)) - {old(chunks)[Find(old(chunks), p - HEADER)]}
      ensures p != 0 ==> GivenBack(old(chunks), Find(old(chunks), p - HEADER), start, old(end), end)
      ensures Untouched(old(mem[..]), mem[..], Live(chunks))
      ensures end <= old(end)
      ensures freeFrames * PAGE + end == old(freeFrames * PAGE + end)
      ensures index.size <= old(index.size) + 1
    {
      hide Word, Tiles, Span, NoAdjacentHoles, Untouched, Shape, Live, GivenBack, Released;
      if p == 0 {
        NothingTouched(mem[..], Live(chunks));
        return;
      }
      ghost var cs := chunks;
      ghost var i := Find(cs, p - HEADER);
      TilingFacts();
      LiveReleased(cs, i, start);
      ReleasedGivesBack(cs, i, start);
      FreeBlock(p - HEADER, i);
      TilingFacts();
    }

    /** The block at `header` released, and the hole it becomes settled. */
    method FreeBlock(header: nat, ghost i: nat)
      requires Valid() && index.size < index.elements.Length
      requires i < |chunks| && chunks[i].addr == header && !chunks[i].hole && Tiles(chunks, start)
      modifies this`chunks, this`end, this`mapped, this`freeFrames, mem, index, index.elements
      ensures Valid()
      ensures chunks == Released(old(chunks), i, start)
      ensures Untouched(old(mem[..]), mem[..], Live(chunks))
      ensures end <= old(end)
      ensures freeFrames * PAGE + end == old(freeFrames * PAGE + end)
      ensures index.size <= old(index.size) + 1
    {
      hide Word, Tiles, Span, Holes, NoAdjacentHoles, SameOutside, Untouched, Shape, Live, Coalesced, Settled, Released;
      ghost var m, cs := mem[..], chunks;
      ReleasedIs(cs, i, start);
      CoalescedAt(cs, i);
      var h, total := Release(header, i);
      ghost var n := mem[..];
      Settle(h, total, MergeFrom(cs, i));
      Compose(m, n, mem[..], h, h + total, h, h + total, h, h + total);
      ReleaseUntouched(m, mem[..], cs, i, start);
    }

    lemma TilingFacts()
      requires Valid()
      ensures Tiles(chunks, start) && start + Span(chunks) == end <= max && NoAdjacentHoles(chunks)
    {
    }

    /** The first entry that fits, hence a smallest one; -1 exactly when none fits. */
    method FindSmallestHole(need: nat, align: bool) returns (at: int)
      requires Shape(multiset{})
      ensures -1 <= at < index.size
      ensures at == -1 <==> !TakesSome(chunks, need, align)
      ensures at == -1 <==> !FitsSome(chunks, need, align)
      ensures at >= 0 ==>
                var i := Find(chunks, index.Contents()[at]);
                Chosen(chunks, i, need, align) && chunks[i].addr == index.Contents()[at]
      ensures at >= 0 ==>
                exists d, e: nat :: d in chunks && d.addr == index.Contents()[at] && CanTake(d, e, need, align)
                  && forall c, g: nat :: c in chunks && CanTake(c, g, need, align) ==> d.size <= c.size
    {
      ghost var m, entries := mem[..], index.Contents();
      at := 0;
      while at < index.size
        invariant 0 <= at <= index.size
        invariant forall k :: 0 <= k < at ==> !Fits(entries[k], SizeAt(m, entries[k]), need, align)
      {
        var header := index.GetItemAtIndex(at);
        Indexed(m, entries, chunks, start, end, multiset{}, at);
        Within(chunks, start, chunks[Find(chunks, header)]);
        var size := LoadWord(mem, header + 8);
        if Fits(header, size, need, align) {
          break;
        }
        at := at + 1;
      }
      FirstFitIsBest(m, entries, chunks, start, end, need, align, at);
      FitsSomeExact(chunks, need, align);
      if at < index.size {
        ChosenIsLeast(chunks, Find(chunks, entries[at]), need, align);
      }
      if at == index.size {
        at := -1;
      }
    }
  }

  lemma {:induction false} FirstFitIsBest(m: Bytes, entries: seq<nat>, cs: seq<Chunk>, start: nat, end: nat,
                                          need: nat, align: bool, at: nat)
    requires Consistent(m, entries, cs, start, end, multiset{}) && at <= |entries|
    requires forall k :: 0 <= k < at ==> !Fits(entries[k], SizeAt(m, entries[k]), need, align)
    requires at < |entries| ==> Fits(entries[at], SizeAt(m, entries[at]), need, align)
    ensures at == |entries| <==> !FitsSome(cs, need, align)
    ensures at < |entries| ==>
              var i := Find(cs, entries[at]);
              Chosen(cs, i, need, align) && cs[i].addr == entries[at]
  {
    if at < |entries| {
      Indexed(m, entries, cs, start, end, multiset{}, at);
    }
    forall c | c in cs && c.hole && Fits(c.addr, c.size, need, align)
      ensures at < |entries| && SizeAt(m, entries[at]) <= c.size
    {
      HasEntry(m, entries, cs, start, end, multiset{}, c);
      var k :| 0 <= k < |entries| && entries[k] == c.addr;
      assert at <= k;
      if at < k {
        assert !BySize(m)(entries[k], entries[at]);
      }
    }
  }
}
