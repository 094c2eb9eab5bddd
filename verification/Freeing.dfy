/**
 `Heap::Free` as it is written (kernel/Heap.cpp:156-234): the function it computes on memory, index
 and end, and when exactly the result is a heap again, stale tags next to the heap apart.
 */
module Freeing {
  import opened Memory
  import opened Options
  import opened OrderedLists
  import opened BoundaryTags
  import opened HeapSteps
  import opened RawTags
  import opened HeapAsWritten

  function Mark(m: Bytes, header: int): Bytes {
    if 0 <= header && header + 4 < |m| then m[header + 4 := 1] else m
  }

  predicate GoesLeft(m: Bytes, header: int) {
    ReadWord(m, header - FOOTER) == MAGIC && ReadByte(m, ReadWord(m, header - FOOTER + 4) + 4) == 1
  }

  predicate GoesRight(m: Bytes, right: int) {
    ReadWord(m, right) == MAGIC && ReadByte(m, right + 4) != 0
  }

  /** Memory after marking and joining left, the header the text goes on with, and whether it has joined. */
  function AfterLeft(m: Bytes, header: nat, size: nat): (Bytes, nat, bool) {
    var marked := Mark(m, header);
    if GoesLeft(marked, header) then
      var left := ReadWord(marked, header - FOOTER + 4);
      var n := Write(marked, header + size - FOOTER + 4, left);
      (Write(n, left + 8, ReadWord(n, left + 8) + size), left, true)
    else
      (marked, header, false)
  }

  /** The index after searching for `a` and removing it, if it is there. */
  function Without(index: seq<nat>, a: nat): seq<nat> {
    var k := Search(index, a);
    if k < |index| then Removed(index, k) else index
  }

  /**
   The index after searching for `a` and removing what the search stops at: behind the end that
   drops the last entry, and in an empty index the size wraps and there is no list any more.
   */
  function Taken(index: seq<nat>, a: nat): Option<seq<nat>> {
    var k := Search(index, a);
    if k < |index| then Some(Removed(index, k)) else if index == [] then None else Some(index[..|index| - 1])
  }

  /** Memory and index after joining right, and where the merged hole ends. */
  function AfterRight(m: Bytes, index: seq<nat>, h: nat, right: nat): (Bytes, Option<seq<nat>>, nat) {
    if GoesRight(m, right) then
      var size := ReadWord(m, right + 8);
      (Write(m, h + 8, ReadWord(m, h + 8) + size), Taken(index, right), W32(right + size))
    else
      (m, Some(index), right)
  }

  /** Memory, index and the heap's end after cutting. */
  function AfterCut(m: Bytes, index: Option<seq<nat>>, h: nat, right: nat, start: nat, end: nat): (Bytes, Option<seq<nat>>, nat) {
    var kept := KeptAsWritten(W32(h - start));
    var newEnd := W32(start + kept);
    var rest := W32(ReadWord(m, h + 8) - (end - start - kept));
    if rest > 0 then
      (PutFooter(Write(m, h + 8, rest), W32(h + rest - FOOTER), h), index, newEnd)
    else
      (m, if index.Some? then Some(Without(index.value, right)) else None, newEnd)
  }

  /** Memory, index and the heap's end after `Free` of the block at `header`. */
  function FreeAsWritten(m: Bytes, index: seq<nat>, header: nat, start: nat, end: nat): (Bytes, Option<seq<nat>>, nat) {
    var size := ReadWord(m, header + 8);
    var right := header + size;
    var (n, h, joined) := AfterLeft(m, header, size);
    var (o, rest, top) := AfterRight(n, index, h, right);
    var (p, left, newEnd) := if top == end then AfterCut(o, rest, h, right, start, end) else (o, rest, end);
    (p, if joined then left else WithHole(p, left, h), newEnd)
  }

  function WithHole(m: Bytes, index: Option<seq<nat>>, h: nat): Option<seq<nat>> {
    if index.Some? then Some(Inserted(index.value, h, BySize(m))) else None
  }

  /** The outcome is a heap with exactly these blocks live. */
  ghost predicate Works(freed: (Bytes, Option<seq<nat>>, nat), start: nat, live: set<Chunk>) {
    freed.1.Some? && SoundWith(freed.0, freed.1.value, start, freed.2, live)
  }

  /** The outcome is a heap at all. */
  ghost predicate IsSound(freed: (Bytes, Option<seq<nat>>, nat), start: nat) {
    freed.1.Some? && Sound(freed.0, freed.1.value, start, freed.2)
  }

  lemma WorksIsSound(freed: (Bytes, Option<seq<nat>>, nat), start: nat, live: set<Chunk>)
    requires Works(freed, start, live)
    ensures IsSound(freed, start)
  {
    SoundAtAll(freed.0, freed.1.value, start, freed.2, live);
  }

  /** The two writes of the left join give the merged hole its size and its footer. */
  lemma LeftWrites(m: Bytes, left: Chunk, header: nat, size: nat)
    requires HeaderAt(m, left.addr, left.size, true) && left.addr + left.size == header && OVERHEAD <= size
    requires OVERHEAD <= left.size && FooterAt(m, header + size - FOOTER, header) && header + size < ADDRESS_SPACE
    ensures var n := Write(m, header + size - FOOTER + 4, left.addr);
            var o := Write(n, left.addr + 8, ReadWord(n, left.addr + 8) + size);
            && ChunkAt(o, Chunk(left.addr, left.size + size, true))
            && SameOutside(m, o, left.addr, header + size)
  {
    hide Write, Word, SameOutside, HeaderAt, FooterAt, ReadWord;
    var f := header + size - FOOTER;
    var n := Write(m, f + 4, left.addr);
    FooterWrite(m, f, header, left.addr);
    HeaderFrame(m, n, left.addr, left.size, true, f, f + FOOTER);
    HeaderSize(n, left.addr, left.size, true);
    var o := Write(n, left.addr + 8, left.size + size);
    SizeWrite(n, left.addr, left.size, left.size + size);
    FooterFrame(n, o, f, left.addr, left.addr, left.addr + HEADER);
    Compose(m, n, o, f, f + FOOTER, left.addr, left.addr + HEADER, left.addr, header + size);
  }

  /**
   What lies before the heap looks like the footer of a hole, or of the first block itself, which
   is marked by then.
   */
  predicate StaleFooter(m: Bytes, start: nat) {
    ReadWord(m, start - FOOTER) == MAGIC
    && (ReadWord(m, start - FOOTER + 4) == start || ReadByte(m, ReadWord(m, start - FOOTER + 4) + 4) == 1)
  }

  lemma StaleIsJoined(m: Bytes, start: nat)
    requires FOOTER <= start && start + HEADER <= |m|
    ensures GoesLeft(Mark(m, start), start) <==> StaleFooter(m, start)
  {
    hide Word;
    WordFrame(m, Mark(m, start), start - FOOTER, start + 4, start + 5);
    WordFrame(m, Mark(m, start), start - FOOTER + 4, start + 4, start + 5);
  }

  /** After marking and joining left, the merged chunk is written where it belongs. */
  lemma {:induction false} AfterLeftFacts(m: Bytes, index: seq<nat>, cs: seq<Chunk>, start: nat, end: nat, i: nat)
    requires Consistent(m, index, cs, start, end, multiset{}) && i < |cs| && !cs[i].hole
    requires (i == 0 ==> !StaleFooter(m, start)) && FOOTER <= start && end < ADDRESS_SPACE == |m|
    ensures start <= cs[i].addr && OVERHEAD <= cs[i].size && cs[i].addr + cs[i].size <= end
    ensures ReadWord(m, cs[i].addr + 8) == cs[i].size
    ensures var (n, h, joined) := AfterLeft(m, cs[i].addr, cs[i].size);
            var lo := MergeFrom(cs, i);
            && h == cs[lo].addr && h <= cs[i].addr && (joined <==> lo < i)
            && ChunkAt(n, Chunk(h, cs[i].addr + cs[i].size - h, true))
            && SameOutside(m, n, h, cs[i].addr + cs[i].size)
            && (lo < i ==> h + cs[lo].size == cs[i].addr && OVERHEAD <= cs[lo].size)
  {
    hide Tiles, Span, Holes, SortedIndex, Written, Word, SameOutside, HeaderAt, FooterAt, ReadWord, ReadByte, Write, Mark,
         Consistent, StaleFooter;
    var header, size := cs[i].addr, cs[i].size;
    BlockFacts(m, index, cs, start, end, i);
    Neighbours(m, index, cs, start, end, multiset{}, i);
    BlockTags(m, index, cs, start, end, i);
    HeaderSize(m, header, size, false);
    var marked := Mark(m, header);
    MarkWrites(m, cs[i]);
    if i > 0 {
      var left := cs[i - 1];
      HeaderFrame(m, marked, left.addr, left.size, left.hole, header, header + HEADER);
      FooterFrame(m, marked, header - FOOTER, left.addr, header, header + HEADER);
      FooterReads(marked, header - FOOTER, left.addr);
      HeaderSize(marked, left.addr, left.size, left.hole);
      if left.hole {
        LeftWrites(marked, left, header, size);
        var (n, h, _) := AfterLeft(m, header, size);
        Compose(m, marked, n, header, header + HEADER, h, header + size, h, header + size);
      }
    } else {
      StaleIsJoined(m, start);
    }
  }

  lemma MarkWrites(m: Bytes, c: Chunk)
    requires ChunkAt(m, c)
    ensures ChunkAt(Mark(m, c.addr), c.(hole := true))
    ensures SameOutside(m, Mark(m, c.addr), c.addr, c.addr + HEADER)
    ensures SameOutside(m, Mark(m, c.addr), c.addr, c.addr + c.size)
  {
    MarkTag(m, Mark(m, c.addr), c);
  }

  /**
   With a merged hole whose header is right but whose footer still names another header, no
   tiling fits the tags.
   */
  lemma {:induction false} WrongFooter(m: Bytes, n: Bytes, index: seq<nat>, cs: seq<Chunk>, lo: nat, hi: nat, hole: Chunk,
                                       start: nat, end: nat)
    requires lo < hi <= |cs| && Tiles(cs, start) && start + Span(cs) == end && Written(m, cs)
    requires hole.addr == cs[lo].addr && hole.size == Span(cs[lo..hi]) && OVERHEAD <= hole.size
    requires SameOutside(m, n, hole.addr, hole.addr + hole.size)
    requires HeaderAt(n, hole.addr, hole.size, hole.hole) && !FooterAt(n, hole.addr + hole.size - FOOTER, hole.addr)
    ensures !Sound(n, index, start, end)
  {
    var merged := Replaced(cs, lo, hi, [hole]);
    MergedHeaders(m, n, cs, lo, hi, hole, start);
    forall x ensures !Consistent(n, index, x, start, end, multiset{}) {
      if Consistent(n, index, x, start, end, multiset{}) {
        WalkIsUnique(n, x, merged, start);
        assert merged[lo] == hole;
        hide Written, Word;
        BlockTags(n, index, x, start, end, lo);
      }
    }
  }

  lemma {:induction false} MergedHeaders(m: Bytes, n: Bytes, cs: seq<Chunk>, lo: nat, hi: nat, hole: Chunk, start: nat)
    requires lo < hi <= |cs| && Tiles(cs, start) && Written(m, cs)
    requires hole.addr == cs[lo].addr && hole.size == Span(cs[lo..hi]) && OVERHEAD <= hole.size
    requires SameOutside(m, n, hole.addr, hole.addr + hole.size) && HeaderAt(n, hole.addr, hole.size, hole.hole)
    ensures var merged := Replaced(cs, lo, hi, [hole]);
            && Tiles(merged, start) && Span(merged) == Span(cs)
            && forall c :: c in merged ==> HeaderAt(n, c.addr, c.size, c.hole)
  {
    hide Word, Span, Holes, SameOutside;
    var l, mid, r := cs[..lo], cs[lo..hi], cs[hi..];
    SplitAt(cs, lo, hi, start);
    One(hole);
    SpliceTiles(l, mid, r, start);
    RewriteTiles(l, mid, [hole], r, start);
    SpliceHoles(l, [hole], r);
    WrittenConcat(m, l, mid, r);
    Frame(m, n, l, start, hole.addr, hole.addr + hole.size);
    Frame(m, n, r, hole.addr + hole.size, hole.addr, hole.addr + hole.size);
  }

  lemma FooterUnique(m: Bytes, f: nat, a: nat, b: nat)
    requires FooterAt(m, f, a) && FooterAt(m, f, b)
    ensures a == b
  {
  }

  /** A footer of the right neighbour survives the right join, so the merged hole has none. */
  lemma {:induction false} RightJoin(m: Bytes, n: Bytes, index: seq<nat>, after: seq<nat>, cs: seq<Chunk>, start: nat, end: nat, i: nat, h: nat)
    requires Consistent(m, index, cs, start, end, multiset{}) && end < ADDRESS_SPACE == |m|
    requires i + 1 < |cs| && cs[i + 1].hole && h == cs[MergeFrom(cs, i)].addr && h <= cs[i].addr
    requires ChunkAt(n, Chunk(h, cs[i].addr + cs[i].size - h, true)) && SameOutside(m, n, h, cs[i].addr + cs[i].size)
    requires MergeFrom(cs, i) < i ==> h + cs[i - 1].size == cs[i].addr
    ensures !Sound(Write(n, h + 8, cs[i].addr + cs[i].size - h + cs[i + 1].size), after, start, end)
  {
    hide Tiles, Span, Holes, SortedIndex, Word, SameOutside, HeaderAt, FooterAt, Write, Sound;
    var lo, right := MergeFrom(cs, i), cs[i + 1];
    Neighbours(m, index, cs, start, end, multiset{}, i);
    var e := right.addr + right.size;
    var o := Write(n, h + 8, e - h);
    SizeWrite(n, h, right.addr - h, e - h);
    Compose(m, n, o, h, right.addr, h, h + HEADER, h, right.addr);
    FooterFrame(m, o, e - FOOTER, right.addr, h, right.addr);
    if FooterAt(o, e - FOOTER, h) {
      FooterUnique(o, e - FOOTER, h, right.addr);
    }
    MergedSpan(cs, i);
    Compose(m, n, o, h, right.addr, h, h + HEADER, h, e);
    WrongFooter(m, o, after, cs, lo, i + 2, Chunk(h, e - h, true), start, end);
  }

  lemma {:induction false} Marking(m: Bytes, n: Bytes, index: seq<nat>, cs: seq<Chunk>, start: nat, end: nat, i: nat)
    requires Consistent(m, index, cs, start, end, multiset{}) && NoAdjacentHoles(cs) && i < |cs| && !cs[i].hole
    requires MergeFrom(cs, i) == i && MergeTo(cs, i) == i + 1
    requires ChunkAt(n, Chunk(cs[i].addr, cs[i].size, true)) && SameOutside(m, n, cs[i].addr, cs[i].addr + cs[i].size)
    ensures SoundWith(n, Inserted(index, cs[i].addr, BySize(n)), start, end, Live(cs) - {cs[i]})
  {
    hide Tiles, Span, Holes, SortedIndex, Word, SameOutside, HeaderAt, FooterAt, Consistent, Live, NoAdjacentHoles;
    MarkedMerges(cs, i);
    CoalescedNoAdjacent(cs, i);
    MarkedConsistent(m, n, index, cs, i, start, end);
    TilesOf(m, index, cs, start, end, multiset{});
    LiveMarked(cs, i, start);
    assert multiset{} + multiset{cs[i].addr} == multiset{cs[i].addr};
    PutIn(n, index, cs[i].addr, Marked(cs, i), start, end, multiset{});
    SoundBy(n, Inserted(index, cs[i].addr, BySize(n)), Marked(cs, i), start, end);
  }

  /** With blocks on both sides, marking is all there is to merging. */
  lemma {:induction false} MarkedMerges(cs: seq<Chunk>, i: nat)
    requires i < |cs| && MergeFrom(cs, i) == i && MergeTo(cs, i) == i + 1
    ensures Coalesced(cs, i) == Marked(cs, i)
  {
    assert cs[i..i + 1] == [cs[i]];
    SpanOne(cs[i]);
  }

  lemma {:induction false} LiveMarked(cs: seq<Chunk>, i: nat, start: nat)
    requires i < |cs| && !cs[i].hole && Tiles(cs, start)
    ensures Live(Marked(cs, i)) == Live(cs) - {cs[i]}
  {
    var hole := cs[i].(hole := true);
    assert cs[i..i + 1] == [cs[i]] && Replaced(cs, i, i + 1, [hole]) == Marked(cs, i);
    LiveReplaced(cs, i, i + 1, [hole], start);
    LiveOfHole(hole);
    assert Live([cs[i]]) == {cs[i]};
  }

  /** After a left join alone everything fits, except perhaps the order of the index. */
  lemma {:induction false} LeftJoin(m: Bytes, n: Bytes, index: seq<nat>, cs: seq<Chunk>, start: nat, end: nat, i: nat)
    requires Consistent(m, index, cs, start, end, multiset{}) && 0 < i < |cs| && !cs[i].hole && cs[i - 1].hole
    requires NoAdjacentHoles(cs) && MergeTo(cs, i) == i + 1
    requires cs[i - 1].addr + cs[i - 1].size == cs[i].addr
    requires ChunkAt(n, Chunk(cs[i - 1].addr, cs[i - 1].size + cs[i].size, true))
    requires SameOutside(m, n, cs[i - 1].addr, cs[i].addr + cs[i].size)
    ensures InPlace(m, index, Search(index, cs[i - 1].addr), cs[i - 1].size + cs[i].size) ==>
              SoundWith(n, index, start, end, Live(cs) - {cs[i]})
    ensures Sound(n, index, start, end) ==>
              InPlace(m, index, Search(index, cs[i - 1].addr), cs[i - 1].size + cs[i].size)
  {
    hide Tiles, Span, Holes, SortedIndex, Word, SameOutside, HeaderAt, FooterAt, Written, InPlace, Search, Live, NoAdjacentHoles;
    var left := cs[i - 1];
    var hole := Chunk(left.addr, left.size + cs[i].size, true);
    HasEntry(m, index, cs, start, end, multiset{}, left);
    SearchFinds(index, left.addr);
    var k := Search(index, left.addr);
    LeftJoinTiling(m, n, index, k, cs, start, end, i);
    LeftJoinSizes(m, n, index, k, cs, start, end, i);
    SortedMove(m, n, index, k);
    if SortedIndex(n, index) {
      LiveJoined(cs, i, hole, start);
      JoinedMerges(cs, i);
      CoalescedNoAdjacent(cs, i);
      SoundBy(n, index, Replaced(cs, i - 1, i + 1, [hole]), start, end);
    }
  }

  /** With a hole on the left alone, the left join is all there is to merging. */
  lemma {:induction false} JoinedMerges(cs: seq<Chunk>, i: nat)
    requires 0 < i < |cs| && cs[i - 1].hole && MergeTo(cs, i) == i + 1
    ensures Coalesced(cs, i) == Replaced(cs, i - 1, i + 1, [Chunk(cs[i - 1].addr, cs[i - 1].size + cs[i].size, true)])
  {
    assert cs[i - 1..i + 1] == [cs[i - 1]] + [cs[i]];
    SpanConcat([cs[i - 1]], [cs[i]]);
    SpanOne(cs[i - 1]);
    SpanOne(cs[i]);
  }

  lemma {:induction false} LiveJoined(cs: seq<Chunk>, i: nat, hole: Chunk, start: nat)
    requires 0 < i < |cs| && !cs[i].hole && cs[i - 1].hole && Tiles(cs, start) && hole.hole
    ensures Live(Replaced(cs, i - 1, i + 1, [hole])) == Live(cs) - {cs[i]}
  {
    LiveReplaced(cs, i - 1, i + 1, [hole], start);
    LiveOfHole(hole);
    assert cs[i - 1..i + 1] == [cs[i - 1], cs[i]];
    assert Live([cs[i - 1], cs[i]]) == {cs[i]};
  }

  lemma {:induction false} LeftJoinTiling(m: Bytes, n: Bytes, index: seq<nat>, k: nat, cs: seq<Chunk>, start: nat, end: nat, i: nat)
    requires Consistent(m, index, cs, start, end, multiset{}) && 0 < i < |cs| && !cs[i].hole && cs[i - 1].hole
    requires cs[i - 1].addr + cs[i - 1].size == cs[i].addr && k < |index| && index[k] == cs[i - 1].addr
    requires ChunkAt(n, Chunk(cs[i - 1].addr, cs[i - 1].size + cs[i].size, true))
    requires SameOutside(m, n, cs[i - 1].addr, cs[i].addr + cs[i].size)
    ensures var joined := Replaced(cs, i - 1, i + 1, [Chunk(cs[i - 1].addr, cs[i - 1].size + cs[i].size, true)]);
            && Tiles(joined, start) && start + Span(joined) == end && Written(n, joined)
            && multiset(index) + multiset{} == Holes(joined)
  {
    hide Word, SameOutside, ChunkAt, SortedIndex, Written, Tiles, Span, Holes;
    var left := cs[i - 1];
    var hole := Chunk(left.addr, left.size + cs[i].size, true);
    var mid := cs[i - 1..i + 1];
    Within(cs, start, left);
    Within(cs, start, cs[i]);
    assert mid == [left] + [cs[i]];
    One(left);
    One(cs[i]);
    One(hole);
    SpanConcat([left], [cs[i]]);
    HolesConcat([left], [cs[i]]);
    TakeOut(m, index, k, cs, start, end, multiset{});
    assert multiset{} + multiset{left.addr} == multiset{left.addr} == Holes(mid);
    OneWritten(n, hole);
    ReplacedConsistent(m, n, Removed(index, k), cs, i - 1, i + 1, [hole], start, end);
    RemoveSorts(index, k, BySize(m));
    assert left.addr in multiset(index);
  }

  lemma {:induction false} LeftJoinSizes(m: Bytes, n: Bytes, index: seq<nat>, k: nat, cs: seq<Chunk>, start: nat, end: nat, i: nat)
    requires Consistent(m, index, cs, start, end, multiset{}) && 0 < i < |cs| && !cs[i].hole && cs[i - 1].hole
    requires cs[i - 1].addr + cs[i - 1].size == cs[i].addr && k < |index| && index[k] == cs[i - 1].addr
    requires ChunkAt(n, Chunk(cs[i - 1].addr, cs[i - 1].size + cs[i].size, true))
    requires SameOutside(m, n, cs[i - 1].addr, cs[i].addr + cs[i].size)
    ensures SizeAt(n, index[k]) == cs[i - 1].size + cs[i].size && SizeAt(m, index[k]) <= SizeAt(n, index[k])
    ensures forall j :: 0 <= j < |index| && j != k ==> SizeAt(n, index[j]) == SizeAt(m, index[j])
  {
    hide Word, SameOutside, SortedIndex, Tiles, Span, Holes;
    var left := cs[i - 1];
    HasEntry(m, index, cs, start, end, multiset{}, left);
    HeaderSize(n, left.addr, left.size + cs[i].size, true);
    forall j | 0 <= j < |index| && j != k ensures SizeAt(n, index[j]) == SizeAt(m, index[j]) {
      EntryOnce(m, index, cs, start, end, j, k);
      Indexed(m, index, cs, start, end, multiset{}, j);
      var c := cs[Find(cs, index[j])];
      assert c != left && c != cs[i];
      Disjoint(cs, start, c, left);
      Disjoint(cs, start, c, cs[i]);
      Within(cs, start, c);
      ChunkFrame(m, n, c, left.addr, cs[i].addr + cs[i].size);
    }
  }

  // Freeing a block in the middle of the heap: nothing is cut.

  /** Which of its paths the text takes, told by the tags on the right. */
  lemma FreeInside(m: Bytes, n: Bytes, index: seq<nat>, right: Chunk, header: nat, size: nat, h: nat, start: nat, end: nat)
    requires AfterLeft(m, header, size) == (n, h, h != header) && ReadWord(m, header + 8) == size
    requires right.addr == header + size && ChunkAt(m, right) && SameOutside(m, n, h, right.addr) && end < ADDRESS_SPACE
    requires h <= header && ChunkAt(n, Chunk(h, right.addr - h, true)) && right.addr + (if right.hole then right.size else 0) < end
    ensures var (o, after, newEnd) := FreeAsWritten(m, index, header, start, end);
            && newEnd == end
            && if right.hole then o == Write(n, h + 8, right.addr - h + right.size)
               else o == n && after == Some(if h == header then Inserted(index, h, BySize(n)) else index)
  {
    hide Word, SameOutside, HeaderAt, FooterAt, ReadWord, ReadByte, Write, AfterLeft, AfterCut, Taken, Inserted;
    HeaderFrame(m, n, right.addr, right.size, right.hole, h, right.addr);
    HeaderSize(n, right.addr, right.size, right.hole);
    HeaderSize(n, h, right.addr - h, true);
  }

  /**
   Inside the heap, freeing works exactly if there is no hole on the right, and a hole on the left
   keeps its place in the index; otherwise what is left is no heap at all.
   */
  lemma {:induction false} FreeInsideExact(m: Bytes, index: seq<nat>, cs: seq<Chunk>, start: nat, end: nat, i: nat)
    requires Consistent(m, index, cs, start, end, multiset{}) && NoAdjacentHoles(cs)
    requires (i == 0 ==> !StaleFooter(m, start)) && FOOTER <= start && end < ADDRESS_SPACE == |m|
    requires i < |cs| && !cs[i].hole && MergeTo(cs, i) < |cs|
    ensures InsideWorks(m, index, cs, i) ==> Works(FreeAsWritten(m, index, cs[i].addr, start, end), start, Live(cs) - {cs[i]})
    ensures IsSound(FreeAsWritten(m, index, cs[i].addr, start, end), start) ==> InsideWorks(m, index, cs, i)
  {
    hide Tiles, Span, Holes, SortedIndex, Written, Word, SameOutside, HeaderAt, FooterAt, ReadWord, ReadByte, Write,
         AfterLeft, AfterRight, AfterCut, Consistent, Sound, SoundWith, InPlace, Search, Inserted, StaleFooter, Live, NoAdjacentHoles;
    var header, size := cs[i].addr, cs[i].size;
    var (n, h, joined) := AfterLeft(m, header, size);
    AfterLeftFacts(m, index, cs, start, end, i);
    Neighbours(m, index, cs, start, end, multiset{}, i);
    Neighbours(m, index, cs, start, end, multiset{}, i + 1);
    FreeInside(m, n, index, cs[i + 1], header, size, h, start, end);
    var (o, after, newEnd) := FreeAsWritten(m, index, header, start, end);
    hide FreeAsWritten, ChunkAt;
    if cs[i + 1].hole {
      if after.Some? {
        RightJoin(m, n, index, after.value, cs, start, end, i, h);
      }
    } else if MergeFrom(cs, i) == i {
      Marking(m, n, index, cs, start, end, i);
    } else {
      LeftJoin(m, n, index, cs, start, end, i);
    }
  }

  predicate InsideWorks(m: Bytes, index: seq<nat>, cs: seq<Chunk>, i: nat)
    requires i < |cs| && !cs[i].hole && MergeTo(cs, i) < |cs|
  {
    && !cs[i + 1].hole
    && (MergeFrom(cs, i) < i ==> InPlace(m, index, Search(index, cs[i - 1].addr), cs[i - 1].size + cs[i].size))
  }

  // Freeing a block whose merged hole reaches the heap's end, which is then cut.

  lemma RightFrame(m: Bytes, n: Bytes, a: nat, lo: nat, hi: nat)
    requires SameOutside(m, n, lo, hi) && hi <= a
    ensures GoesRight(n, a) == GoesRight(m, a) && ReadWord(n, a + 8) == ReadWord(m, a + 8)
  {
  }

  lemma TakenFound(index: seq<nat>, a: nat)
    requires a in index
    ensures Taken(index, a) == Some(Without(index, a))
  {
  }

  /** Memory and index before the cut, when the merged hole is the last chunk. */
  lemma {:induction false} BeforeCut(m: Bytes, index: seq<nat>, cs: seq<Chunk>, start: nat, end: nat, i: nat)
    requires Consistent(m, index, cs, start, end, multiset{})
    requires (i == 0 ==> !StaleFooter(m, start)) && FOOTER <= start && end < ADDRESS_SPACE == |m|
    requires i < |cs| && !cs[i].hole && MergeTo(cs, i) == |cs| && (i + 1 == |cs| ==> !GoesRight(m, end))
    ensures ReadWord(m, cs[i].addr + 8) == cs[i].size
    ensures var h, right := cs[MergeFrom(cs, i)].addr, cs[i].addr + cs[i].size;
            var (n, h', joined) := AfterLeft(m, cs[i].addr, cs[i].size);
            var (o, rest, top) := AfterRight(n, index, h, right);
            && h' == h && joined == (MergeFrom(cs, i) < i) && start <= h && h + OVERHEAD <= end && top == end
            && HeaderAt(o, h, end - h, true) && SameOutside(m, o, h, end)
            && rest == Some(if i + 1 < |cs| then Without(index, cs[i + 1].addr) else index)
  {
    hide Tiles, Span, Holes, SortedIndex, Written, Word, SameOutside, HeaderAt, FooterAt, ReadWord, ReadByte, Write,
         AfterLeft, Consistent, Without, Taken, StaleFooter;
    AfterLeftFacts(m, index, cs, start, end, i);
    Neighbours(m, index, cs, start, end, multiset{}, i);
    Neighbours(m, index, cs, start, end, multiset{}, MergeFrom(cs, i));
    var (n, h, _) := AfterLeft(m, cs[i].addr, cs[i].size);
    var right := cs[i].addr + cs[i].size;
    HeaderSize(n, h, right - h, true);
    if i + 1 < |cs| {
      var next := cs[i + 1];
      Neighbours(m, index, cs, start, end, multiset{}, i + 1);
      HeaderFrame(m, n, next.addr, next.size, next.hole, h, right);
      HeaderSize(n, next.addr, next.size, next.hole);
      HasEntry(m, index, cs, start, end, multiset{}, next);
      TakenFound(index, next.addr);
      var o := Write(n, h + 8, end - h);
      SizeWrite(n, h, right - h, end - h);
      Compose(m, n, o, h, right, h, h + HEADER, h, end);
    } else {
      RightFrame(m, n, right, h, right);
    }
  }

  /** The index without the hole on the right, which is then out of it. */
  lemma {:induction false} RightTaken(m: Bytes, index: seq<nat>, cs: seq<Chunk>, start: nat, end: nat, i: nat)
    requires Consistent(m, index, cs, start, end, multiset{}) && i < |cs| && MergeTo(cs, i) == |cs|
    ensures Consistent(m, if i + 1 < |cs| then Without(index, cs[i + 1].addr) else index, cs, start, end, Holes(cs[i + 1..]))
  {
    hide Tiles, Span, SortedIndex, Written, Word, Search, Consistent;
    if i + 1 < |cs| {
      var next := cs[i + 1];
      HasEntry(m, index, cs, start, end, multiset{}, next);
      SearchFinds(index, next.addr);
      TakeOut(m, index, Search(index, next.addr), cs, start, end, multiset{});
      assert cs[i + 1..] == [next];
      Neighbours(m, index, cs, start, end, multiset{}, i + 1);
      One(next);
      assert multiset{} + multiset{next.addr} == multiset{next.addr};
    } else {
      assert cs[i + 1..] == [];
    }
  }

  /** A cut that leaves room for the tags writes a chunk up to the minimum length. */
  lemma CutFits(m: Bytes, o: Bytes, index: Option<seq<nat>>, h: nat, right: nat, start: nat, end: nat)
    requires FOOTER <= start <= h && h + OVERHEAD <= start + MIN_SIZE <= end < ADDRESS_SPACE == |m|
    requires HeaderAt(o, h, end - h, true) && SameOutside(m, o, h, end)
    ensures var (p, rest, newEnd) := AfterCut(o, index, h, right, start, end);
            && rest == index && newEnd == start + MIN_SIZE
            && ChunkAt(p, Chunk(h, newEnd - h, true)) && SameOutside(m, p, h, end)
  {
    assert |o| == |m|;
    CutWrites(o, index, h, right, start, end);
    hide Write, PutFooter, Word, SameOutside, HeaderAt, FooterAt, ReadWord, AfterCut;
    var newEnd := start + MIN_SIZE;
    SizeAndFooter(o, h, end - h, newEnd - h);
    var p := AfterCut(o, index, h, right, start, end).0;
    Compose(m, o, p, h, end, h, newEnd, h, end);
  }

  /** Below the minimum length the cut goes to exactly that, and the hole is written up to there. */
  lemma CutWrites(o: Bytes, index: Option<seq<nat>>, h: nat, right: nat, start: nat, end: nat)
    requires start <= h < start + MIN_SIZE <= end < ADDRESS_SPACE && FOOTER <= start
    requires HeaderAt(o, h, end - h, true)
    ensures var newEnd := start + MIN_SIZE;
            AfterCut(o, index, h, right, start, end)
            == (PutFooter(Write(o, h + 8, newEnd - h), newEnd - FOOTER, h), index, newEnd)
  {
    hide Write, PutFooter, Word, HeaderAt, ReadWord, KeptAsWritten, W32;
    HeaderSize(o, h, end - h, true);
    KeptShort(h - start);
  }

  lemma KeptShort(offset: nat)
    requires offset < MIN_SIZE
    ensures KeptAsWritten(offset) == MIN_SIZE
  {
  }

  /** Even a cut that leaves less than the tags need writes at most into the footer before. */
  lemma CutShort(m: Bytes, o: Bytes, index: Option<seq<nat>>, h: nat, right: nat, start: nat, end: nat)
    requires FOOTER <= start <= h < start + MIN_SIZE <= end < ADDRESS_SPACE == |m|
    requires HeaderAt(o, h, end - h, true) && SameOutside(m, o, h, end) && h + OVERHEAD <= end
    ensures var (p, rest, newEnd) := AfterCut(o, index, h, right, start, end);
            rest == index && newEnd == start + MIN_SIZE && SameOutside(m, p, h - FOOTER, |m|)
  {
    assert |o| == |m|;
    CutWrites(o, index, h, right, start, end);
    hide Write, PutFooter, Word, SameOutside, HeaderAt, FooterAt, ReadWord, AfterCut;
    var newEnd := start + MIN_SIZE;
    var rest, f := newEnd - h, newEnd - FOOTER;
    var n := Write(o, h + 8, rest);
    WriteFacts(o, h + 8, rest);
    PutFooterWrites(n, f, h);
    Compose(m, o, n, h, end, h + 8, h + 12, h - FOOTER, |m|);
    Compose(m, n, PutFooter(n, f, h), h - FOOTER, |m|, f, f + FOOTER, h - FOOTER, |m|);
  }

  /** Too little room behind the chunks before the hole: no tiling fits. */
  lemma {:induction false} NoRoom(p: Bytes, after: seq<nat>, l: seq<Chunk>, start: nat, newEnd: nat)
    requires Tiles(l, start) && (forall c :: c in l ==> HeaderAt(p, c.addr, c.size, c.hole))
    requires start + Span(l) < newEnd < start + Span(l) + OVERHEAD
    ensures !Sound(p, after, start, newEnd)
  {
    hide Word, Holes, SortedIndex, HeaderAt, FooterAt;
    forall x ensures !Consistent(p, after, x, start, newEnd, multiset{}) {
      if Consistent(p, after, x, start, newEnd, multiset{}) {
        NoRoomFor(p, x, l, start);
      }
    }
  }

  lemma {:induction false} NoRoomFor(p: Bytes, x: seq<Chunk>, l: seq<Chunk>, start: nat)
    requires Tiles(x, start) && Tiles(l, start) && Written(p, x)
    requires forall c :: c in l ==> HeaderAt(p, c.addr, c.size, c.hole)
    requires Span(l) < Span(x)
    ensures Span(l) + OVERHEAD <= Span(x)
  {
    PrefixWalk(p, x, l, start);
    var r := x[|l|..];
    assert x == l + r;
    TilesConcat(l, r, start);
    SpanConcat(l, r);
    if r != [] {
      Within(r, start + Span(l), r[0]);
    }
  }

  /** An entry that does not lie below the heap's end is no hole of it. */
  lemma {:induction false} Beyond(p: Bytes, after: seq<nat>, h: nat, start: nat, newEnd: nat)
    requires h in after && newEnd <= h
    ensures !Sound(p, after, start, newEnd)
  {
    forall x ensures !Consistent(p, after, x, start, newEnd, multiset{}) {
      if Consistent(p, after, x, start, newEnd, multiset{}) {
        assert h in multiset(after);
        HolesOnce(x, start, h);
      }
    }
  }

  lemma StaysIn(index: seq<nat>, a: nat, h: nat)
    requires h in index && a != h
    ensures h in Without(index, a)
  {
    hide Search;
    var k := Search(index, a);
    if k < |index| {
      RemoveSorts(index, k, (x, y) => false);
      assert h in multiset(index) - multiset{a};
    }
  }

  /** What is written after the cut fits, except perhaps the order of the index. */
  lemma {:induction false} CutSound(m: Bytes, p: Bytes, index: seq<nat>, cs: seq<Chunk>, start: nat, end: nat, i: nat, newEnd: nat)
    requires i < |cs| && !cs[i].hole && MergeTo(cs, i) == |cs| && Consistent(m, index, cs, start, end, Holes(cs[i + 1..]))
    requires NoAdjacentHoles(cs)
    requires var h := cs[MergeFrom(cs, i)].addr;
             h + OVERHEAD <= newEnd && ChunkAt(p, Chunk(h, newEnd - h, true)) && SameOutside(m, p, h, end)
    requires MergeFrom(cs, i) < i ==> cs[i - 1].addr !in Holes(cs[i + 1..])
    ensures var h := cs[MergeFrom(cs, i)].addr;
            var after := if MergeFrom(cs, i) < i then index else Inserted(index, h, BySize(p));
            var inPlace := MergeFrom(cs, i) < i ==> InPlace(m, index, Search(index, h), newEnd - h);
            && (inPlace ==> SoundWith(p, after, start, newEnd, Live(cs) - {cs[i]}))
            && (Sound(p, after, start, newEnd) ==> inPlace)
  {
    hide Tiles, Span, Holes, SortedIndex, Word, SameOutside, HeaderAt, FooterAt, Written, InPlace, Search, Consistent, Sound,
         SoundWith, Live, Inserted, NoAdjacentHoles;
    TilesOf(m, index, cs, start, end, Holes(cs[i + 1..]));
    LiveBefore(cs, i, start);
    TailNoAdjacent(cs, i, newEnd);
    if MergeFrom(cs, i) == i {
      CutAlone(m, p, index, cs, start, end, i, newEnd);
    } else {
      CutLeft(m, p, index, cs, start, end, i, newEnd);
    }
  }

  /** Of the last chunks that merge, the freed one alone was live. */
  lemma {:induction false} LiveBefore(cs: seq<Chunk>, i: nat, start: nat)
    requires i < |cs| && !cs[i].hole && MergeTo(cs, i) == |cs| && Tiles(cs, start)
    ensures Live(cs[..MergeFrom(cs, i)]) == Live(cs) - {cs[i]}
  {
    var lo := MergeFrom(cs, i);
    LiveReplaced(cs, lo, |cs|, [], start);
    LiveMerged(cs, i);
    assert Replaced(cs, lo, |cs|, []) == cs[..lo] && Live([]) == {};
  }

  /** A hole behind the chunks before the merged one has no hole next to it. */
  lemma {:induction false} TailNoAdjacent(cs: seq<Chunk>, i: nat, newEnd: nat)
    requires i < |cs| && !cs[i].hole && NoAdjacentHoles(cs)
    ensures var lo := MergeFrom(cs, i);
            NoAdjacentHoles(cs[..lo]) && NoAdjacentHoles(cs[..lo] + [Chunk(cs[lo].addr, if cs[lo].addr < newEnd then newEnd - cs[lo].addr else 0, true)])
  {
    var lo := MergeFrom(cs, i);
    var hole := Chunk(cs[lo].addr, if cs[lo].addr < newEnd then newEnd - cs[lo].addr else 0, true);
    assert cs == cs[..lo] + cs[lo..];
    NoAdjacentConcat(cs[..lo], cs[lo..]);
    NoAdjacentConcat(cs[..lo], [hole]);
    if 0 < lo < i {
      HoleNeighbours(cs, lo - 1);
    }
  }

  lemma {:induction false} CutAlone(m: Bytes, p: Bytes, index: seq<nat>, cs: seq<Chunk>, start: nat, end: nat, i: nat, newEnd: nat)
    requires i < |cs| && !cs[i].hole && Consistent(m, index, cs, start, end, Holes(cs[i + 1..]))
    requires var h := cs[i].addr; h + OVERHEAD <= newEnd && ChunkAt(p, Chunk(h, newEnd - h, true)) && SameOutside(m, p, h, end)
    requires NoAdjacentHoles(cs[..i] + [Chunk(cs[i].addr, newEnd - cs[i].addr, true)])
    ensures SoundWith(p, Inserted(index, cs[i].addr, BySize(p)), start, newEnd, Live(cs[..i]))
  {
    hide Tiles, Span, Holes, SortedIndex, Word, ChunkAt, SameOutside, Written, Consistent, Inserted, Live, SoundWith, NoAdjacentHoles;
    HolesBehind(cs, i);
    var h := cs[i].addr;
    TailRewritten(m, p, index, cs, i, start, end, newEnd, end);
    assert multiset{} + multiset{h} == multiset{h};
    PutIn(p, index, h, cs[..i] + [Chunk(h, newEnd - h, true)], start, newEnd, multiset{});
    SoundBy(p, Inserted(index, h, BySize(p)), cs[..i] + [Chunk(h, newEnd - h, true)], start, newEnd);
  }

  lemma {:induction false} HolesBehind(cs: seq<Chunk>, i: nat)
    requires i < |cs| && !cs[i].hole
    ensures Holes(cs[i..]) == Holes(cs[i + 1..])
  {
    assert cs[i..] == [cs[i]] + cs[i + 1..];
    assert Holes(cs[i..]) == multiset{} + Holes(cs[i + 1..]);
  }

  lemma {:induction false} CutLeft(m: Bytes, p: Bytes, index: seq<nat>, cs: seq<Chunk>, start: nat, end: nat, i: nat, newEnd: nat)
    requires 0 < i < |cs| && !cs[i].hole && cs[i - 1].hole && Consistent(m, index, cs, start, end, Holes(cs[i + 1..]))
    requires cs[i - 1].addr !in Holes(cs[i + 1..])
    requires cs[i - 1].addr < newEnd && NoAdjacentHoles(cs[..i - 1] + [Chunk(cs[i - 1].addr, newEnd - cs[i - 1].addr, true)])
    requires var h := cs[i - 1].addr; h + OVERHEAD <= newEnd && ChunkAt(p, Chunk(h, newEnd - h, true)) && SameOutside(m, p, h, end)
    ensures InPlace(m, index, Search(index, cs[i - 1].addr), newEnd - cs[i - 1].addr) ==>
              SoundWith(p, index, start, newEnd, Live(cs[..i - 1]))
    ensures Sound(p, index, start, newEnd) ==> InPlace(m, index, Search(index, cs[i - 1].addr), newEnd - cs[i - 1].addr)
  {
    hide Tiles, Span, Holes, Word, ChunkAt, SameOutside, Written, InPlace, Search, Consistent, SortedIndex, Sound, Removed, Live,
         NoAdjacentHoles;
    var h, more := cs[i - 1].addr, Holes(cs[i + 1..]);
    HolesFrom(cs, i);
    HasEntry(m, index, cs, start, end, more, cs[i - 1]);
    SearchFinds(index, h);
    var k := Search(index, h);
    TakeOut(m, index, k, cs, start, end, more);
    IndexSorted(m, index, cs, start, end, more);
    TailRewritten(m, p, Removed(index, k), cs, i - 1, start, end, newEnd, end);
    var hole := Chunk(h, newEnd - h, true);
    var after := cs[..i - 1] + [hole];
    assert multiset{} + multiset{h} == multiset{h};
    assert after[i - 1] == hole;
    BackIn(m, p, index, k, after, hole, start, newEnd, multiset{});
    OrderDecides(p, index, after, start, newEnd);
  }

  lemma {:induction false} HolesFrom(cs: seq<Chunk>, i: nat)
    requires 0 < i < |cs| && !cs[i].hole && cs[i - 1].hole
    ensures Holes(cs[i + 1..]) + multiset{cs[i - 1].addr} == Holes(cs[i - 1..])
  {
    assert cs[i - 1..] == [cs[i - 1]] + cs[i..];
    HolesBehind(cs, i);
  }

  /** The merged hole's address is none of the holes further right. */
  lemma {:induction false} LeftOfAll(m: Bytes, index: seq<nat>, cs: seq<Chunk>, start: nat, end: nat, i: nat)
    requires Consistent(m, index, cs, start, end, multiset{}) && i < |cs| && MergeTo(cs, i) == |cs|
    ensures MergeFrom(cs, i) < i ==> cs[i - 1].addr < cs[i].addr && cs[i - 1].addr !in Holes(cs[i + 1..])
  {
    hide Word, Written, SortedIndex, Span;
    Neighbours(m, index, cs, start, end, multiset{}, i);
    if i + 1 < |cs| {
      Neighbours(m, index, cs, start, end, multiset{}, i + 1);
      assert cs[i + 1..] == [cs[i + 1]];
      One(cs[i + 1]);
    }
  }

  lemma {:induction false} PrefixHeaders(m: Bytes, p: Bytes, index: seq<nat>, cs: seq<Chunk>, start: nat, end: nat, lo: nat)
    requires Consistent(m, index, cs, start, end, multiset{}) && lo < |cs|
    requires FOOTER <= cs[lo].addr && SameOutside(m, p, cs[lo].addr - FOOTER, |m|)
    ensures Tiles(cs[..lo], start) && start + Span(cs[..lo]) == cs[lo].addr
    ensures forall c :: c in cs[..lo] ==> HeaderAt(p, c.addr, c.size, c.hole)
  {
    hide Word, SortedIndex, Span, Holes, HeaderAt, FooterAt, SameOutside;
    var l := cs[..lo];
    SplitAt(cs, lo, |cs|, start);
    assert cs == l + cs[lo..];
    TilesConcat(l, cs[lo..], start);
    forall c | c in l ensures HeaderAt(p, c.addr, c.size, c.hole) {
      assert ChunkAt(m, c);
      Within(l, start, c);
      HeaderFrame(m, p, c.addr, c.size, c.hole, cs[lo].addr - FOOTER, |m|);
    }
  }

  /** From the minimum length on, the heap is cut so far that the hole is gone. */
  lemma CutAway(m: Bytes, index: Option<seq<nat>>, h: nat, right: nat, start: nat, end: nat)
    requires start + MIN_SIZE <= h < ADDRESS_SPACE
    ensures var (p, rest, newEnd) := AfterCut(m, index, h, right, start, end);
            && newEnd == start + KeptAsWritten(h - start) <= h
            && (rest == index || (index.Some? && rest == Some(Without(index.value, right))))
  {
    hide Without, PutFooter, Write, ReadWord;
  }

  /** A hole on the left stays in the index when the one on the right is taken out. */
  lemma {:induction false} StillIn(m: Bytes, index: seq<nat>, cs: seq<Chunk>, start: nat, end: nat, i: nat)
    requires Consistent(m, index, cs, start, end, multiset{}) && i < |cs|
    ensures OVERHEAD <= cs[i].size && start <= cs[i].addr && cs[i].addr + cs[i].size <= end
    ensures MergeFrom(cs, i) < i ==>
              && cs[i - 1].addr < cs[i].addr
              && cs[i - 1].addr in (if i + 1 < |cs| then Without(index, cs[i + 1].addr) else index)
  {
    hide Word, Written, SortedIndex, Span, Tiles, Holes, Without;
    Neighbours(m, index, cs, start, end, multiset{}, i);
    if MergeFrom(cs, i) < i {
      HasEntry(m, index, cs, start, end, multiset{}, cs[i - 1]);
      if i + 1 < |cs| {
        StaysIn(index, cs[i + 1].addr, cs[i - 1].addr);
      }
    }
  }

  /**
   At the heap's end, freeing works exactly if the merged hole starts early enough below the
   minimum length to keep room for its tags, and a hole on the left keeps its place in the index.
   */
  lemma {:induction false} FreeAtEndExact(m: Bytes, index: seq<nat>, cs: seq<Chunk>, start: nat, end: nat, i: nat)
    requires Consistent(m, index, cs, start, end, multiset{}) && NoAdjacentHoles(cs)
    requires (i == 0 ==> !StaleFooter(m, start)) && FOOTER <= start && start + MIN_SIZE <= end < ADDRESS_SPACE == |m|
    requires i < |cs| && !cs[i].hole && MergeTo(cs, i) == |cs| && (i + 1 == |cs| ==> !GoesRight(m, end))
    ensures EndWorks(m, index, cs, start, i) ==> Works(FreeAsWritten(m, index, cs[i].addr, start, end), start, Live(cs) - {cs[i]})
    ensures IsSound(FreeAsWritten(m, index, cs[i].addr, start, end), start) ==> EndWorks(m, index, cs, start, i)
  {
    hide Tiles, Span, Holes, SortedIndex, Written, Word, SameOutside, HeaderAt, FooterAt, ReadWord, ReadByte, Write, StaleFooter,
         AfterLeft, AfterRight, AfterCut, Consistent, Sound, SoundWith, InPlace, Search, Without, FreeAsWritten, Inserted, Live, GoesRight,
         NoAdjacentHoles;
    var h, right := cs[MergeFrom(cs, i)].addr, cs[i].addr + cs[i].size;
    var o, rest := FreeAtEnd(m, index, cs, start, end, i);
    StillIn(m, index, cs, start, end, i);
    if h + OVERHEAD <= start + MIN_SIZE {
      CutFits(m, o, Some(rest), h, right, start, end);
      RightTaken(m, index, cs, start, end, i);
      LeftOfAll(m, index, cs, start, end, i);
      CutSound(m, AfterCut(o, Some(rest), h, right, start, end).0, rest, cs, start, end, i, start + MIN_SIZE);
    } else if h < start + MIN_SIZE {
      CutShort(m, o, Some(rest), h, right, start, end);
      var (p, after, newEnd) := FreeAsWritten(m, index, cs[i].addr, start, end);
      PrefixHeaders(m, p, index, cs, start, end, MergeFrom(cs, i));
      NoRoom(p, after.value, cs[..MergeFrom(cs, i)], start, newEnd);
    } else {
      CutGone(o, rest, h, right, start, end, MergeFrom(cs, i) < i);
      var (p, after, newEnd) := FreeAsWritten(m, index, cs[i].addr, start, end);
      Beyond(p, after.value, h, start, newEnd);
    }
  }

  predicate EndWorks(m: Bytes, index: seq<nat>, cs: seq<Chunk>, start: nat, i: nat)
    requires i < |cs| && !cs[i].hole
  {
    var h := cs[MergeFrom(cs, i)].addr;
    var rest := if i + 1 < |cs| then Without(index, cs[i + 1].addr) else index;
    && h + OVERHEAD <= start + MIN_SIZE
    && (MergeFrom(cs, i) < i ==> InPlace(m, rest, Search(rest, h), start + MIN_SIZE - h))
  }

  /** What freeing does when the merged hole is the last chunk: cut, then insert. */
  lemma {:induction false} FreeAtEnd(m: Bytes, index: seq<nat>, cs: seq<Chunk>, start: nat, end: nat, i: nat)
    returns (o: Bytes, rest: seq<nat>)
    requires Consistent(m, index, cs, start, end, multiset{})
    requires (i == 0 ==> !StaleFooter(m, start)) && FOOTER <= start && end < ADDRESS_SPACE == |m|
    requires i < |cs| && !cs[i].hole && MergeTo(cs, i) == |cs| && (i + 1 == |cs| ==> !GoesRight(m, end))
    ensures rest == if i + 1 < |cs| then Without(index, cs[i + 1].addr) else index
    ensures var h, right := cs[MergeFrom(cs, i)].addr, cs[i].addr + cs[i].size;
            && start <= h && h + OVERHEAD <= end
            && HeaderAt(o, h, end - h, true) && SameOutside(m, o, h, end)
            && var (p, left, newEnd) := AfterCut(o, Some(rest), h, right, start, end);
               FreeAsWritten(m, index, cs[i].addr, start, end)
               == (p, if MergeFrom(cs, i) < i then left else WithHole(p, left, h), newEnd)
  {
    hide Tiles, Span, Holes, SortedIndex, Written, Word, SameOutside, HeaderAt, FooterAt, ReadWord, ReadByte, Write,
         AfterLeft, AfterRight, AfterCut, Consistent, Without, WithHole, StaleFooter, GoesRight;
    BeforeCut(m, index, cs, start, end, i);
    var h, right := cs[MergeFrom(cs, i)].addr, cs[i].addr + cs[i].size;
    var (n, _, _) := AfterLeft(m, cs[i].addr, cs[i].size);
    var (o', rest', _) := AfterRight(n, index, h, right);
    o, rest := o', rest'.value;
  }

  /** After a cut that leaves nothing of the hole, its entry is in the index all the same. */
  lemma CutGone(o: Bytes, index: seq<nat>, h: nat, right: nat, start: nat, end: nat, joined: bool)
    requires start + MIN_SIZE <= h < ADDRESS_SPACE && (joined ==> h in index && h != right)
    ensures var (p, left, newEnd) := AfterCut(o, Some(index), h, right, start, end);
            left.Some? && newEnd <= h && h in if joined then left.value else Inserted(left.value, h, BySize(p))
  {
    hide Without, Inserted, AfterCut, Search, KeptAsWritten;
    CutAway(o, Some(index), h, right, start, end);
    var (p, left, newEnd) := AfterCut(o, Some(index), h, right, start, end);
    if joined {
      StaysIn(index, right, h);
    } else {
      GoesIn(left.value, h, BySize(p));
    }
  }
}
