/**
 What the heap's operations do to the tiling: carving a block out of a hole, coalescing a
 freed block with its neighbours, growing and cutting the end (kernel/Heap.cpp:36-311).
 `Heaps.Heap` is proved to take exactly these steps.
 */
module HeapSteps {
  import opened Memory
  import opened OrderedLists
  import opened BoundaryTags

  const MIN_SIZE: nat := 0x70000

  // ----- Steps on tilings

  function Replaced(cs: seq<Chunk>, lo: nat, hi: nat, mid: seq<Chunk>): seq<Chunk>
    requires lo <= hi <= |cs|
  {
    cs[..lo] + mid + cs[hi..]
  }

  function HoleIf(addr: nat, size: nat): seq<Chunk> {
    if size == 0 then [] else [Chunk(addr, size, true)]
  }

  /** A hole cut into a front hole of `gap` bytes, a block of `size` bytes and the rest. */
  function Pieces(c: Chunk, gap: nat, size: nat): seq<Chunk>
    requires gap + size <= c.size
  {
    HoleIf(c.addr, gap) + [Chunk(c.addr + gap, size, false)]
    + HoleIf(c.addr + gap + size, c.size - gap - size)
  }

  function Carved(cs: seq<Chunk>, i: nat, gap: nat, size: nat): seq<Chunk>
    requires i < |cs| && gap + size <= cs[i].size
  {
    Replaced(cs, i, i + 1, Pieces(cs[i], gap, size))
  }

  /** The first of the chunks that merge when chunk `i` becomes a hole. */
  function MergeFrom(cs: seq<Chunk>, i: nat): (lo: nat)
    requires i < |cs|
    ensures lo <= i
  {
    if i > 0 && cs[i - 1].hole then i - 1 else i
  }

  /** One past the last of the chunks that merge when chunk `i` becomes a hole. */
  function MergeTo(cs: seq<Chunk>, i: nat): (hi: nat)
    requires i < |cs|
    ensures i < hi <= |cs|
  {
    if i + 1 < |cs| && cs[i + 1].hole then i + 2 else i + 1
  }

  function Coalesced(cs: seq<Chunk>, i: nat): seq<Chunk>
    requires i < |cs|
  {
    var lo, hi := MergeFrom(cs, i), MergeTo(cs, i);
    Replaced(cs, lo, hi, [Chunk(cs[lo].addr, Span(cs[lo..hi]), true)])
  }

  predicate EndsInHole(cs: seq<Chunk>) {
    cs != [] && cs[|cs| - 1].hole
  }

  /** Where the hole at the end of the heap starts, or would start. */
  function TrailStart(cs: seq<Chunk>, end: nat): nat {
    if EndsInHole(cs) then cs[|cs| - 1].addr else end
  }

  // Freeing in the order the kernel does it: mark, join left, join right.

  function Marked(cs: seq<Chunk>, i: nat): seq<Chunk>
    requires i < |cs|
  {
    cs[i := cs[i].(hole := true)]
  }

  /** Chunks `i` and `i + 1` made one hole. */
  function Joined(cs: seq<Chunk>, i: nat): seq<Chunk>
    requires i + 1 < |cs|
  {
    Replaced(cs, i, i + 2, [Chunk(cs[i].addr, cs[i].size + cs[i + 1].size, true)])
  }

  function JoinLeft(cs: seq<Chunk>, i: nat): seq<Chunk>
    requires i < |cs|
  {
    if MergeFrom(cs, i) < i then Joined(cs, i - 1) else cs
  }

  function JoinRight(cs: seq<Chunk>, i: nat): seq<Chunk>
    requires i < |cs|
  {
    if i + 1 < MergeTo(cs, i) then Joined(cs, i) else cs
  }

  /** The heap's end moved up by `delta`: the last hole grows, or a new hole starts there. */
  function Grown(cs: seq<Chunk>, end: nat, delta: nat): seq<Chunk> {
    if EndsInHole(cs) then
      cs[..|cs| - 1] + [cs[|cs| - 1].(size := cs[|cs| - 1].size + delta)]
    else
      cs + [Chunk(end, delta, true)]
  }

  /**
   The length the heap is cut to when everything from `offset` on is one hole: whole pages,
   at least the minimum, and never leaving a hole too small for its own tags.
   */
  function KeptLength(offset: nat): (len: nat)
    ensures OnPage(len) && MIN_SIZE <= len && offset <= len
    ensures len == offset || offset + OVERHEAD <= len
  {
    var len := if RoundUp(offset) < MIN_SIZE then MIN_SIZE else RoundUp(offset);
    if 0 < len - offset < OVERHEAD then len + PAGE else len
  }

  /** No shorter length is whole pages, long enough, and right for the hole at the offset. */
  lemma KeptLeast(offset: nat, len: nat)
    requires len % 0x1000 == 0 && 0x70000 <= len && (len == offset || offset + 20 <= len)
    ensures KeptLength(offset) <= len
  {
  }

  /** A final hole cut back to the kept length. */
  function Cut(cs: seq<Chunk>, start: nat): seq<Chunk>
    requires cs != [] && start <= cs[|cs| - 1].addr
  {
    var last := cs[|cs| - 1];
    cs[..|cs| - 1] + HoleIf(last.addr, start + KeptLength(last.addr - start) - last.addr)
  }

  /** The cut happens when the merged hole `k` is the last chunk. */
  function Settled(cs: seq<Chunk>, k: nat, start: nat): seq<Chunk>
    requires k < |cs| && start <= cs[k].addr
  {
    if k + 1 == |cs| then Cut(cs, start) else cs
  }

  /**
   A final hole, and it alone, is cut back, to the least length that is whole pages, the minimum at
   least, and leaves nothing of the hole or enough for its tags.
   */
  ghost predicate Trimmed(cs: seq<Chunk>, k: nat, after: seq<Chunk>, start: nat) {
    && k < |cs| && start <= cs[k].addr
    && if k + 1 < |cs| then after == cs else exists len: nat :: TrimmedTo(cs[..k], cs[k].addr, after, start, len)
  }

  ghost predicate TrimmedTo(before: seq<Chunk>, h: nat, after: seq<Chunk>, start: nat, len: nat) {
    && RightLength(start, h, len) && (forall other: nat :: RightLength(start, h, other) ==> len <= other)
    && after == before + if start + len == h then [] else [Chunk(h, start + len - h, true)]
  }

  /** A length for a heap whose final hole starts at `h`. */
  predicate RightLength(start: nat, h: nat, len: nat) {
    len % 0x1000 == 0 && 0x70000 <= len && (start + len == h || h + 20 <= start + len)
  }

  lemma {:induction false} SettledTrims(cs: seq<Chunk>, k: nat, start: nat)
    requires k < |cs| && start <= cs[k].addr
    ensures Trimmed(cs, k, Settled(cs, k, start), start)
  {
    if k + 1 == |cs| {
      var h, offset := cs[k].addr, cs[k].addr - start;
      forall other: nat | RightLength(start, h, other) ensures KeptLength(offset) <= other {
        KeptLeast(offset, other);
      }
      assert RightLength(start, h, KeptLength(offset));
      assert TrimmedTo(cs[..k], cs[k].addr, Settled(cs, k, start), start, KeptLength(offset));
    }
  }

  /** How long the heap is after the cut: as short as can be if the hole is the last chunk, else as before. */
  lemma {:induction false} SettledLength(cs: seq<Chunk>, k: nat, start: nat)
    requires k < |cs| && start <= cs[k].addr && Tiles(cs, start)
    ensures k + 1 < |cs| ==> Settled(cs, k, start) == cs
    ensures k + 1 == |cs| ==> Span(Settled(cs, k, start)) == KeptLength(cs[k].addr - start)
  {
    if k + 1 == |cs| {
      LastChunk(cs, start);
      var kept := KeptLength(cs[k].addr - start);
      var rest := start + kept - cs[k].addr;
      SpanConcat(cs[..k], HoleIf(cs[k].addr, rest));
      HoleIfTiles(cs[k].addr, rest);
    }
  }

  /** The same for a whole call of `Free`. */
  lemma {:induction false} ReleasedLength(cs: seq<Chunk>, i: nat, start: nat, len: nat)
    requires i < |cs| && !cs[i].hole && Tiles(cs, start)
    ensures var h := cs[MergeFrom(cs, i)].addr;
            && start <= h
            && (MergeTo(cs, i) < |cs| ==> Span(Released(cs, i, start)) == Span(cs))
            && (MergeTo(cs, i) == |cs| && len % PAGE == 0 && MIN_SIZE <= len && (start + len == h || h + OVERHEAD <= start + len)
                ==> Span(Released(cs, i, start)) <= len)
  {
    hide KeptLength, Cut;
    var lo, hi := MergeFrom(cs, i), MergeTo(cs, i);
    Within(cs, start, cs[lo]);
    CoalescedSpan(cs, i, start);
    CoalescedAt(cs, i);
    SettledLength(Coalesced(cs, i), lo, start);
    if len % PAGE == 0 && MIN_SIZE <= len && (start + len == cs[lo].addr || cs[lo].addr + OVERHEAD <= start + len) {
      KeptLeast(cs[lo].addr - start, len);
    }
  }

  /**
   What freeing does to the heap's end: when the merged hole reaches it, the new end is no higher than
   any that would be right, whole pages above the start, the minimum at least, and either just before
   the hole or with room for its tags; otherwise the end stays.
   */
  ghost predicate GivenBack(cs: seq<Chunk>, i: nat, start: nat, end: nat, newEnd: nat)
    requires i < |cs|
  {
    var h := cs[MergeFrom(cs, i)].addr;
    if MergeTo(cs, i) < |cs| then newEnd == end
    else
      && start <= newEnd && RightLength(start, h, newEnd - start)
      && forall len: nat :: RightLength(start, h, len) ==> newEnd <= start + len
  }

  lemma ReleasedIs(cs: seq<Chunk>, i: nat, start: nat)
    requires i < |cs| && Tiles(cs, start)
    ensures start <= cs[MergeFrom(cs, i)].addr
    ensures Released(cs, i, start) == Settled(Coalesced(cs, i), MergeFrom(cs, i), start)
  {
    Within(cs, start, cs[MergeFrom(cs, i)]);
  }

  lemma {:induction false} ReleasedGivesBack(cs: seq<Chunk>, i: nat, start: nat)
    requires i < |cs| && !cs[i].hole && Tiles(cs, start)
    ensures GivenBack(cs, i, start, start + Span(cs), start + Span(Released(cs, i, start)))
  {
    hide KeptLength, Cut;
    var lo := MergeFrom(cs, i);
    ReleasedLength(cs, i, start, 0);
    CoalescedSpan(cs, i, start);
    CoalescedAt(cs, i);
    SettledLength(Coalesced(cs, i), lo, start);
    forall len: nat | RightLength(start, cs[lo].addr, len)
      ensures MergeTo(cs, i) == |cs| ==> Span(Released(cs, i, start)) <= len
    {
      ReleasedLength(cs, i, start, len);
    }
  }

  /** Merging keeps the tiling's extent, and the merged hole is last exactly when the run of chunks was. */
  lemma {:induction false} CoalescedSpan(cs: seq<Chunk>, i: nat, start: nat)
    requires i < |cs| && Tiles(cs, start)
    ensures Tiles(Coalesced(cs, i), start) && Span(Coalesced(cs, i)) == Span(cs)
    ensures MergeFrom(cs, i) + 1 == |Coalesced(cs, i)| <==> MergeTo(cs, i) == |cs|
  {
    hide Tiles, Span;
    var lo, hi := MergeFrom(cs, i), MergeTo(cs, i);
    var hole := Chunk(cs[lo].addr, Span(cs[lo..hi]), true);
    SplitAt(cs, lo, hi, start);
    RunSpan(cs, lo, hi, start);
    One(hole);
    SpliceHoles(cs[..lo], [hole], cs[hi..]);
    RewriteTiles(cs[..lo], cs[lo..hi], [hole], cs[hi..], start);
  }

  lemma {:induction false} RunSpan(cs: seq<Chunk>, lo: nat, hi: nat, start: nat)
    requires lo < hi <= |cs| && Tiles(cs, start)
    ensures OVERHEAD <= Span(cs[lo..hi])
  {
    Within(cs, start, cs[lo]);
    assert cs[lo..hi] == [cs[lo]] + cs[lo + 1..hi];
    SpanOne(cs[lo]);
    SpanConcat([cs[lo]], cs[lo + 1..hi]);
  }

  /** Everything `Free` does: merge, then cut if the merged hole is the last chunk. */
  function Released(cs: seq<Chunk>, i: nat, start: nat): seq<Chunk>
    requires i < |cs| && Tiles(cs, start)
  {
    assert start <= cs[MergeFrom(cs, i)].addr by {
      Within(cs, start, cs[MergeFrom(cs, i)]);
    }
    Settled(Coalesced(cs, i), MergeFrom(cs, i), start)
  }

  // ----- Where a block goes

  /**
   The bytes to skip so that the payload of a block starts on a page: none, or enough for a
   hole of its own.
   */
  function Gap(pos: nat, align: bool): (g: nat)
    ensures g == 0 || OVERHEAD <= g < PAGE + OVERHEAD
    ensures align ==> OnPage(pos + g + HEADER)
    ensures !align ==> g == 0
  {
    if !align then 0
    else
      var g := RoundUp(pos + HEADER) - (pos + HEADER);
      if 0 < g < OVERHEAD then g + PAGE else g
  }

  predicate Fits(addr: nat, size: nat, need: nat, align: bool) {
    Gap(addr, align) + need <= size
  }

  /** The hole can give up `g` bytes in front, none or a hole's worth, and still take the block where it has to go. */
  predicate CanTake(c: Chunk, g: nat, need: nat, align: bool) {
    && c.hole && (g == 0 || OVERHEAD <= g) && g + need <= c.size
    && (align ==> (c.addr + g + HEADER) % PAGE == 0)
  }

  /** No gap that will do is smaller. */
  lemma GapLeast(pos: nat, align: bool, g: nat)
    requires (g == 0 || OVERHEAD <= g) && (align ==> (pos + g + HEADER) % PAGE == 0)
    ensures Gap(pos, align) <= g
  {
  }

  /** A hole fits exactly when it can take the block behind some gap. */
  lemma FitsExact(c: Chunk, need: nat, align: bool)
    requires c.hole
    ensures Fits(c.addr, c.size, need, align) <==> exists g: nat :: CanTake(c, g, need, align)
  {
    if Fits(c.addr, c.size, need, align) {
      assert CanTake(c, Gap(c.addr, align), need, align);
    }
    if exists g: nat :: CanTake(c, g, need, align) {
      var g: nat :| CanTake(c, g, need, align);
      hide Gap;
      GapLeast(c.addr, align, g);
    }
  }

  /** Some hole can take the block. */
  ghost predicate TakesSome(cs: seq<Chunk>, need: nat, align: bool) {
    exists c, g: nat :: c in cs && CanTake(c, g, need, align)
  }

  lemma FitsSomeExact(cs: seq<Chunk>, need: nat, align: bool)
    ensures FitsSome(cs, need, align) <==> TakesSome(cs, need, align)
  {
    hide Fits, CanTake;
    if FitsSome(cs, need, align) {
      var c :| c in cs && c.hole && Fits(c.addr, c.size, need, align);
      FitsExact(c, need, align);
    }
    if TakesSome(cs, need, align) {
      var c, g: nat :| c in cs && CanTake(c, g, need, align);
      TakersAreHoles(c, g, need, align);
      FitsExact(c, need, align);
    }
  }

  lemma TakersAreHoles(c: Chunk, g: nat, need: nat, align: bool)
    requires CanTake(c, g, need, align)
    ensures c.hole
  {
  }

  /** The size a block gets: leftovers too small for a hole are absorbed. */
  function BlockSize(room: nat, need: nat): (size: nat)
    requires need <= room
    ensures need <= size <= room && (size == room || size + OVERHEAD <= room)
    ensures size < need + OVERHEAD
  {
    if room - need < OVERHEAD then room else need
  }

  /** The block of at least `need` bytes put into hole `i`. */
  function Placed(cs: seq<Chunk>, i: nat, need: nat, align: bool): seq<Chunk>
    requires i < |cs| && Fits(cs[i].addr, cs[i].size, need, align)
  {
    var gap := Gap(cs[i].addr, align);
    Carved(cs, i, gap, BlockSize(cs[i].size - gap, need))
  }

  ghost predicate FitsSome(cs: seq<Chunk>, need: nat, align: bool) {
    exists c :: c in cs && c.hole && Fits(c.addr, c.size, need, align)
  }

  function TrailSize(cs: seq<Chunk>): nat {
    if EndsInHole(cs) then cs[|cs| - 1].size else 0
  }

  /** The bytes added by growing in steps of `delta` until a hole of `trail` bytes has `want`. */
  function Growth(trail: nat, want: nat, delta: nat): nat
    requires delta > 0
    decreases want - trail
  {
    if want <= trail then 0 else delta + Growth(trail + delta, want, delta)
  }

  /** By how much the heap has to grow before the request can be met: not at all if it fits. */
  ghost function Extra(cs: seq<Chunk>, end: nat, need: nat, align: bool): nat
    requires need > 0
  {
    if FitsSome(cs, need, align) then 0
    else Growth(TrailSize(cs), Gap(TrailStart(cs, end), align) + need, RoundUp(need))
  }

  function GrownBy(cs: seq<Chunk>, end: nat, delta: nat): seq<Chunk> {
    if delta == 0 then cs else Grown(cs, end, delta)
  }

  /** `after` is `before` with a block put into a smallest fitting hole, its payload at `p`. */
  ghost predicate BestPlaced(before: seq<Chunk>, after: seq<Chunk>, p: nat, need: nat, align: bool) {
    exists i: nat :: Chosen(before, i, need, align)
      && after == Placed(before, i, need, align)
      && p == before[i].addr + Gap(before[i].addr, align) + HEADER
  }

  ghost predicate Chosen(cs: seq<Chunk>, i: nat, need: nat, align: bool) {
    && i < |cs| && cs[i].hole && Fits(cs[i].addr, cs[i].size, need, align)
    && forall c :: c in cs && c.hole && Fits(c.addr, c.size, need, align) ==> cs[i].size <= c.size
  }

  /** A chosen hole can take the block, and no hole that can is smaller. */
  lemma ChosenIsLeast(cs: seq<Chunk>, i: nat, need: nat, align: bool)
    requires Chosen(cs, i, need, align)
    ensures exists e: nat :: CanTake(cs[i], e, need, align)
    ensures forall c, g: nat :: c in cs && CanTake(c, g, need, align) ==> cs[i].size <= c.size
  {
    FitsExact(cs[i], need, align);
    hide Fits, CanTake;
    forall c, g: nat | c in cs && CanTake(c, g, need, align) ensures cs[i].size <= c.size {
      TakersAreHoles(c, g, need, align);
      FitsExact(c, need, align);
    }
  }

  // ----- The steps keep the layout

  lemma {:induction false} ReplacedNoAdjacent(cs: seq<Chunk>, lo: nat, hi: nat, mid: seq<Chunk>)
    requires lo <= hi <= |cs| && NoAdjacentHoles(cs) && NoAdjacentHoles(mid) && mid != []
    requires lo > 0 ==> !(cs[lo - 1].hole && mid[0].hole)
    requires hi < |cs| ==> !(mid[|mid| - 1].hole && cs[hi].hole)
    ensures NoAdjacentHoles(Replaced(cs, lo, hi, mid))
  {
    assert cs == cs[..lo] + cs[lo..] && cs == cs[..hi] + cs[hi..];
    NoAdjacentConcat(cs[..lo], cs[lo..]);
    NoAdjacentConcat(cs[..hi], cs[hi..]);
    NoAdjacentConcat(cs[..lo], mid);
    NoAdjacentConcat(cs[..lo] + mid, cs[hi..]);
  }

  /** In a tiling without adjacent holes, a hole has blocks on both sides. */
  lemma {:induction false} HoleNeighbours(cs: seq<Chunk>, i: nat)
    requires NoAdjacentHoles(cs) && i + 1 < |cs|
    ensures !(cs[i].hole && cs[i + 1].hole)
  {
    if i > 0 {
      HoleNeighbours(cs[1..], i - 1);
    }
  }

  lemma {:induction false} CarvedNoAdjacent(cs: seq<Chunk>, i: nat, gap: nat, size: nat)
    requires i < |cs| && cs[i].hole && gap + size <= cs[i].size && NoAdjacentHoles(cs)
    ensures NoAdjacentHoles(Carved(cs, i, gap, size))
  {
    if i > 0 {
      HoleNeighbours(cs, i - 1);
    }
    if i + 1 < |cs| {
      HoleNeighbours(cs, i);
    }
    var mid := Pieces(cs[i], gap, size);
    assert NoAdjacentHoles(mid) by {
      PiecesNoAdjacent(cs[i], gap, size);
    }
    ReplacedNoAdjacent(cs, i, i + 1, mid);
  }

  lemma {:induction false} PiecesNoAdjacent(c: Chunk, gap: nat, size: nat)
    requires gap + size <= c.size
    ensures NoAdjacentHoles(Pieces(c, gap, size))
  {
    var block := [Chunk(c.addr + gap, size, false)];
    NoAdjacentConcat(HoleIf(c.addr, gap), block);
    NoAdjacentConcat(HoleIf(c.addr, gap) + block, HoleIf(c.addr + gap + size, c.size - gap - size));
  }

  lemma {:induction false} CoalescedNoAdjacent(cs: seq<Chunk>, i: nat)
    requires i < |cs| && !cs[i].hole && NoAdjacentHoles(cs)
    ensures NoAdjacentHoles(Coalesced(cs, i))
  {
    var lo, hi := MergeFrom(cs, i), MergeTo(cs, i);
    if lo > 0 {
      HoleNeighbours(cs, lo - 1);
    }
    if hi < |cs| {
      HoleNeighbours(cs, hi - 1);
    }
    ReplacedNoAdjacent(cs, lo, hi, [Chunk(cs[lo].addr, Span(cs[lo..hi]), true)]);
  }

  lemma {:induction false} GrownNoAdjacent(cs: seq<Chunk>, end: nat, delta: nat)
    requires NoAdjacentHoles(cs)
    ensures NoAdjacentHoles(Grown(cs, end, delta))
  {
    if cs != [] && cs[|cs| - 1].hole {
      if |cs| > 1 {
        HoleNeighbours(cs, |cs| - 2);
      }
      var mid := [cs[|cs| - 1].(size := cs[|cs| - 1].size + delta)];
      ReplacedNoAdjacent(cs, |cs| - 1, |cs|, mid);
      assert Replaced(cs, |cs| - 1, |cs|, mid) == Grown(cs, end, delta);
    } else {
      NoAdjacentConcat(cs, [Chunk(end, delta, true)]);
    }
  }

  lemma {:induction false} CutNoAdjacent(cs: seq<Chunk>, start: nat)
    requires cs != [] && cs[|cs| - 1].hole && start <= cs[|cs| - 1].addr && NoAdjacentHoles(cs)
    ensures NoAdjacentHoles(Cut(cs, start))
  {
    var l, last := cs[..|cs| - 1], cs[|cs| - 1];
    assert cs == l + [last];
    NoAdjacentConcat(l, [last]);
    var rest := start + KeptLength(last.addr - start) - last.addr;
    if rest == 0 {
      assert Cut(cs, start) == l;
    } else {
      NoAdjacentConcat(l, [Chunk(last.addr, rest, true)]);
    }
  }

  // ----- The steps and the live blocks

  lemma {:induction false} LiveReplaced(cs: seq<Chunk>, lo: nat, hi: nat, mid: seq<Chunk>, start: nat)
    requires lo <= hi <= |cs| && Tiles(cs, start)
    ensures Live(Replaced(cs, lo, hi, mid)) == Live(cs) - Live(cs[lo..hi]) + Live(mid)
  {
    var l, r := cs[..lo], cs[hi..];
    assert cs[..hi] == l + cs[lo..hi] && cs == cs[..hi] + r;
    forall c | c in cs[lo..hi] ensures c !in l && c !in r {
      var k :| 0 <= k < hi - lo && cs[lo..hi][k] == c;
      forall j | 0 <= j < |cs| && j != lo + k ensures cs[j] != c {
        DistinctPositions(cs, start, j, lo + k);
      }
    }
  }

  lemma {:induction false} DistinctPositions(cs: seq<Chunk>, start: nat, i: nat, j: nat)
    requires Tiles(cs, start) && i < |cs| && j < |cs| && i != j
    ensures cs[i] != cs[j]
  {
    var lo, hi := if i < j then i else j, if i < j then j else i;
    InOrder(cs, start, lo, hi);
    Within(cs, start, cs[lo]);
  }

  /**
   Freeing the block just carved out of a hole gives back the tiling from before, whether or
   not there is a front hole, a rest, or absorbed slack.
   */
  lemma {:induction false} CarveThenCoalesce(cs: seq<Chunk>, i: nat, gap: nat, size: nat, start: nat)
    requires NoAdjacentHoles(cs) && i < |cs| && cs[i].hole && gap + size <= cs[i].size
    ensures var carved := Carved(cs, i, gap, size);
            var k := i + |HoleIf(cs[i].addr, gap)|;
            k < |carved| && carved[k] == Chunk(cs[i].addr + gap, size, false) && Coalesced(carved, k) == cs
  {
    var carved := Carved(cs, i, gap, size);
    var k, after := i + |HoleIf(cs[i].addr, gap)|, i + |Pieces(cs[i], gap, size)|;
    CarvedParts(cs, i, gap, size);
    if i > 0 {
      HoleNeighbours(cs, i - 1);
    }
    if i + 1 < |cs| {
      HoleNeighbours(cs, i);
    }
    PiecesSpan(cs[i], gap, size);
    hide Pieces, Span, NoAdjacentHoles, Carved;
    Whole(cs, i);
  }

  lemma Whole(cs: seq<Chunk>, i: nat)
    requires i < |cs|
    ensures cs[..i] + [cs[i]] + cs[i + 1..] == cs
  {
  }

  /** Where the pieces of a carved hole stand in the new tiling. */
  lemma {:induction false} CarvedParts(cs: seq<Chunk>, i: nat, gap: nat, size: nat)
    requires i < |cs| && gap + size <= cs[i].size
    ensures var carved := Carved(cs, i, gap, size);
            var pieces := Pieces(cs[i], gap, size);
            var k, after := i + |HoleIf(cs[i].addr, gap)|, i + |pieces|;
            && i <= k < after <= |carved| && carved[..i] == cs[..i] && carved[i..after] == pieces && carved[after..] == cs[i + 1..]
            && carved[i].addr == cs[i].addr && carved[k] == Chunk(cs[i].addr + gap, size, false)
            && (forall j :: 0 <= j < i ==> carved[j] == cs[j])
            && (if i < k then k == i + 1 && carved[i].hole else k == i)
            && (if k + 1 < after then after == k + 2 && carved[k + 1].hole else after == k + 1)
            && (after < |carved| ==> i + 1 < |cs| && carved[after] == cs[i + 1])
  {
  }

  lemma {:induction false} PiecesSpan(c: Chunk, gap: nat, size: nat)
    requires gap + size <= c.size
    ensures Span(Pieces(c, gap, size)) == c.size
  {
    var block := [Chunk(c.addr + gap, size, false)];
    SpanConcat(HoleIf(c.addr, gap), block);
    SpanConcat(HoleIf(c.addr, gap) + block, HoleIf(c.addr + gap + size, c.size - gap - size));
  }

  // ----- The steps keep memory, tiling and index consistent

  lemma {:induction false} LastChunk(cs: seq<Chunk>, start: nat)
    requires Tiles(cs, start) && cs != []
    ensures var last := cs[|cs| - 1];
            && OVERHEAD <= last.size && start <= last.addr
            && last.addr + last.size == start + Span(cs)
            && last.addr == start + Span(cs[..|cs| - 1])
  {
    var l, last := cs[..|cs| - 1], cs[|cs| - 1];
    assert cs == l + [last];
    Within(cs, start, last);
    One(last);
    SpanConcat(l, [last]);
    TilesConcat(l, [last], start);
  }

  /** A new last hole over freshly mapped pages. */
  lemma {:induction false} Appended(m: Bytes, n: Bytes, index: seq<nat>, cs: seq<Chunk>, start: nat, oldEnd: nat, end: nat)
    requires Consistent(m, index, cs, start, oldEnd, multiset{}) && oldEnd + OVERHEAD <= end
    requires SameOutside(m, n, oldEnd, end) && ChunkAt(n, Chunk(oldEnd, end - oldEnd, true))
    ensures Consistent(n, index, cs + [Chunk(oldEnd, end - oldEnd, true)], start, end, multiset{oldEnd})
  {
    var hole := Chunk(oldEnd, end - oldEnd, true);
    assert cs + [] + [] == cs && cs + [hole] + [] == cs + [hole];
    One(hole);
    Nothing(m);
    assert Consistent(m, index, cs + [] + [], start, oldEnd, Holes([]));
    hide Word, Tiles, Span, Holes, SameOutside, SortedIndex, ChunkAt;
    Rewrite(m, n, index, cs, [], [hole], [], start, oldEnd, end);
    SpanConcat(cs, [hole]);
  }

  lemma Nothing(m: Bytes)
    ensures Holes([]) == multiset{} && Span([]) == 0
  {
  }

  lemma SpanPositive(m: Bytes, index: seq<nat>, cs: seq<Chunk>, start: nat, end: nat)
    requires Consistent(m, index, cs, start, end, multiset{}) && start < end
    ensures cs != []
  {
  }

  /** Whether the entry with the greatest address is a hole that touches the end. */
  lemma {:induction false} Endmost(m: Bytes, index: seq<nat>, cs: seq<Chunk>, start: nat, end: nat, idx: int, value: nat)
    requires Consistent(m, index, cs, start, end, multiset{}) && 0 < start && cs != []
    requires -1 <= idx < |index| && (if idx == -1 then value == 0 else value == index[idx])
    requires forall a :: a in index ==> a <= value
    ensures EndsInHole(cs) <==> idx >= 0 && value + SizeAt(m, value) == end
    ensures EndsInHole(cs) ==> value == cs[|cs| - 1].addr
    ensures idx >= 0 ==> start <= value && value + OVERHEAD <= end
  {
    var last := cs[|cs| - 1];
    LastChunk(cs, start);
    if idx >= 0 {
      Indexed(m, index, cs, start, end, multiset{}, idx);
      var i := Find(cs, value);
      Within(cs, start, cs[i]);
      if i < |cs| - 1 {
        InOrder(cs, start, i, |cs| - 1);
      }
    }
    if last.hole {
      HasEntry(m, index, cs, start, end, multiset{}, last);
    }
  }

  /** The last hole taken out of the index. */
  lemma {:induction false} TakeOutLast(m: Bytes, index: seq<nat>, at: nat, cs: seq<Chunk>, start: nat, end: nat)
    requires Consistent(m, index, cs, start, end, multiset{}) && at < |index|
    requires cs != [] && cs[|cs| - 1].addr == index[at]
    ensures Consistent(m, Removed(index, at), cs, start, end, multiset{index[at]})
    ensures start <= index[at] && index[at] + OVERHEAD <= end
  {
    LastChunk(cs, start);
    TakeOut(m, index, at, cs, start, end, multiset{});
    assert multiset{} + multiset{index[at]} == multiset{index[at]};
  }

  /** The last hole stretched over freshly mapped pages, while it is out of the index. */
  lemma {:induction false} Extended(m: Bytes, n: Bytes, index: seq<nat>, cs: seq<Chunk>, start: nat, oldEnd: nat, end: nat)
    requires cs != [] && cs[|cs| - 1].hole
    requires Consistent(m, index, cs, start, oldEnd, multiset{cs[|cs| - 1].addr}) && oldEnd <= end
    requires var last := cs[|cs| - 1];
             SameOutside(m, n, last.addr, end) && last.addr <= end && ChunkAt(n, Chunk(last.addr, end - last.addr, true))
    ensures Consistent(n, index, Grown(cs, oldEnd, end - oldEnd), start, end, multiset{cs[|cs| - 1].addr})
  {
    var l, last := cs[..|cs| - 1], cs[|cs| - 1];
    var hole := Chunk(last.addr, end - last.addr, true);
    LastChunk(cs, start);
    assert cs == l + [last] + [];
    assert Grown(cs, oldEnd, end - oldEnd) == l + [hole] + [];
    One(last);
    One(hole);
    hide Word, Tiles, Span, Holes, SameOutside, SortedIndex, ChunkAt;
    Rewrite(m, n, index, l, [last], [hole], [], start, oldEnd, end);
    SpanConcat(l, [last]);
    SpanConcat(l, [hole]);
    assert l + [hole] == l + [hole] + [];
  }

  // A cut of a hole in which every part can hold its tags.
  predicate Clean(c: Chunk, gap: nat, size: nat) {
    && gap + size <= c.size && OVERHEAD <= size
    && (gap == 0 || OVERHEAD <= gap)
    && (gap + size == c.size || gap + size + OVERHEAD <= c.size)
  }

  lemma {:induction false} PiecesTile(c: Chunk, gap: nat, size: nat)
    requires Clean(c, gap, size)
    ensures Tiles(Pieces(c, gap, size), c.addr)
  {
    var front, block := HoleIf(c.addr, gap), Chunk(c.addr + gap, size, false);
    var back := HoleIf(c.addr + gap + size, c.size - gap - size);
    One(block);
    HoleIfTiles(c.addr, gap);
    HoleIfTiles(c.addr + gap + size, c.size - gap - size);
    SpliceTiles(front, [block], back, c.addr);
  }

  lemma HoleIfTiles(a: nat, size: nat)
    requires size == 0 || OVERHEAD <= size
    ensures Tiles(HoleIf(a, size), a) && Span(HoleIf(a, size)) == size
    ensures Holes(HoleIf(a, size)) == if size == 0 then multiset{} else multiset{a}
  {
    if size > 0 {
      One(Chunk(a, size, true));
    }
  }

  lemma {:induction false} PiecesHoles(c: Chunk, gap: nat, size: nat)
    requires Clean(c, gap, size)
    ensures Holes(Pieces(c, gap, size)) ==
            Holes(HoleIf(c.addr, gap)) + Holes(HoleIf(c.addr + gap + size, c.size - gap - size))
  {
    hide Holes, Span, Tiles, HoleIf;
    var front, block, back := HoleIf(c.addr, gap), Chunk(c.addr + gap, size, false), HoleIf(c.addr + gap + size, c.size - gap - size);
    One(block);
    SpliceHoles(front, [block], back);
    assert Holes(front) + multiset{} + Holes(back) == Holes(front) + Holes(back);
  }

  /** The chunks `lo` to `hi` replaced by others over the same range. */
  lemma {:induction false} ReplacedConsistent(m: Bytes, n: Bytes, index: seq<nat>, cs: seq<Chunk>, lo: nat, hi: nat,
                                              mid: seq<Chunk>, start: nat, end: nat)
    requires lo < hi <= |cs| && Consistent(m, index, cs, start, end, Holes(cs[lo..hi]))
    requires SameOutside(m, n, cs[lo].addr, cs[lo].addr + Span(cs[lo..hi]))
    requires Written(n, mid) && Tiles(mid, cs[lo].addr) && Span(mid) == Span(cs[lo..hi])
    ensures Consistent(n, index, Replaced(cs, lo, hi, mid), start, end, Holes(mid))
  {
    hide Word, ChunkAt, Written, Tiles, Span, Holes, SameOutside, SortedIndex;
    var l, old', r := cs[..lo], cs[lo..hi], cs[hi..];
    SplitAt(cs, lo, hi, start);
    SpliceHoles(l, old', r);
    SpliceHoles(l, mid, r);
    Rewrite(m, n, index, l, old', mid, r, start, end, cs[lo].addr + Span(old'));
  }

  lemma {:induction false} SplitAt(cs: seq<Chunk>, lo: nat, hi: nat, start: nat)
    requires lo < hi <= |cs| && Tiles(cs, start)
    ensures cs == cs[..lo] + cs[lo..hi] + cs[hi..]
    ensures cs[lo].addr == start + Span(cs[..lo])
    ensures Span(cs[..lo]) + Span(cs[lo..hi]) + Span(cs[hi..]) == Span(cs)
  {
    assert cs == cs[..lo] + cs[lo..];
    TilesConcat(cs[..lo], cs[lo..], start);
    assert cs[lo..] == cs[lo..hi] + cs[hi..];
    SpanConcat(cs[..lo], cs[lo..]);
    SpanConcat(cs[lo..hi], cs[hi..]);
  }

  /** The hole about to be carved up: where it lies, and taken out of the index. */
  lemma {:induction false} PlaceFacts(m: Bytes, index: seq<nat>, at: nat, cs: seq<Chunk>, start: nat, end: nat, i: nat)
    requires Consistent(m, index, cs, start, end, multiset{}) && at < |index|
    requires i < |cs| && cs[i].addr == index[at] && cs[i].hole
    ensures SizeAt(m, index[at]) == cs[i].size && cs[i].size >= OVERHEAD
    ensures start <= cs[i].addr && cs[i].addr + cs[i].size <= end
    ensures Consistent(m, Removed(index, at), cs, start, end, multiset{index[at]})
  {
    Within(cs, start, cs[i]);
    TakeOut(m, index, at, cs, start, end, multiset{});
    assert multiset{} + multiset{index[at]} == multiset{index[at]};
  }

  lemma {:induction false} CarvedConsistent(m: Bytes, n: Bytes, index: seq<nat>, cs: seq<Chunk>, i: nat,
                                            gap: nat, size: nat, start: nat, end: nat)
    requires i < |cs| && cs[i].hole && Consistent(m, index, cs, start, end, multiset{cs[i].addr})
    requires Clean(cs[i], gap, size) && Written(n, Pieces(cs[i], gap, size))
    requires SameOutside(m, n, cs[i].addr, cs[i].addr + cs[i].size)
    ensures Consistent(n, index, Carved(cs, i, gap, size), start, end,
                       Holes(HoleIf(cs[i].addr + gap + size, cs[i].size - gap - size)) + Holes(HoleIf(cs[i].addr, gap)))
  {
    hide Word, HeaderAt, ChunkAt, Written, Tiles, Span, Holes, SameOutside, SortedIndex, Pieces;
    var mid := Pieces(cs[i], gap, size);
    assert cs[i..i + 1] == [cs[i]];
    Within(cs, start, cs[i]);
    One(cs[i]);
    PiecesTile(cs[i], gap, size);
    PiecesSpan(cs[i], gap, size);
    PiecesHoles(cs[i], gap, size);
    ReplacedConsistent(m, n, index, cs, i, i + 1, mid, start, end);
  }

  lemma JoinedAt(cs: seq<Chunk>, i: nat)
    requires i + 1 < |cs| && cs[i].hole && cs[i + 1].hole
    ensures i < |Joined(cs, i)| && Joined(cs, i)[i] == Chunk(cs[i].addr, cs[i].size + cs[i + 1].size, true)
    ensures JoinLeft(cs, i + 1) == Joined(cs, i) && MergeFrom(cs, i + 1) == i
    ensures JoinRight(cs, i) == Joined(cs, i)
  {
  }

  lemma CoalescedAt(cs: seq<Chunk>, i: nat)
    requires i < |cs|
    ensures MergeFrom(cs, i) < |Coalesced(cs, i)|
    ensures Coalesced(cs, i)[MergeFrom(cs, i)].addr == cs[MergeFrom(cs, i)].addr
  {
  }

  /** Marking, joining left and joining right is coalescing. */
  lemma {:induction false} JoinsCoalesce(cs: seq<Chunk>, i: nat)
    requires i < |cs|
    ensures var left := JoinLeft(Marked(cs, i), i);
            var k := MergeFrom(cs, i);
            && MergeFrom(Marked(cs, i), i) == k && Marked(cs, i)[i] == Chunk(cs[i].addr, cs[i].size, true)
            && JoinRight(left, k) == Coalesced(cs, i)
            && k < |Coalesced(cs, i)| && Coalesced(cs, i)[k].hole && Coalesced(cs, i)[k].addr == cs[k].addr
            && (MergeTo(cs, i) == |cs| <==> k + 1 == |Coalesced(cs, i)|)
  {
    JoinLeftIs(cs, i);
    JoinRightIs(cs, i, JoinLeft(Marked(cs, i), i));
    hide JoinLeft, JoinRight, Span;
  }

  /** After the left join, what is to the right of block `i` still is. */
  lemma {:induction false} JoinRightIs(cs: seq<Chunk>, i: nat, left: seq<Chunk>)
    requires i < |cs|
    requires var lo := MergeFrom(cs, i);
             left == cs[..lo] + [Chunk(cs[lo].addr, Span(cs[lo..i + 1]), true)] + cs[i + 1..]
    ensures JoinRight(left, MergeFrom(cs, i)) == Coalesced(cs, i)
  {
    hide Span;
    var lo, hi := MergeFrom(cs, i), MergeTo(cs, i);
    assert |left| == lo + |cs| - i && left[lo].addr == cs[lo].addr;
    if i + 1 < hi {
      assert left[lo + 1] == cs[i + 1];
      SpanOne(cs[i + 1]);
      SpanConcat(cs[lo..i + 1], [cs[i + 1]]);
      assert cs[lo..hi] == cs[lo..i + 1] + [cs[i + 1]];
      assert left[..lo] == cs[..lo] && left[lo + 2..] == cs[hi..];
    } else {
      assert cs[lo..hi] == cs[lo..i + 1];
    }
  }

  lemma {:induction false} JoinLeftIs(cs: seq<Chunk>, i: nat)
    requires i < |cs|
    ensures var lo := MergeFrom(cs, i);
            JoinLeft(Marked(cs, i), i) == cs[..lo] + [Chunk(cs[lo].addr, Span(cs[lo..i + 1]), true)] + cs[i + 1..]
  {
    var lo := MergeFrom(cs, i);
    SpanOne(cs[i]);
    if lo < i {
      SpanOne(cs[lo]);
      SpanConcat([cs[lo]], [cs[i]]);
      assert cs[lo..i + 1] == [cs[lo]] + [cs[i]];
    } else {
      assert cs[lo..i + 1] == [cs[i]];
    }
  }

  lemma SpanOne(c: Chunk)
    ensures Span([c]) == c.size
  {
    assert [c][1..] == [];
  }

  lemma {:induction false} MarkedConsistent(m: Bytes, n: Bytes, index: seq<nat>, cs: seq<Chunk>, i: nat, start: nat, end: nat)
    requires i < |cs| && !cs[i].hole && Consistent(m, index, cs, start, end, multiset{})
    requires ChunkAt(n, cs[i].(hole := true)) && SameOutside(m, n, cs[i].addr, cs[i].addr + cs[i].size)
    ensures Consistent(n, index, Marked(cs, i), start, end, multiset{cs[i].addr})
  {
    var hole := cs[i].(hole := true);
    assert cs[i..i + 1] == [cs[i]];
    One(cs[i]);
    One(hole);
    hide Word, ChunkAt, Tiles, Span, Holes, SameOutside, Consistent;
    ReplacedConsistent(m, n, index, cs, i, i + 1, [hole], start, end);
    assert Replaced(cs, i, i + 1, [hole]) == Marked(cs, i);
  }

  lemma {:induction false} JoinedConsistent(m: Bytes, n: Bytes, index: seq<nat>, cs: seq<Chunk>, i: nat, start: nat, end: nat)
    requires i + 1 < |cs| && cs[i].hole && cs[i + 1].hole
    requires Consistent(m, index, cs, start, end, multiset{cs[i].addr} + multiset{cs[i + 1].addr})
    requires ChunkAt(n, Chunk(cs[i].addr, cs[i].size + cs[i + 1].size, true))
    requires SameOutside(m, n, cs[i].addr, cs[i].addr + cs[i].size + cs[i + 1].size)
    ensures Consistent(n, index, Joined(cs, i), start, end, multiset{cs[i].addr})
  {
    var hole := Chunk(cs[i].addr, cs[i].size + cs[i + 1].size, true);
    assert cs[i..i + 2] == [cs[i]] + [cs[i + 1]];
    Within(cs, start, cs[i]);
    Within(cs, start, cs[i + 1]);
    One(cs[i]);
    One(cs[i + 1]);
    One(hole);
    hide Word, ChunkAt, Tiles, Span, Holes, SameOutside, Consistent;
    SpanConcat([cs[i]], [cs[i + 1]]);
    HolesConcat([cs[i]], [cs[i + 1]]);
    ReplacedConsistent(m, n, index, cs, i, i + 2, [hole], start, end);
  }

  /** Kept lengths never make the heap longer. */
  lemma KeptFits(offset: nat, len: nat)
    requires OnPage(len) && MIN_SIZE <= len && offset + OVERHEAD <= len
    ensures KeptLength(offset) <= len
  {
  }

  lemma {:induction false} CutConsistent(m: Bytes, n: Bytes, index: seq<nat>, cs: seq<Chunk>, start: nat, end: nat, newEnd: nat)
    requires EndsInHole(cs) && Consistent(m, index, cs, start, end, multiset{cs[|cs| - 1].addr})
    requires var last := cs[|cs| - 1];
             && start <= last.addr <= newEnd <= end && newEnd == start + KeptLength(last.addr - start)
             && Written(n, HoleIf(last.addr, newEnd - last.addr)) && SameOutside(m, n, last.addr, newEnd)
    ensures Consistent(n, index, Cut(cs, start), start, newEnd, Holes(HoleIf(cs[|cs| - 1].addr, newEnd - cs[|cs| - 1].addr)))
  {
    hide Word, HeaderAt, ChunkAt, Written, Tiles, Span, Holes, SameOutside, SortedIndex, KeptLength, HoleIf;
    var l, last := cs[..|cs| - 1], cs[|cs| - 1];
    var rest := HoleIf(last.addr, newEnd - last.addr);
    assert cs == l + [last] + [] && l + rest + [] == Cut(cs, start);
    LastChunk(cs, start);
    One(last);
    HoleIfTiles(last.addr, newEnd - last.addr);
    SpanConcat(l, rest);
    assert l + rest + [] == l + rest;
    Rewrite(m, n, index, l, [last], rest, [], start, end, newEnd);
  }

  /** What the tags next to chunk `i` say, and when there is a neighbour at all. */
  lemma {:induction false} Neighbours(m: Bytes, index: seq<nat>, cs: seq<Chunk>, start: nat, end: nat, out: multiset<nat>, i: nat)
    requires Consistent(m, index, cs, start, end, out) && i < |cs|
    ensures start <= cs[i].addr && OVERHEAD <= cs[i].size && cs[i].addr + cs[i].size <= end
    ensures i > 0 <==> start < cs[i].addr
    ensures i > 0 ==> ChunkAt(m, cs[i - 1])
                      && start <= cs[i - 1].addr && cs[i - 1].addr + cs[i - 1].size == cs[i].addr
    ensures i + 1 < |cs| <==> cs[i].addr + cs[i].size < end
    ensures i + 1 < |cs| ==> ChunkAt(m, cs[i + 1]) && cs[i].addr + cs[i].size == cs[i + 1].addr
                             && cs[i + 1].addr + cs[i + 1].size <= end
  {
    Within(cs, start, cs[i]);
    if i > 0 {
      Adjoin(cs, start, i - 1);
      Within(cs, start, cs[i - 1]);
      assert cs[i - 1] in cs;
    }
    if i + 1 < |cs| {
      Adjoin(cs, start, i);
      Within(cs, start, cs[i + 1]);
      assert cs[i + 1] in cs;
    } else {
      LastChunk(cs, start);
    }
  }

  /** What the kernel reads to the left of chunk `i`. */
  lemma {:induction false} LeftTags(m: Bytes, index: seq<nat>, cs: seq<Chunk>, start: nat, end: nat, out: multiset<nat>, i: nat)
    requires Consistent(m, index, cs, start, end, out) && i < |cs| && i > 0
    ensures var left := cs[i - 1];
            && start <= left.addr && left.addr + left.size == cs[i].addr && OVERHEAD <= left.size
            && cs[i].addr + cs[i].size <= end
            && HEADER <= cs[i].addr <= |m| && left.addr + HEADER <= |m|
            && Word(m, cs[i].addr - FOOTER) == MAGIC && Word(m, cs[i].addr - FOOTER + 4) == left.addr
            && (m[left.addr + 4] == 1 <==> left.hole) && Word(m, left.addr + 8) == left.size
            && (left.hole && left.addr !in out ==> left.addr in index)
  {
    Neighbours(m, index, cs, start, end, out, i);
    assert ChunkAt(m, cs[i - 1]);
    if cs[i - 1].hole && cs[i - 1].addr !in out {
      HasEntry(m, index, cs, start, end, out, cs[i - 1]);
    }
  }

  /** What the kernel reads to the right of chunk `i`. */
  lemma {:induction false} RightTags(m: Bytes, index: seq<nat>, cs: seq<Chunk>, start: nat, end: nat, out: multiset<nat>, i: nat)
    requires Consistent(m, index, cs, start, end, out) && i + 1 < |cs|
    ensures var right := cs[i + 1];
            && right.addr == cs[i].addr + cs[i].size && OVERHEAD <= right.size && right.addr + HEADER <= |m|
            && right.addr + right.size <= end
            && Word(m, right.addr) == MAGIC
            && (m[right.addr + 4] == 1 <==> right.hole) && Word(m, right.addr + 8) == right.size
            && (right.hole && right.addr !in out ==> right.addr in index)
  {
    Neighbours(m, index, cs, start, end, out, i);
    assert ChunkAt(m, cs[i + 1]);
    Within(cs, start, cs[i + 1]);
    if cs[i + 1].hole && cs[i + 1].addr !in out {
      HasEntry(m, index, cs, start, end, out, cs[i + 1]);
    }
  }

  /** Where chunk `i` lies, and on which sides the heap goes on. */
  lemma {:induction false} Position(m: Bytes, index: seq<nat>, cs: seq<Chunk>, start: nat, end: nat, out: multiset<nat>, i: nat)
    requires Consistent(m, index, cs, start, end, out) && i < |cs|
    ensures start <= cs[i].addr && OVERHEAD <= cs[i].size && cs[i].addr + cs[i].size <= end
    ensures i > 0 <==> start < cs[i].addr
    ensures i + 1 < |cs| <==> cs[i].addr + cs[i].size < end
  {
    Neighbours(m, index, cs, start, end, out, i);
  }

  lemma {:induction false} Adjoin(cs: seq<Chunk>, start: nat, i: nat)
    requires Tiles(cs, start) && i + 1 < |cs|
    ensures cs[i].addr + cs[i].size == cs[i + 1].addr
  {
    if i > 0 {
      Adjoin(cs[1..], start + cs[0].size, i - 1);
    }
  }

  /** The block at `i` and nothing else stops being live. */
  lemma {:induction false} LiveReleased(cs: seq<Chunk>, i: nat, start: nat)
    requires i < |cs| && !cs[i].hole && Tiles(cs, start)
    ensures Live(Released(cs, i, start)) == Live(cs) - {cs[i]}
  {
    hide Tiles, Span, Cut, Live;
    var lo, hi := MergeFrom(cs, i), MergeTo(cs, i);
    var hole := Chunk(cs[lo].addr, Span(cs[lo..hi]), true);
    LiveReplaced(cs, lo, hi, [hole], start);
    LiveMerged(cs, i);
    LiveOfHole(hole);
    Within(cs, start, cs[lo]);
    CoalescedAt(cs, i);
    LiveSettled(Coalesced(cs, i), lo, start);
  }

  /** Of the chunks that merge, only the freed one is live. */
  lemma LiveMerged(cs: seq<Chunk>, i: nat)
    requires i < |cs| && !cs[i].hole
    ensures Live(cs[MergeFrom(cs, i)..MergeTo(cs, i)]) == {cs[i]}
  {
    assert cs[MergeFrom(cs, i)..MergeTo(cs, i)][i - MergeFrom(cs, i)] == cs[i];
  }

  lemma MergedOrNot(cs: seq<Chunk>, i: nat, b: Chunk)
    requires i < |cs| && !cs[i].hole && !b.hole && b != cs[i]
    ensures b !in cs[MergeFrom(cs, i)..MergeTo(cs, i)]
  {
    LiveMerged(cs, i);
    assert b !in Live(cs[MergeFrom(cs, i)..MergeTo(cs, i)]);
  }

  lemma LiveOfHole(c: Chunk)
    requires c.hole
    ensures Live([c]) == {}
  {
  }

  /** Cutting a final hole changes no live block. */
  lemma LiveSettled(cs: seq<Chunk>, k: nat, start: nat)
    requires k < |cs| && cs[k].hole && start <= cs[k].addr
    ensures Live(Settled(cs, k, start)) == Live(cs)
  {
    if k + 1 == |cs| {
      assert cs == cs[..k] + [cs[k]];
    }
  }

  /** Carving changes the live blocks by the new block alone. */
  lemma {:induction false} LiveCarved(cs: seq<Chunk>, i: nat, gap: nat, size: nat, start: nat)
    requires i < |cs| && cs[i].hole && Clean(cs[i], gap, size) && Tiles(cs, start)
    ensures var block := Chunk(cs[i].addr + gap, size, false);
            Live(Carved(cs, i, gap, size)) == Live(cs) + {block} && block !in cs
            && block in Carved(cs, i, gap, size)
  {
    var block := Chunk(cs[i].addr + gap, size, false);
    var mid := Pieces(cs[i], gap, size);
    LiveReplaced(cs, i, i + 1, mid, start);
    assert cs[i..i + 1] == [cs[i]];
    assert mid[|HoleIf(cs[i].addr, gap)|] == block;
    assert Live([cs[i]]) == {} && Live(mid) == {block};
    if block in cs {
      Disjoint(cs, start, block, cs[i]);
      Within(cs, start, block);
    }
  }

  lemma {:induction false} LiveGrown(cs: seq<Chunk>, end: nat, delta: nat)
    ensures Live(Grown(cs, end, delta)) == Live(cs)
  {
    if EndsInHole(cs) {
      assert cs == cs[..|cs| - 1] + [cs[|cs| - 1]];
    }
  }

  /** The block to be freed, as its header tells it. */
  lemma {:induction false} BlockFacts(m: Bytes, index: seq<nat>, cs: seq<Chunk>, start: nat, end: nat, i: nat)
    requires Consistent(m, index, cs, start, end, multiset{}) && i < |cs|
    ensures cs[i].addr + HEADER <= |m| && Word(m, cs[i].addr + 8) == cs[i].size
    ensures start <= cs[i].addr && OVERHEAD <= cs[i].size && cs[i].addr + cs[i].size <= end
  {
    assert ChunkAt(m, cs[i]);
    Within(cs, start, cs[i]);
  }

  /** How far a heap that ends in a hole can be cut. */
  lemma {:induction false} TailFacts(m: Bytes, index: seq<nat>, cs: seq<Chunk>, start: nat, end: nat) returns (shorter: seq<Chunk>)
    requires EndsInHole(cs) && Consistent(m, index, cs, start, end, multiset{cs[|cs| - 1].addr})
    requires OnPage(start) && OnPage(end) && start + MIN_SIZE <= end
    ensures var last := cs[|cs| - 1];
            && start <= last.addr && last.addr + last.size == end
            && shorter == Cut(cs, start)
            && var newEnd := start + KeptLength(last.addr - start);
            && last.addr <= newEnd <= end && OnPage(newEnd) && OnPage(KeptLength(last.addr - start))
            && start + MIN_SIZE <= newEnd
            && (newEnd == last.addr || last.addr + OVERHEAD <= newEnd)
  {
    LastChunk(cs, start);
    shorter := Cut(cs, start);
    OnPageShift(start, end - start);
    KeptFits(cs[|cs| - 1].addr - start, end - start);
    OnPageShift(start, KeptLength(cs[|cs| - 1].addr - start));
  }

  /** No byte of these blocks differs between the two memories. */
  ghost predicate Untouched(m: Bytes, n: Bytes, blocks: set<Chunk>) {
    |m| == |n| &&
    forall b, i :: b in blocks && b.addr <= i < b.addr + b.size && i < |m| ==> n[i] == m[i]
  }

  lemma NothingTouched(m: Bytes, blocks: set<Chunk>)
    ensures Untouched(m, m, blocks)
  {
  }

  lemma UntouchedTwice(m: Bytes, n: Bytes, o: Bytes, blocks: set<Chunk>)
    requires Untouched(m, n, blocks) && Untouched(n, o, blocks)
    ensures Untouched(m, o, blocks)
  {
  }

  /** Writing inside the merged hole touches no block that stays live. */
  lemma {:induction false} ReleaseUntouched(m: Bytes, n: Bytes, cs: seq<Chunk>, i: nat, start: nat)
    requires i < |cs| && !cs[i].hole && Tiles(cs, start)
    requires var hole := Coalesced(cs, i)[MergeFrom(cs, i)];
             SameOutside(m, n, hole.addr, hole.addr + hole.size)
    ensures Untouched(m, n, Live(Released(cs, i, start)))
  {
    var lo, hi := MergeFrom(cs, i), MergeTo(cs, i);
    hide Tiles, Span, Released;
    LiveReleased(cs, i, start);
    LiveOutside(cs, lo, hi, start);
    forall b | b in Live(Released(cs, i, start))
      ensures b.addr + b.size <= cs[lo].addr || cs[lo].addr + Span(cs[lo..hi]) <= b.addr
    {
      assert b != cs[i] && !b.hole && b in cs;
      MergedOrNot(cs, i, b);
    }
  }

  /** Chunks outside a run of chunks lie outside its range. */
  lemma {:induction false} LiveOutside(cs: seq<Chunk>, lo: nat, hi: nat, start: nat)
    requires lo < hi <= |cs| && Tiles(cs, start)
    ensures forall c :: c in cs && c !in cs[lo..hi] ==>
              c.addr + c.size <= cs[lo].addr || cs[lo].addr + Span(cs[lo..hi]) <= c.addr
  {
    SplitAt(cs, lo, hi, start);
    SpliceTiles(cs[..lo], cs[lo..hi], cs[hi..], start);
    forall c | c in cs && c !in cs[lo..hi]
      ensures c.addr + c.size <= cs[lo].addr || cs[lo].addr + Span(cs[lo..hi]) <= c.addr
    {
      if c in cs[..lo] {
        Within(cs[..lo], start, c);
      } else {
        Within(cs[hi..], cs[lo].addr + Span(cs[lo..hi]), c);
      }
    }
  }

  // ----- Growing and placing

  lemma {:induction false} GrownFacts(cs: seq<Chunk>, end: nat, delta: nat)
    ensures Live(Grown(cs, end, delta)) == Live(cs) && EndsInHole(Grown(cs, end, delta))
  {
    LiveGrown(cs, end, delta);
  }

  /** One growing step is one step of `Growth`. */
  lemma {:induction false} GrowStep(cs: seq<Chunk>, end: nat, need: nat, align: bool)
    requires need > 0 && !FitsSome(cs, need, align)
    ensures var next := Grown(cs, end, RoundUp(need));
            && Extra(cs, end, need, align) == RoundUp(need) + Extra(next, end + RoundUp(need), need, align)
            && GrownBy(cs, end, Extra(cs, end, need, align))
               == GrownBy(next, end + RoundUp(need), Extra(next, end + RoundUp(need), need, align))
  {
    hide Grown, Gap, RoundUp, FitsSome, TrailSize, TrailStart, EndsInHole, OnPage;
    var delta := RoundUp(need);
    var next := Grown(cs, end, delta);
    WholePages(need);
    GrownLast(cs, end, delta);
    StepFits(cs, end, need, align, delta);
    var trail, want := TrailSize(cs), Gap(TrailStart(cs, end), align) + need;
    assert Growth(trail, want, delta) == delta + Growth(trail + delta, want, delta);
    assert want <= trail + delta ==> Growth(trail + delta, want, delta) == 0;
    if Extra(next, end + delta, need, align) > 0 {
      GrownTwice(cs, end, delta, Extra(next, end + delta, need, align));
    }
  }

  /** The chunk at the end after growing. */
  lemma {:induction false} GrownLast(cs: seq<Chunk>, end: nat, delta: nat)
    ensures var next := Grown(cs, end, delta);
            && next != [] && next[|next| - 1] == Chunk(TrailStart(cs, end), TrailSize(cs) + delta, true)
            && EndsInHole(next)
            && TrailSize(next) == TrailSize(cs) + delta && TrailStart(next, end + delta) == TrailStart(cs, end)
            && (forall c :: c in next ==> c in cs || c == next[|next| - 1])
  {
  }

  /** When nothing fitted before, the stretched hole alone decides whether something fits now. */
  lemma {:induction false} StepFits(cs: seq<Chunk>, end: nat, need: nat, align: bool, delta: nat)
    requires need > 0 && !FitsSome(cs, need, align)
    ensures var want := Gap(TrailStart(cs, end), align) + need;
            && TrailSize(cs) < want
            && (FitsSome(Grown(cs, end, delta), need, align) <==> want <= TrailSize(cs) + delta)
  {
    var next := Grown(cs, end, delta);
    GrownLast(cs, end, delta);
    if EndsInHole(cs) {
      assert cs[|cs| - 1] in cs;
    }
    hide Grown, Gap, TrailStart;
    var last := next[|next| - 1];
    assert last in next;
    if FitsSome(next, need, align) {
      var c :| c in next && c.hole && Fits(c.addr, c.size, need, align);
      assert c in cs || c == last;
    }
  }

  lemma {:induction false} GrownTwice(cs: seq<Chunk>, end: nat, d: nat, e: nat)
    ensures Grown(Grown(cs, end, d), end + d, e) == Grown(cs, end, d + e)
  {
  }

  /**
   The growth is bounded: one step for an unaligned request, three for an aligned one, however
   much of the heap is already in use.
   */
  lemma {:induction false} GrowthBound(cs: seq<Chunk>, end: nat, need: nat, align: bool)
    requires need > 0
    ensures Extra(cs, end, need, align) <= (if align then 3 else 1) * RoundUp(need)
    ensures OnPage(Extra(cs, end, need, align))
  {
    hide Growth, Gap, RoundUp, OnPage, FitsSome, TrailSize, TrailStart;
    var trail, gap, delta := TrailSize(cs), Gap(TrailStart(cs, end), align), RoundUp(need);
    WholePages(need);
    assert gap <= if align then 2 * delta else 0;
    GrowthSteps(trail, gap + need, delta);
    GrowthOnPage(trail, gap + need, delta);
  }

  lemma WholePages(need: nat)
    requires need > 0
    ensures PAGE <= RoundUp(need) && OnPage(RoundUp(need)) && OnPage(0)
  {
  }

  lemma {:induction false} GrowthSteps(trail: nat, want: nat, delta: nat)
    requires delta > 0
    ensures want <= trail + delta ==> Growth(trail, want, delta) <= delta
    ensures want <= trail + 3 * delta ==> Growth(trail, want, delta) <= 3 * delta
  {
    var g1, g2 := Growth(trail + delta, want, delta), Growth(trail + 2 * delta, want, delta);
    assert g1 <= delta + g2;
    assert want <= trail + 3 * delta ==> g2 <= delta + Growth(trail + 3 * delta, want, delta);
  }

  lemma {:induction false} GrowthOnPage(trail: nat, want: nat, delta: nat)
    requires delta > 0 && OnPage(delta)
    ensures OnPage(Growth(trail, want, delta))
    decreases want - trail
  {
    hide OnPage;
    if trail < want {
      GrowthOnPage(trail + delta, want, delta);
      OnPageShift(delta, Growth(trail + delta, want, delta));
    } else {
      WholePages(1);
    }
  }

  lemma {:induction false} GrowUntouched(m: Bytes, n: Bytes, cs: seq<Chunk>, start: nat, end: nat)
    requires Tiles(cs, start)
    requires SameOutside(m, n, TrailStart(cs, start + Span(cs)), end)
    ensures Untouched(m, n, Live(cs))
  {
    if EndsInHole(cs) {
      var k := |cs| - 1;
      LastChunk(cs, start);
      assert cs[k..k + 1] == [cs[k]];
      SpanOne(cs[k]);
      LiveOutside(cs, k, k + 1, start);
      forall b | b in Live(cs) ensures b.addr + b.size <= cs[k].addr {
        Within(cs, start, b);
      }
    } else {
      forall b | b in Live(cs) ensures b.addr + b.size <= start + Span(cs) {
        Within(cs, start, b);
      }
    }
  }

  lemma {:induction false} PlaceUntouched(m: Bytes, n: Bytes, cs: seq<Chunk>, i: nat, start: nat)
    requires Tiles(cs, start) && i < |cs| && cs[i].hole
    requires SameOutside(m, n, cs[i].addr, cs[i].addr + cs[i].size)
    ensures Untouched(m, n, Live(cs))
  {
    assert cs[i..i + 1] == [cs[i]];
    SpanOne(cs[i]);
    LiveOutside(cs, i, i + 1, start);
  }

  /** The new block: big enough, aligned if asked for, and disjoint from what was there. */
  lemma {:induction false} PlacedBlock(cs: seq<Chunk>, i: nat, need: nat, align: bool, start: nat)
    requires Tiles(cs, start) && i < |cs| && cs[i].hole && need >= OVERHEAD
    requires Fits(cs[i].addr, cs[i].size, need, align)
    ensures NewBlock(cs, Placed(cs, i, need, align), cs[i].addr + Gap(cs[i].addr, align) + HEADER, need)
    ensures align ==> OnPage(cs[i].addr + Gap(cs[i].addr, align) + HEADER)
  {
    var gap := Gap(cs[i].addr, align);
    var size := BlockSize(cs[i].size - gap, need);
    hide Gap, BlockSize, Carved, Live, Tiles;
    LiveCarved(cs, i, gap, size, start);
    assert IsNewBlock(cs, Placed(cs, i, need, align), Chunk(cs[i].addr + gap, size, false), cs[i].addr + gap + HEADER, need);
  }

  /** `block` is the one block that became live, with room for the request at `p`. */
  ghost predicate IsNewBlock(before: seq<Chunk>, after: seq<Chunk>, block: Chunk, p: nat, need: nat) {
    && block.addr + HEADER == p && need <= block.size && !block.hole
    && block !in Live(before) && block in after
    && Live(after) == Live(before) + {block}
  }

  ghost predicate NewBlock(before: seq<Chunk>, after: seq<Chunk>, p: nat, need: nat) {
    exists block :: IsNewBlock(before, after, block, p, need)
  }

  lemma NewBlockFrame(before: seq<Chunk>, grown: seq<Chunk>, after: seq<Chunk>, p: nat, need: nat)
    requires NewBlock(grown, after, p, need) && Live(before) == Live(grown)
    ensures NewBlock(before, after, p, need)
  {
    var block :| IsNewBlock(grown, after, block, p, need);
    assert IsNewBlock(before, after, block, p, need);
  }

  /**
   The outcome of an allocation, from the tiling before it: it succeeds exactly when the growth
   it needs fits into the `room` below the maximum and into the free frames, and then the heap
   has grown by just that much and the block lies in a smallest fitting hole.
   */
  ghost predicate Outcome(cs: seq<Chunk>, end: nat, after: seq<Chunk>, newEnd: nat, p: nat,
                          room: int, frames: int, need: nat, align: bool)
    requires need > 0
  {
    var extra := Extra(cs, end, need, align);
    && (p != 0 <==> extra <= room && extra <= frames)
    && (p != 0 ==> newEnd == end + extra && BestPlaced(GrownBy(cs, end, extra), after, p, need, align))
  }

  /**
   What an outcome comes to: nothing grows when a hole can take the block; otherwise an unaligned
   request grows once, by its need in whole pages, and an aligned one by at most three times that, if
   address space and frames suffice.
   */
  lemma {:induction false} OutcomeBounds(cs: seq<Chunk>, end: nat, after: seq<Chunk>, newEnd: nat, p: nat,
                                         room: nat, frames: nat, need: nat, align: bool)
    requires need > 0 && Outcome(cs, end, after, newEnd, p, room, frames, need, align)
    ensures TakesSome(cs, need, align) ==> p != 0 && newEnd == end
    ensures (if align then 3 else 1) * RoundUp(need) <= room && (if align then 3 else 1) * RoundUp(need) <= frames ==> p != 0
    ensures p != 0 ==> newEnd <= end + (if align then 3 else 1) * RoundUp(need)
    ensures !TakesSome(cs, need, align) && p != 0 ==> end + RoundUp(need) <= newEnd <= end + room && newEnd <= end + frames
  {
    hide RoundUp, FitsSome, TakesSome, BestPlaced, GrownBy;
    FitsSomeExact(cs, need, align);
    GrowthBound(cs, end, need, align);
    if !FitsSome(cs, need, align) {
      GrowStep(cs, end, need, align);
    }
  }

  lemma OutcomePlaced(cs: seq<Chunk>, end: nat, after: seq<Chunk>, p: nat, room: nat, frames: nat, need: nat, align: bool)
    requires need > 0 && p != 0 && FitsSome(cs, need, align) && BestPlaced(cs, after, p, need, align)
    ensures Outcome(cs, end, after, end, p, room, frames, need, align)
  {
  }

  lemma BestAt(cs: seq<Chunk>, i: nat, need: nat, align: bool)
    requires Chosen(cs, i, need, align)
    ensures FitsSome(cs, need, align) && cs[i].hole && Fits(cs[i].addr, cs[i].size, need, align)
    ensures BestPlaced(cs, Placed(cs, i, need, align), cs[i].addr + Gap(cs[i].addr, align) + HEADER, need, align)
  {
  }

  lemma {:induction false} OutcomeRefused(cs: seq<Chunk>, end: nat, room: nat, frames: nat, need: nat, align: bool)
    requires need > 0 && !FitsSome(cs, need, align) && (RoundUp(need) > room || RoundUp(need) > frames)
    ensures Outcome(cs, end, cs, end, 0, room, frames, need, align)
  {
    GrowStep(cs, end, need, align);
  }

  lemma {:induction false} OutcomeGrown(cs: seq<Chunk>, end: nat, after: seq<Chunk>, newEnd: nat, p: nat,
                                        room: nat, frames: nat, need: nat, align: bool)
    requires need > 0 && !FitsSome(cs, need, align)
    requires var delta := RoundUp(need);
             Outcome(Grown(cs, end, delta), end + delta, after, newEnd, p, room - delta, frames - delta, need, align)
    ensures Outcome(cs, end, after, newEnd, p, room, frames, need, align)
  {
    GrowStep(cs, end, need, align);
    hide BestPlaced, GrownBy, Extra, Grown;
  }

  /**
   Freeing a block right after allocating it gives back the tiling from before, slack and
   front hole included; if the hole was the last chunk it is cut as far as any final hole is.
   */
  lemma {:induction false} AllocThenFree(cs: seq<Chunk>, i: nat, need: nat, align: bool, start: nat)
    requires Tiles(cs, start) && NoAdjacentHoles(cs) && i < |cs| && cs[i].hole && need >= OVERHEAD
    requires Fits(cs[i].addr, cs[i].size, need, align)
    ensures start <= cs[i].addr
    ensures var p := cs[i].addr + Gap(cs[i].addr, align) + HEADER;
            var placed := Placed(cs, i, need, align);
            && Tiles(placed, start) && BlockAt(placed, p - HEADER)
            && Released(placed, Find(placed, p - HEADER), start) == Settled(cs, i, start)
            && Trimmed(cs, i, Released(placed, Find(placed, p - HEADER), start), start)
    ensures i + 1 < |cs| ==> Settled(cs, i, start) == cs
  {
    hide Tiles, NoAdjacentHoles, Carved, Coalesced, Cut, Find, HoleIf, MergeFrom, Gap, BlockSize, Trimmed;
    var gap := Gap(cs[i].addr, align);
    var size := BlockSize(cs[i].size - gap, need);
    Within(cs, start, cs[i]);
    SettledTrims(cs, i, start);
    PlacedTiles(cs, i, gap, size, start);
    CarveThenCoalesce(cs, i, gap, size, start);
    var placed := Carved(cs, i, gap, size);
    var k := i + |HoleIf(cs[i].addr, gap)|;
    FindAt(placed, start, k);
    CarvedMerge(cs, i, gap, size);
  }

  /** The tiling is as before, except for a cut if the chosen hole is the last chunk. */
  ghost predicate Restored(before: seq<Chunk>, after: seq<Chunk>, need: nat, align: bool, start: nat) {
    exists i: nat :: Chosen(before, i, need, align) && Trimmed(before, i, after, start)
  }

  /** The same, from what allocating promises to what freeing starts from. */
  lemma {:induction false} PlacedThenReleased(cs: seq<Chunk>, after: seq<Chunk>, p: nat, need: nat, align: bool, start: nat)
    requires Tiles(cs, start) && NoAdjacentHoles(cs) && need >= OVERHEAD && BestPlaced(cs, after, p, need, align)
    ensures HEADER <= p && Tiles(after, start) && BlockAt(after, p - HEADER)
    ensures Restored(cs, Released(after, Find(after, p - HEADER), start), need, align, start)
    ensures Live(Released(after, Find(after, p - HEADER), start)) == Live(cs)
  {
    hide Tiles, NoAdjacentHoles, Placed, Released, Find, Settled, Gap;
    var i: nat :| Chosen(cs, i, need, align) && after == Placed(cs, i, need, align)
                  && p == cs[i].addr + Gap(cs[i].addr, align) + HEADER;
    AllocThenFree(cs, i, need, align, start);
    LiveSettled(cs, i, start);
  }

  lemma {:induction false} PlacedTiles(cs: seq<Chunk>, i: nat, gap: nat, size: nat, start: nat)
    requires Tiles(cs, start) && i < |cs| && Clean(cs[i], gap, size)
    ensures Tiles(Carved(cs, i, gap, size), start)
  {
    SplitAt(cs, i, i + 1, start);
    assert cs[i..i + 1] == [cs[i]];
    SpanOne(cs[i]);
    PiecesTile(cs[i], gap, size);
    PiecesSpan(cs[i], gap, size);
    RewriteTiles(cs[..i], [cs[i]], Pieces(cs[i], gap, size), cs[i + 1..], start);
  }

  lemma {:induction false} CarvedMerge(cs: seq<Chunk>, i: nat, gap: nat, size: nat)
    requires i < |cs| && cs[i].hole && NoAdjacentHoles(cs) && gap + size <= cs[i].size
    ensures var k := i + |HoleIf(cs[i].addr, gap)|;
            k < |Carved(cs, i, gap, size)| && MergeFrom(Carved(cs, i, gap, size), k) == i
  {
    if i > 0 {
      HoleNeighbours(cs, i - 1);
    }
  }

  /** The length of a merged range: a hole to the left if there is one, the block, the hole to the right. */
  lemma {:induction false} MergedSpan(cs: seq<Chunk>, i: nat)
    requires i + 1 < |cs|
    ensures Span(cs[MergeFrom(cs, i)..i + 2])
            == (if MergeFrom(cs, i) < i then cs[i - 1].size else 0) + cs[i].size + cs[i + 1].size
  {
    SpanOne(cs[i]);
    SpanOne(cs[i + 1]);
    SpanConcat([cs[i]], [cs[i + 1]]);
    assert cs[i..i + 2] == [cs[i]] + [cs[i + 1]];
    if MergeFrom(cs, i) < i {
      SpanOne(cs[i - 1]);
      SpanConcat([cs[i - 1]], cs[i..i + 2]);
      assert cs[i - 1..i + 2] == [cs[i - 1]] + cs[i..i + 2];
    }
  }
}
