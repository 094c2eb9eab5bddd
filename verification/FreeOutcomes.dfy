/**
 `Heap::Free` as it is written, in every case: bytes left over next to the heap may look like tags,
 since the text probes them without regard to the heap's ends (kernel/Heap.cpp:173-175 and 186-188).
 */
module FreeOutcomes {
  import opened Memory
  import opened Options
  import opened OrderedLists
  import opened BoundaryTags
  import opened HeapSteps
  import opened HeapAsWritten
  import opened RawTags
  import opened Freeing

  // ----- A stale footer before the heap

  lemma TakenIn(index: seq<nat>, a: nat)
    ensures Taken(index, a).Some? ==> forall x :: x in Taken(index, a).value ==> x in index
    ensures forall x :: x in Without(index, a) ==> x in index
  {
    hide Search;
  }

  lemma KeptBound(offset: nat)
    requires offset < ADDRESS_SPACE
    ensures MIN_SIZE <= KeptAsWritten(offset) < ADDRESS_SPACE
  {
  }

  lemma CutEnd(m: Bytes, index: Option<seq<nat>>, h: nat, right: nat, start: nat, end: nat)
    requires start < ADDRESS_SPACE
    ensures var (_, rest, newEnd) := AfterCut(m, index, h, right, start, end);
            && newEnd != start
            && (rest == index || (index.Some? && rest == Some(Without(index.value, right))))
  {
    hide Without, PutFooter, Write, ReadWord, KeptAsWritten;
    KeptBound(W32(h - start));
  }

  /** When the text believes it has joined left, it inserts nothing. */
  lemma JoinedEntries(m: Bytes, index: seq<nat>, header: nat, start: nat, end: nat)
    requires AfterLeft(m, header, ReadWord(m, header + 8)).2 && start < end < ADDRESS_SPACE
    ensures var (_, after, newEnd) := FreeAsWritten(m, index, header, start, end);
            newEnd != start && (after.Some? ==> forall a :: a in after.value ==> a in index)
  {
    hide AfterLeft, AfterCut, ReadWord, Write, GoesRight, Without, Taken;
    var size := ReadWord(m, header + 8);
    var right := header + size;
    var (n, h, _) := AfterLeft(m, header, size);
    var (o, rest, top) := AfterRight(n, index, h, right);
    TakenIn(index, right);
    CutEnd(o, rest, h, right, start, end);
    if rest.Some? {
      TakenIn(rest.value, right);
    }
  }

  /** A heap without a block or an entry at its start is none. */
  lemma {:induction false} NothingAtStart(m: Bytes, index: seq<nat>, start: nat, end: nat, live: set<Chunk>)
    requires start !in index && end != start && forall c :: c in live ==> c.addr != start
    ensures !SoundWith(m, index, start, end, live)
  {
    hide Written, SortedIndex;
    assert start !in multiset(index) + multiset{};
    forall x ensures !IsHeap(m, index, x, start, end, live) {
      if IsHeap(m, index, x, start, end, live) {
        First(x, start);
      }
    }
  }

  lemma {:induction false} First(x: seq<Chunk>, start: nat)
    requires Tiles(x, start) && x != []
    ensures start in Holes(x) || exists c :: c in Live(x) && c.addr == start
  {
    assert x[0] in x;
    HolesAreChunks(x, start);
    assert x[0].hole || x[0] in Live(x);
  }

  lemma {:induction false} StartIsBlock(m: Bytes, index: seq<nat>, cs: seq<Chunk>, start: nat, end: nat)
    requires Consistent(m, index, cs, start, end, multiset{}) && cs != [] && !cs[0].hole
    ensures cs[0].addr == start && start !in index && start < end
    ensures forall c :: c in Live(cs) - {cs[0]} ==> c.addr != start
  {
    hide Written, SortedIndex, Word;
    Within(cs, start, cs[0]);
    HolesAreChunks(cs, start);
    assert start in index ==> start in multiset(index);
    forall c | c in cs && c != cs[0] ensures c.addr != start {
      Disjoint(cs, start, c, cs[0]);
      Within(cs, start, c);
    }
  }

  /** The first block is not freed but lost. */
  lemma {:induction false} StaleFooterFails(m: Bytes, index: seq<nat>, cs: seq<Chunk>, start: nat, end: nat)
    requires Consistent(m, index, cs, start, end, multiset{}) && cs != [] && !cs[0].hole
    requires StaleFooter(m, start) && FOOTER <= start && end < ADDRESS_SPACE == |m|
    ensures !Works(FreeAsWritten(m, index, cs[0].addr, start, end), start, Live(cs) - {cs[0]})
  {
    hide Tiles, Span, Holes, SortedIndex, Written, Word, ReadWord, ReadByte, StaleFooter, FreeAsWritten, Consistent, Live, SoundWith,
         AfterLeft;
    StartIsBlock(m, index, cs, start, end);
    BlockFacts(m, index, cs, start, end, 0);
    StaleIsJoined(m, start);
    GoesLeftJoins(m, start);
    JoinedEntries(m, index, start, start, end);
    var (p, after, newEnd) := FreeAsWritten(m, index, start, start, end);
    if after.Some? {
      NothingAtStart(p, after.value, start, newEnd, Live(cs) - {cs[0]});
    }
  }

  lemma GoesLeftJoins(m: Bytes, header: nat)
    requires GoesLeft(Mark(m, header), header)
    ensures AfterLeft(m, header, ReadWord(m, header + 8)).2
  {
  }

  // ----- A stale header behind the heap

  lemma WithoutAbsent(index: seq<nat>, a: nat)
    requires a !in index
    ensures Without(index, a) == index && Search(index, a) == |index|
  {
  }

  lemma {:induction false} EndNotIndexed(m: Bytes, index: seq<nat>, cs: seq<Chunk>, start: nat, end: nat)
    requires Consistent(m, index, cs, start, end, multiset{})
    ensures end !in index
  {
    hide Written, SortedIndex, Word;
    HolesOnce(cs, start, end);
    assert end in index ==> end in multiset(index);
  }

  function AllButLast(index: seq<nat>): Option<seq<nat>> {
    if index == [] then None else Some(index[..|index| - 1])
  }

  /** What freeing the last block does when a stale header follows the heap: the last entry goes. */
  lemma {:induction false} StaleFree(m: Bytes, index: seq<nat>, cs: seq<Chunk>, start: nat, end: nat, i: nat) returns (o: Bytes)
    requires Consistent(m, index, cs, start, end, multiset{})
    requires (i == 0 ==> !StaleFooter(m, start)) && FOOTER <= start && end < ADDRESS_SPACE == |m|
    requires i + 1 == |cs| && !cs[i].hole && GoesRight(m, end)
    ensures var h, size := cs[MergeFrom(cs, i)].addr, ReadWord(m, end + 8);
            && start <= h && h + OVERHEAD <= end
            && HeaderAt(o, h, W32(end - h + size), true) && SameOutside(m, o, h, end)
            && var (p, left, newEnd) := if size == 0 then AfterCut(o, AllButLast(index), h, end, start, end)
                                        else (o, AllButLast(index), end);
               FreeAsWritten(m, index, cs[i].addr, start, end)
               == (p, if MergeFrom(cs, i) < i then left else WithHole(p, left, h), newEnd)
  {
    hide Tiles, Span, Holes, SortedIndex, Written, Word, SameOutside, HeaderAt, FooterAt, ReadWord, ReadByte, Write, StaleFooter,
         AfterLeft, AfterCut, Consistent, WithHole, GoesRight, Without, Search, W32;
    AfterLeftFacts(m, index, cs, start, end, i);
    Neighbours(m, index, cs, start, end, multiset{}, i);
    Neighbours(m, index, cs, start, end, multiset{}, MergeFrom(cs, i));
    EndNotIndexed(m, index, cs, start, end);
    WithoutAbsent(index, end);
    var (n, h, _) := AfterLeft(m, cs[i].addr, cs[i].size);
    var size := ReadWord(m, end + 8);
    RightFrame(m, n, end, h, end);
    HeaderSize(n, h, end - h, true);
    WriteWraps(n, h + 8, end - h + size);
    o := Write(n, h + 8, end - h + size);
    SizeWrite(n, h, end - h, W32(end - h + size));
    Compose(m, n, o, h, end, h, h + HEADER, h, end);
    SumWraps(end, size);
  }

  lemma WriteWraps(m: Bytes, a: int, v: nat)
    ensures Write(m, a, v) == Write(m, a, W32(v))
  {
  }

  lemma SumWraps(end: nat, size: nat)
    requires end < ADDRESS_SPACE && size < ADDRESS_SPACE
    ensures W32(end + size) == end <==> size == 0
  {
  }

  /** The last entry of the index, and the holes before the merged one. */
  lemma {:induction false} LastEntry(m: Bytes, index: seq<nat>, cs: seq<Chunk>, start: nat, end: nat, i: nat)
    requires Consistent(m, index, cs, start, end, multiset{}) && index != []
    requires i + 1 == |cs| && !cs[i].hole
    ensures var lo := MergeFrom(cs, i);
            var h, rest, last := cs[lo].addr, index[..|index| - 1], index[|index| - 1];
            && last !in rest
            && (lo == i || last != h ==> last != h && last in Holes(cs[..lo]))
            && (lo < i && last == h ==> multiset(rest) == Holes(cs[..lo]))
            && (lo < i && last != h ==> h in rest)
  {
    hide Word, Written, SortedIndex, Tiles, Span;
    var lo := MergeFrom(cs, i);
    var h, rest, last := cs[lo].addr, index[..|index| - 1], index[|index| - 1];
    assert index == rest + [last];
    assert multiset(index) == multiset(rest) + multiset{last};
    forall j | 0 <= j < |rest| ensures rest[j] != last {
      EntryOnce(m, index, cs, start, end, j, |index| - 1);
    }
    TailHoles(cs, i);
    assert cs == cs[..lo] + cs[lo..];
    HolesConcat(cs[..lo], cs[lo..]);
    assert multiset(index) + multiset{} == multiset(index) == Holes(cs);
    assert last in multiset(index);
    if lo == i {
      NotAHole(m, index, cs, start, end, i);
    } else {
      HasEntry(m, index, cs, start, end, multiset{}, cs[i - 1]);
      if last == h {
        Cancel(multiset(rest), Holes(cs[..lo]), multiset{h}, multiset{});
      }
    }
  }

  lemma {:induction false} TailHoles(cs: seq<Chunk>, i: nat)
    requires i + 1 == |cs| && !cs[i].hole
    ensures Holes(cs[MergeFrom(cs, i)..]) == if MergeFrom(cs, i) < i then multiset{cs[i - 1].addr} else multiset{}
  {
    assert cs[i + 1..] == [];
    assert Holes(cs[i + 1..]) == multiset{};
    HolesBehind(cs, i);
    if MergeFrom(cs, i) < i {
      HolesFrom(cs, i);
    }
  }

  lemma {:induction false} NotAHole(m: Bytes, index: seq<nat>, cs: seq<Chunk>, start: nat, end: nat, i: nat)
    requires Consistent(m, index, cs, start, end, multiset{}) && i < |cs| && !cs[i].hole
    ensures cs[i].addr !in index && cs[i].addr !in Holes(cs)
  {
    hide Word, Written, SortedIndex;
    HolesAreChunks(cs, cs[i].addr);
    assert cs[i].addr in index ==> cs[i].addr in multiset(index);
    forall c | c in cs && c.hole ensures c.addr != cs[i].addr {
      Disjoint(cs, start, c, cs[i]);
      Within(cs, start, c);
      Within(cs, start, cs[i]);
    }
  }

  /** A hole before the merged one that is missing from the index. */
  lemma {:induction false} LostEntry(p: Bytes, after: seq<nat>, l: seq<Chunk>, lost: nat, start: nat, newEnd: nat)
    requires Tiles(l, start) && (forall c :: c in l ==> HeaderAt(p, c.addr, c.size, c.hole)) && start + Span(l) <= newEnd
    requires lost in Holes(l) && lost !in after
    ensures !Sound(p, after, start, newEnd)
  {
    hide Word, SortedIndex, HeaderAt, FooterAt, Holes, Tiles, Span;
    assert lost !in multiset(after) + multiset{};
    forall x ensures !Consistent(p, after, x, start, newEnd, multiset{}) {
      if Consistent(p, after, x, start, newEnd, multiset{}) {
        Prefix(p, x, l, start);
        HolesConcat(l, x[|l|..]);
      }
    }
  }

  lemma {:induction false} Prefix(p: Bytes, x: seq<Chunk>, l: seq<Chunk>, start: nat)
    requires Tiles(x, start) && Tiles(l, start) && Written(p, x) && Span(l) <= Span(x)
    requires forall c :: c in l ==> HeaderAt(p, c.addr, c.size, c.hole)
    ensures |l| <= |x| && x == l + x[|l|..] && Tiles(x[|l|..], start + Span(l)) && Span(x) == Span(l) + Span(x[|l|..])
  {
    hide Word, HeaderAt, FooterAt;
    PrefixWalk(p, x, l, start);
    assert x == l + x[|l|..];
    TilesConcat(l, x[|l|..], start);
    SpanConcat(l, x[|l|..]);
  }

  /** Room behind the chunks before the hole, but neither a hole nor a block for it. */
  lemma {:induction false} NothingLeft(p: Bytes, after: seq<nat>, l: seq<Chunk>, start: nat, newEnd: nat)
    requires Tiles(l, start) && (forall c :: c in l ==> HeaderAt(p, c.addr, c.size, c.hole)) && start + Span(l) < newEnd
    requires multiset(after) == Holes(l)
    ensures !SoundWith(p, after, start, newEnd, Live(l))
  {
    hide Word, SortedIndex, HeaderAt, FooterAt, Holes;
    forall x ensures !IsHeap(p, after, x, start, newEnd, Live(l)) {
      if IsHeap(p, after, x, start, newEnd, Live(l)) {
        Prefix(p, x, l, start);
        var r := x[|l|..];
        HolesConcat(l, r);
        NoMore(Holes(l), Holes(r));
        Newcomer(l, r, start);
      }
    }
  }

  /** Chunks that are no holes are blocks that were not there before. */
  lemma {:induction false} Newcomer(l: seq<Chunk>, r: seq<Chunk>, start: nat)
    requires Tiles(l, start) && Tiles(r, start + Span(l)) && Span(r) > 0 && Holes(r) == multiset{}
    ensures Live(l + r) != Live(l)
  {
    var c := r[0];
    assert c in r;
    HolesAreChunks(r, c.addr);
    Within(r, start + Span(l), c);
    if c in l {
      Within(l, start, c);
    }
    assert c in Live(l + r) && c !in Live(l);
  }

  lemma NoMore(l: multiset<nat>, r: multiset<nat>)
    requires l + r == l + multiset{}
    ensures r == multiset{}
  {
    forall a ensures r[a] == 0 {
      assert (l + r)[a] == (l + multiset{})[a];
    }
  }

  /** A block that reaches beyond the heap's end. */
  lemma {:induction false} CutOff(p: Bytes, after: seq<nat>, start: nat, newEnd: nat, live: set<Chunk>, c: Chunk)
    requires c in live && newEnd < c.addr + c.size
    ensures !SoundWith(p, after, start, newEnd, live)
  {
    forall x ensures !IsHeap(p, after, x, start, newEnd, live) {
      if IsHeap(p, after, x, start, newEnd, live) {
        Within(x, start, c);
      }
    }
  }

  /** When freeing the last block works in spite of a stale header: it is empty, and the hole vanishes. */
  predicate StaleWorks(m: Bytes, index: seq<nat>, cs: seq<Chunk>, start: nat, end: nat, i: nat)
    requires i < |cs|
  {
    var lo := MergeFrom(cs, i);
    var h := cs[lo].addr;
    && ReadWord(m, end + 8) == 0
    && lo < i && index != [] && index[|index| - 1] == h
    && start <= h && KeptAsWritten(h - start) == h - start
  }

  lemma {:induction false} StaleHeaderExact(m: Bytes, index: seq<nat>, cs: seq<Chunk>, start: nat, end: nat, i: nat)
    requires Consistent(m, index, cs, start, end, multiset{}) && NoAdjacentHoles(cs)
    requires (i == 0 ==> !StaleFooter(m, start)) && FOOTER <= start && start + MIN_SIZE <= end < ADDRESS_SPACE == |m|
    requires i + 1 == |cs| && !cs[i].hole && GoesRight(m, end)
    ensures Works(FreeAsWritten(m, index, cs[i].addr, start, end), start, Live(cs) - {cs[i]})
            <==> StaleWorks(m, index, cs, start, end, i)
  {
    hide Tiles, Span, Holes, SortedIndex, Written, Word, SameOutside, HeaderAt, FooterAt, ReadWord, ReadByte, StaleFooter,
         AfterCut, Consistent, SoundWith, Sound, GoesRight, FreeAsWritten, Live, KeptAsWritten, NoAdjacentHoles, Inserted, W32;
    var lo := MergeFrom(cs, i);
    var h, size := cs[lo].addr, ReadWord(m, end + 8);
    var o := StaleFree(m, index, cs, start, end, i);
    TilesOf(m, index, cs, start, end, multiset{});
    LiveBefore(cs, i, start);
    if index == [] {
      NoList(o, h, end, start, end);
    } else if size != 0 {
      StaleLong(m, o, index, cs, start, end, i);
    } else if h < start + MIN_SIZE {
      KeptShort(h - start);
      StaleShort(m, o, index, cs, start, end, i);
    } else {
      StaleGone(m, o, index, cs, start, end, i);
    }
  }

  lemma NoList(m: Bytes, h: nat, right: nat, start: nat, end: nat)
    ensures AfterCut(m, None, h, right, start, end).1.None?
  {
  }

  /** The entries after freeing, when the last one has been dropped. */
  function Remaining(p: Bytes, index: seq<nat>, h: nat, joined: bool): seq<nat>
    requires index != []
  {
    var rest := index[..|index| - 1];
    if joined then rest else Inserted(rest, h, BySize(p))
  }

  lemma InsertedIn(s: seq<nat>, item: nat, less: (nat, nat) -> bool, a: nat)
    requires a !in s && a != item
    ensures a !in Inserted(s, item, less)
  {
    hide InsertPoint;
  }

  /** Whatever end beyond the hole there is: an entry is missing, or the hole is. */
  lemma {:induction false} EntryMissing(m: Bytes, p: Bytes, index: seq<nat>, cs: seq<Chunk>, start: nat, end: nat, i: nat, newEnd: nat)
    requires Consistent(m, index, cs, start, end, multiset{}) && index != [] && i + 1 == |cs| && !cs[i].hole
    requires FOOTER <= start <= cs[MergeFrom(cs, i)].addr < newEnd && SameOutside(m, p, cs[MergeFrom(cs, i)].addr - FOOTER, |m|)
    ensures !SoundWith(p, Remaining(p, index, cs[MergeFrom(cs, i)].addr, MergeFrom(cs, i) < i), start, newEnd, Live(cs) - {cs[i]})
  {
    hide Tiles, Span, Holes, SortedIndex, Written, Word, SameOutside, HeaderAt, FooterAt, Consistent, SoundWith, Sound, Live, Inserted;
    var lo := MergeFrom(cs, i);
    var h, rest, last := cs[lo].addr, index[..|index| - 1], index[|index| - 1];
    var after := Remaining(p, index, h, lo < i);
    TilesOf(m, index, cs, start, end, multiset{});
    LiveBefore(cs, i, start);
    LastEntry(m, index, cs, start, end, i);
    PrefixHeaders(m, p, index, cs, start, end, lo);
    if lo < i && last == h {
      NothingLeft(p, after, cs[..lo], start, newEnd);
    } else {
      if lo == i {
        InsertedIn(rest, h, BySize(p), last);
      }
      LostEntry(p, after, cs[..lo], last, start, newEnd);
      if SoundWith(p, after, start, newEnd, Live(cs) - {cs[i]}) {
        SoundAtAll(p, after, start, newEnd, Live(cs) - {cs[i]});
      }
    }
  }

  lemma {:induction false} StaleLong(m: Bytes, o: Bytes, index: seq<nat>, cs: seq<Chunk>, start: nat, end: nat, i: nat)
    requires Consistent(m, index, cs, start, end, multiset{}) && index != [] && i + 1 == |cs| && !cs[i].hole
    requires FOOTER <= start <= cs[MergeFrom(cs, i)].addr && SameOutside(m, o, cs[MergeFrom(cs, i)].addr, end) && end <= |m|
    requires cs[MergeFrom(cs, i)].addr + OVERHEAD <= end
    ensures var h, joined := cs[MergeFrom(cs, i)].addr, MergeFrom(cs, i) < i;
            !Works((o, if joined then AllButLast(index) else WithHole(o, AllButLast(index), h), end), start, Live(cs) - {cs[i]})
  {
    hide Tiles, Span, Holes, SortedIndex, Written, Word, Consistent, SoundWith, Live, Inserted;
    EntryMissing(m, o, index, cs, start, end, i, end);
  }

  lemma {:induction false} StaleShort(m: Bytes, o: Bytes, index: seq<nat>, cs: seq<Chunk>, start: nat, end: nat, i: nat)
    requires Consistent(m, index, cs, start, end, multiset{}) && index != [] && i + 1 == |cs| && !cs[i].hole
    requires var h := cs[MergeFrom(cs, i)].addr;
             && FOOTER <= start <= h < start + MIN_SIZE <= end < ADDRESS_SPACE == |m| && h + OVERHEAD <= end
             && HeaderAt(o, h, W32(end - h), true) && SameOutside(m, o, h, end)
    ensures var h, joined := cs[MergeFrom(cs, i)].addr, MergeFrom(cs, i) < i;
            var (p, left, newEnd) := AfterCut(o, AllButLast(index), h, end, start, end);
            !Works((p, if joined then left else WithHole(p, left, h), newEnd), start, Live(cs) - {cs[i]})
  {
    hide Tiles, Span, Holes, SortedIndex, Written, Word, Consistent, SoundWith, Live, Inserted, AfterCut, HeaderAt, SameOutside;
    var h := cs[MergeFrom(cs, i)].addr;
    CutShort(m, o, AllButLast(index), h, end, start, end);
    var (p, _, newEnd) := AfterCut(o, AllButLast(index), h, end, start, end);
    EntryMissing(m, p, index, cs, start, end, i, newEnd);
  }

  /** From the minimum length on: either the hole's entry stays, or it is the one that goes. */
  lemma {:induction false} StaleGone(m: Bytes, o: Bytes, index: seq<nat>, cs: seq<Chunk>, start: nat, end: nat, i: nat)
    requires Consistent(m, index, cs, start, end, multiset{}) && NoAdjacentHoles(cs) && index != [] && i + 1 == |cs| && !cs[i].hole
    requires var h := cs[MergeFrom(cs, i)].addr;
             && start + MIN_SIZE <= h && h + OVERHEAD <= end < ADDRESS_SPACE == |m|
             && HeaderAt(o, h, W32(end - h), true) && SameOutside(m, o, h, end)
    ensures var h, joined := cs[MergeFrom(cs, i)].addr, MergeFrom(cs, i) < i;
            var (p, left, newEnd) := AfterCut(o, AllButLast(index), h, end, start, end);
            Works((p, if joined then left else WithHole(p, left, h), newEnd), start, Live(cs) - {cs[i]})
            <==> joined && index[|index| - 1] == h && KeptAsWritten(h - start) == h - start
  {
    hide Tiles, Span, Holes, SortedIndex, Written, Word, Consistent, SoundWith, Sound, Live, Inserted, AfterCut, HeaderAt, SameOutside,
         NoAdjacentHoles, KeptAsWritten, Without;
    var lo := MergeFrom(cs, i);
    var h, rest, last := cs[lo].addr, index[..|index| - 1], index[|index| - 1];
    var (p, left, newEnd) := AfterCut(o, Some(rest), h, end, start, end);
    CutAway(o, Some(rest), h, end, start, end);
    EndNotIndexed(m, index, cs, start, end);
    WithoutAbsent(rest, end);
    LastEntry(m, index, cs, start, end, i);
    var after := if lo < i then rest else Inserted(rest, h, BySize(p));
    if lo == i || last != h {
      if lo == i {
        GoesIn(rest, h, BySize(p));
      }
      Beyond(p, after, h, start, newEnd);
      if SoundWith(p, after, start, newEnd, Live(cs) - {cs[i]}) {
        SoundAtAll(p, after, start, newEnd, Live(cs) - {cs[i]});
      }
    } else if newEnd < h {
      var c := BlockBefore(m, index, cs, start, end, i);
      CutOff(p, after, start, newEnd, Live(cs) - {cs[i]}, c);
    } else {
      NoneLeft(o, Some(rest), h, end, start, end);
      Vanished(m, o, index, cs, start, end, i);
    }
  }

  /** What lies right before the merged hole is a live block. */
  lemma {:induction false} BlockBefore(m: Bytes, index: seq<nat>, cs: seq<Chunk>, start: nat, end: nat, i: nat) returns (c: Chunk)
    requires Consistent(m, index, cs, start, end, multiset{}) && NoAdjacentHoles(cs) && i + 1 == |cs| && !cs[i].hole
    requires start < cs[MergeFrom(cs, i)].addr
    ensures c in Live(cs) - {cs[i]} && c.addr + c.size == cs[MergeFrom(cs, i)].addr
  {
    hide Word, Written, SortedIndex, Holes, Span;
    var lo := MergeFrom(cs, i);
    Neighbours(m, index, cs, start, end, multiset{}, lo);
    Neighbours(m, index, cs, start, end, multiset{}, i);
    if lo < i {
      HoleNeighbours(cs, lo - 1);
    }
    c := cs[lo - 1];
  }

  lemma NoneLeft(o: Bytes, index: Option<seq<nat>>, h: nat, right: nat, start: nat, end: nat)
    requires start <= h <= end < ADDRESS_SPACE && KeptAsWritten(h - start) == h - start && HeaderAt(o, h, W32(end - h), true)
    ensures AfterCut(o, index, h, right, start, end)
            == (o, if index.Some? then Some(Without(index.value, right)) else None, h)
  {
    hide KeptAsWritten, Word, Without, PutFooter, Write;
    HeaderSize(o, h, end - h, true);
  }

  lemma {:induction false} Vanished(m: Bytes, o: Bytes, index: seq<nat>, cs: seq<Chunk>, start: nat, end: nat, i: nat)
    requires Consistent(m, index, cs, start, end, multiset{}) && index != [] && i + 1 == |cs| && !cs[i].hole && NoAdjacentHoles(cs)
    requires MergeFrom(cs, i) < i && index[|index| - 1] == cs[i - 1].addr && SameOutside(m, o, cs[i - 1].addr, end)
    ensures SoundWith(o, index[..|index| - 1], start, cs[i - 1].addr, Live(cs) - {cs[i]})
  {
    hide Word, ChunkAt, Tiles, Span, Holes, SameOutside, SortedIndex, Written, Live, SoundWith, NoAdjacentHoles;
    TailNoAdjacent(cs, i, end);
    var k, l, mid := |index| - 1, cs[..i - 1], cs[i - 1..];
    TakeOut(m, index, k, cs, start, end, multiset{});
    assert Removed(index, k) == index[..k];
    TailHoles(cs, i);
    assert multiset{} + multiset{index[k]} == multiset{index[k]} == Holes(mid);
    SplitAt(cs, i - 1, |cs|, start);
    LiveBefore(cs, i, start);
    assert cs == l + mid + [] && cs[i - 1..|cs|] == mid && cs[|cs|..] == [];
    Empty(o, start + Span(l));
    Rewrite(m, o, index[..k], l, mid, [], [], start, end, end);
    assert l + [] + [] == l;
    SoundBy(o, index[..k], l, start, cs[i - 1].addr);
  }

  lemma Empty(o: Bytes, a: nat)
    ensures Written(o, []) && Tiles([], a) && Holes([]) == multiset{}
  {
  }

  // ----- Every case

  /** When freeing block `i` as written does what is meant; everything can be read before the call. */
  predicate FreeWorks(m: Bytes, index: seq<nat>, cs: seq<Chunk>, start: nat, end: nat, i: nat)
    requires i < |cs| && !cs[i].hole
  {
    && (i == 0 ==> !StaleFooter(m, start))
    && if MergeTo(cs, i) < |cs| then InsideWorks(m, index, cs, i)
       else if i + 1 == |cs| && GoesRight(m, end) then StaleWorks(m, index, cs, start, end, i)
       else EndWorks(m, index, cs, start, i)
  }

  /**
   Freeing as written leaves a heap behind, with the freed block gone and all others live, exactly
   when: no stale footer lies before the first block; a merged hole inside the heap has no hole on
   its right; one at the end, without a stale header behind it, starts early enough below the
   minimum length to keep room for its tags; and a hole on the left keeps its place in the index.
   */
  lemma {:induction false} FreeExact(m: Bytes, index: seq<nat>, cs: seq<Chunk>, start: nat, end: nat, i: nat)
    requires Consistent(m, index, cs, start, end, multiset{}) && NoAdjacentHoles(cs)
    requires FOOTER <= start && start + MIN_SIZE <= end < ADDRESS_SPACE == |m|
    requires i < |cs| && !cs[i].hole
    ensures Works(FreeAsWritten(m, index, cs[i].addr, start, end), start, Live(cs) - {cs[i]}) <==> FreeWorks(m, index, cs, start, end, i)
  {
    hide Tiles, Span, Holes, SortedIndex, Written, Word, Consistent, Sound, SoundWith, NoAdjacentHoles, InPlace, Search, Without,
         FreeAsWritten, StaleFooter, GoesRight, InsideWorks, EndWorks, StaleWorks, Live, Works, IsSound;
    var freed, live := FreeAsWritten(m, index, cs[i].addr, start, end), Live(cs) - {cs[i]};
    if i == 0 && StaleFooter(m, start) {
      StaleFooterFails(m, index, cs, start, end);
    } else if MergeTo(cs, i) < |cs| {
      FreeInsideExact(m, index, cs, start, end, i);
    } else if i + 1 == |cs| && GoesRight(m, end) {
      StaleHeaderExact(m, index, cs, start, end, i);
    } else {
      FreeAtEndExact(m, index, cs, start, end, i);
    }
    if Works(freed, start, live) {
      WorksIsSound(freed, start, live);
    }
  }
}
