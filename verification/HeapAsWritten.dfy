/**
 The places where the text of kernel/Heap.cpp departs from what its comments describe, taken
 literally: for each, the function the text computes, an input on which it fails, and exactly
 when it does what is meant.
 */
module HeapAsWritten {
  import opened Memory
  import opened OrderedLists
  import opened BoundaryTags
  import opened HeapSteps

  // ----- Rounding (lines 16-20, 247 and 273): the test reads `x & 1`

  function RoundedAsWritten(x: nat): nat {
    if x % 2 == 1 then W32(x - x % PAGE + PAGE) else x
  }

  lemma RoundingExact(x: nat)
    requires x < ADDRESS_SPACE
    ensures RoundedAsWritten(x) == RoundUp(x) <==> OnPage(x) || (x % 2 == 1 && RoundUp(x) < ADDRESS_SPACE)
  {
  }

  /** An even request leaves the heap's new end in the middle of a page. */
  lemma RoundingFails()
    ensures !OnPage(RoundedAsWritten(0x80014))
  {
  }

  // ----- The constructor's fields (lines 21-26)

  /** The members the constructor means to set. */
  datatype Fields = Fields(start: nat, end: nat, max: nat, supervisor: bool, readonly: bool)

  /** The maximum overwrites the start, and the two parameters are assigned to themselves. */
  function FieldsAsWritten(before: Fields, start: nat, end: nat, max: nat, supervisor: bool, readonly: bool): Fields {
    before.(start := start, end := end).(start := max)
  }

  /** The fields are the meant ones exactly when memory held most of them before and the heap may have no byte. */
  lemma FieldsExact(before: Fields, start: nat, end: nat, max: nat, supervisor: bool, readonly: bool)
    ensures FieldsAsWritten(before, start, end, max, supervisor, readonly) == Fields(start, end, max, supervisor, readonly)
            <==> start == max && before.max == max && before.supervisor == supervisor && before.readonly == readonly
    ensures start < end <= max ==> FieldsAsWritten(before, start, end, max, supervisor, readonly).start != start
    ensures end < max < ADDRESS_SPACE ==>
              W32(end - FieldsAsWritten(before, start, end, max, supervisor, readonly).start) == ADDRESS_SPACE - (max - end)
  {
  }

  /** The kernel's own heap starts at its maximum, and its length wraps to almost 4 GB. */
  lemma FieldsFail(before: Fields)
    ensures var fields := FieldsAsWritten(before, 0xC008_0000, 0xC010_0000, 0xCFFF_F000, false, false);
            fields.start == 0xCFFF_F000 && W32(fields.end - fields.start) == 0xF010_1000
  {
  }

  // ----- The requested size (line 40) wraps

  lemma RequestExact(size: nat)
    requires size < ADDRESS_SPACE
    ensures W32(size + OVERHEAD) == size + OVERHEAD <==> size < ADDRESS_SPACE - OVERHEAD
    ensures W32(size + OVERHEAD) < OVERHEAD <==> size >= ADDRESS_SPACE - OVERHEAD
  {
  }

  /** A request of almost 4 GB becomes one of 14 bytes. */
  lemma RequestFails()
    ensures W32(0xFFFF_FFFA + OVERHEAD) == 14
  {
  }

  // ----- The new end (lines 44-50 and 270-288): the maximum is not looked at

  function EndAsWritten(start: nat, end: nat, need: nat): nat {
    W32(start + RoundedAsWritten(W32(end - start + need)))
  }

  /**
   The heap's end after growing is the meant one, within the maximum, exactly when the bytes needed
   are whole pages or odd and the maximum leaves room for them, rounded up.
   */
  lemma EndExact(start: nat, end: nat, max: nat, need: nat)
    requires OnPage(start) && OnPage(end) && start <= end <= max < ADDRESS_SPACE && need < ADDRESS_SPACE
    ensures EndAsWritten(start, end, need) == end + RoundUp(need) <= max <==>
            (OnPage(need) || need % 2 == 1) && end + RoundUp(need) <= max
  {
    hide OnPage, RoundUp, RoundedAsWritten, W32;
    var length := end - start;
    OnPageShift(start, length);
    RoundUpShift(length, need);
    OnPageShift(length, need);
    if end + RoundUp(need) <= max {
      RoundingCases(length + need);
      EvenPages(length, need);
    }
  }

  lemma RoundingCases(x: nat)
    requires RoundUp(x) < ADDRESS_SPACE
    ensures RoundedAsWritten(x) == if OnPage(x) || x % 2 == 1 then RoundUp(x) else x
    ensures OnPage(x) <==> RoundUp(x) == x
  {
    RoundingExact(x);
  }

  lemma EvenPages(a: nat, x: nat)
    requires OnPage(a)
    ensures (a + x) % 2 == x % 2
  {
  }

  /** A large odd request takes the kernel's heap beyond its maximum. */
  lemma EndFails()
    ensures EndAsWritten(0xC008_0000, 0xC010_0000, 0x0FF0_0001) > 0xCFFF_F000
  {
  }

  // ----- The kept length (lines 294-301): bit 12 decides

  function KeptAsWritten(offset: nat): nat {
    var rounded := if offset / PAGE % 2 == 1 then PAGE + PAGE else offset;
    if rounded < MIN_SIZE then MIN_SIZE else rounded
  }

  /** Everything before `offset` survives exactly when bit 12 of a long offset is clear. */
  lemma KeptSafe(offset: nat)
    ensures offset <= KeptAsWritten(offset) <==> offset <= MIN_SIZE || offset / PAGE % 2 == 0
  {
  }

  lemma KeptExact(offset: nat)
    ensures KeptAsWritten(offset) == KeptLength(offset) <==>
            if offset <= MIN_SIZE then offset == MIN_SIZE || offset + OVERHEAD <= MIN_SIZE
            else OnPage(offset) && offset / PAGE % 2 == 0
  {
  }

  /** With a free chunk at offset 0x71000 the cut takes the page before it as well. */
  lemma KeptFails()
    ensures KeptAsWritten(0x71000) < 0x71000
  {
  }

  // ----- Unmapping (lines 302-308): offsets from the old length down, whole pages apart

  /** The pages whose offsets the loop visits. */
  ghost function UnmappedAsWritten(oldSize: nat, newSize: nat): set<nat> {
    set page | 0 <= page < oldSize / PAGE && newSize < page * PAGE + oldSize % PAGE
  }

  /** The mapped pages that start at or above the new end. */
  ghost function UnmappedMeant(oldSize: nat, newSize: nat): set<nat> {
    set page | 0 <= page <= oldSize / PAGE && newSize <= page * PAGE < oldSize
  }

  method Unmap(oldSize: nat, newSize: nat) returns (freed: set<nat>)
    requires PAGE <= oldSize && newSize <= oldSize
    ensures freed == UnmappedAsWritten(oldSize, newSize)
  {
    freed := {};
    var i: int := oldSize - PAGE;
    ghost var page: int := oldSize / PAGE - 1;
    while newSize < i
      invariant i == page * PAGE + oldSize % PAGE && -1 <= page < oldSize / PAGE
      invariant freed == set k | page < k < oldSize / PAGE && newSize < k * PAGE + oldSize % PAGE
    {
      assert i / PAGE == page;
      freed := freed + {i / PAGE};
      i := i - PAGE;
      page := page - 1;
    }
    forall k | 0 <= k < oldSize / PAGE && newSize < k * PAGE + oldSize % PAGE ensures page < k {
    }
  }

  /**
   These are the right pages exactly when the old length is whole pages and the new one is not, or
   nothing is cut, or what is cut is part of the last, broken page.
   */
  lemma UnmappedExact(oldSize: nat, newSize: nat)
    requires newSize <= oldSize
    ensures UnmappedAsWritten(oldSize, newSize) == UnmappedMeant(oldSize, newSize) <==>
            if OnPage(oldSize) then newSize == oldSize || !OnPage(newSize) else oldSize - oldSize % PAGE < newSize
  {
    var freed, meant := UnmappedAsWritten(oldSize, newSize), UnmappedMeant(oldSize, newSize);
    var last := oldSize / PAGE;
    if OnPage(oldSize) {
      if newSize < oldSize && OnPage(newSize) {
        assert newSize / PAGE in meant && newSize / PAGE !in freed;
      } else {
        assert freed == meant;
      }
    } else if newSize <= last * PAGE {
      assert last in meant && last !in freed;
    } else {
      assert freed == {} && meant == {};
    }
  }

  /** Cutting by one page unmaps nothing. */
  lemma UnmappedFails()
    ensures UnmappedAsWritten(0x72000, 0x71000) == {} && 0x71 in UnmappedMeant(0x72000, 0x71000)
  {
  }

  // ----- Cutting a hole for an aligned request (lines 98-120 and 138-143)

  /** The three sizes the text computes: front hole, block, tail hole. */
  datatype Parts = Parts(front: nat, block: nat, tail: nat)

  function CutAsWritten(pos: nat, size: nat, need: nat): Parts {
    var block := if W32(size - need) < OVERHEAD then size else need;
    var front := W32(PAGE - pos % PAGE - HEADER);
    Parts(front, block, W32(W32(size - front) - block))
  }

  /** The parts tile the hole and each can hold its tags. */
  predicate IsPartition(parts: Parts, size: nat) {
    && parts.front + parts.block + parts.tail == size
    && OVERHEAD <= parts.front && (parts.tail == 0 || OVERHEAD <= parts.tail)
  }

  lemma CutExact(pos: nat, size: nat, need: nat)
    requires OVERHEAD <= need < ADDRESS_SPACE && size < ADDRESS_SPACE
    ensures var gap := PAGE - pos % PAGE - HEADER;
            IsPartition(CutAsWritten(pos, size, need), size) <==>
            OVERHEAD <= gap && (size == gap + need || gap + need + OVERHEAD <= size)
  {
  }

  /** A hole that fits but leaves six bytes: the tail gets a size of almost 4 GB. */
  lemma CutFails()
    ensures CutAsWritten(0x2000, 0x1000 + 6, 0x1000).tail > 0xFFFF_0000
  {
  }

  // ----- Growing (lines 53-90): the hole with the highest address is taken for the last chunk

  /** A hole before a live block, stretched by a page, covers it. */
  lemma GrowthFails()
    ensures var cs := [Chunk(0x1000, 32, true), Chunk(0x1020, 32, false)];
            && Tiles(cs, 0x1000) && cs[1] in Live(cs)
            && cs[0].addr <= cs[1].addr < cs[1].addr + cs[1].size < cs[0].addr + cs[0].size + PAGE
  {
    var cs := [Chunk(0x1000, 32, true), Chunk(0x1020, 32, false)];
    assert cs[1..] == [cs[1]];
    One(cs[1]);
  }

  /**
   The stretched hole stays clear of the live blocks exactly when it is the last chunk.
   */
  lemma {:induction false} GrowthExact(cs: seq<Chunk>, start: nat, j: nat, delta: nat)
    requires Tiles(cs, start) && j < |cs| && cs[j].hole && delta > 0
    requires forall k :: j < k < |cs| ==> !cs[k].hole
    ensures (forall c :: c in Live(cs) ==> c.addr + c.size <= cs[j].addr || cs[j].addr + cs[j].size + delta <= c.addr)
            <==> EndsInHole(cs)
  {
    if j + 1 < |cs| {
      Adjoin(cs, start, j);
      Within(cs, start, cs[j + 1]);
      Within(cs, start, cs[j]);
      assert cs[j + 1] in Live(cs);
    } else {
      forall c | c in Live(cs) ensures c.addr + c.size <= cs[j].addr {
        Disjoint(cs, start, c, cs[j]);
        LastChunk(cs, start);
        Within(cs, start, c);
      }
    }
  }
}
