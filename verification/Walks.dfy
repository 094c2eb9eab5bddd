/**
 What the processor finds by physical addresses (section 4.3 of the Intel SDM, Volume 3A), against the
 pointers the kernel goes by.  Once there is a heap, kmalloc reports no physical address
 (kernel/kmalloc.cpp:12-15), so those of a clone come from the stack (kernel/paging.cpp:191-200 and
 217-219).
 */
module Walks {
  import opened Memory
  import opened Options
  import opened Frames
  import opened PageTables
  import opened AddressSpaces

  /** What the frames of memory hold, read as page tables and as lists of physical entries. */
  type TablesFound = map<nat, seq<Page>>
  type DirectoriesFound = map<nat, seq<nat>>

  function EmptyTable(): (t: seq<Page>)
    ensures |t| == ENTRIES && forall k :: 0 <= k < ENTRIES ==> t[k] == EMPTY
  {
    seq(ENTRIES, _ => EMPTY)
  }

  /** The table a physical entry leads to, if its present bit is set. */
  function TableAt(found: TablesFound, entry: nat): seq<Page> {
    if entry % 2 == 1 && entry / PAGE in found then found[entry / PAGE] else EmptyTable()
  }

  /** The entry of a page by physical entries. */
  function Walk(found: TablesFound, physical: seq<nat>, page: nat): Page {
    var i, k := page / ENTRIES, page % ENTRIES;
    if i < |physical| && k < |TableAt(found, physical[i])| then TableAt(found, physical[i])[k] else EMPTY
  }

  /** The entry of a page by the directory's own physical address. */
  function WalkFrom(directories: DirectoriesFound, found: TablesFound, address: nat, page: nat): Page {
    Walk(found, if address / PAGE in directories then directories[address / PAGE] else [], page)
  }

  function Contents(view: Option<seq<Page>>): seq<Page> {
    if view.Some? then view.value else EmptyTable()
  }

  ghost predicate WellFound(found: TablesFound) {
    forall f :: f in found ==> |found[f]| == ENTRIES
  }

  ghost predicate WellViewed(views: Views) {
    |views| == ENTRIES && forall i :: 0 <= i < ENTRIES && views[i].Some? ==> |views[i].value| == ENTRIES
  }

  /** Page `k` of slot `i`. */
  function PageNumber(i: nat, k: nat): nat {
    ENTRIES * i + k
  }

  /** The processor's way and the kernel's give the same entries for every page of a slot. */
  ghost predicate Agree(found: TablesFound, physical: seq<nat>, views: Views, i: nat) {
    forall k :: 0 <= k < ENTRIES ==> Walk(found, physical, PageNumber(i, k)) == Entry(views, PageNumber(i, k))
  }

  lemma AtSlot(found: TablesFound, physical: seq<nat>, views: Views, i: nat, k: nat)
    requires WellFound(found) && WellViewed(views) && i < ENTRIES == |physical| && k < ENTRIES
    ensures |TableAt(found, physical[i])| == |Contents(views[i])| == ENTRIES
    ensures Walk(found, physical, PageNumber(i, k)) == TableAt(found, physical[i])[k]
    ensures Entry(views, PageNumber(i, k)) == Contents(views[i])[k]
  {
    assert PageNumber(i, k) / ENTRIES == i && PageNumber(i, k) % ENTRIES == k;
  }

  /** The processor and the kernel agree on a slot exactly when the table found is the table meant. */
  lemma SlotExact(found: TablesFound, physical: seq<nat>, views: Views, i: nat)
    requires WellFound(found) && WellViewed(views) && i < ENTRIES == |physical|
    ensures Agree(found, physical, views, i) <==> TableAt(found, physical[i]) == Contents(views[i])
  {
    hide Walk, Entry, TableAt, Contents, PageNumber, WellFound;
    AtSlot(found, physical, views, i, 0);
    var t, u := TableAt(found, physical[i]), Contents(views[i]);
    forall k | 0 <= k < ENTRIES
      ensures Walk(found, physical, PageNumber(i, k)) == t[k] && Entry(views, PageNumber(i, k)) == u[k]
    {
      AtSlot(found, physical, views, i, k);
    }
    if Agree(found, physical, views, i) {
      forall k | 0 <= k < ENTRIES ensures t[k] == u[k] {
        assert Walk(found, physical, PageNumber(i, k)) == Entry(views, PageNumber(i, k));
      }
    }
  }

  /** Flags added to a physical address leave its frame, and say that it is present. */
  lemma FlagsKeepFrame(left: nat)
    ensures WithFlags(left) / PAGE == left / PAGE && WithFlags(left) % 2 == 1
  {
  }

  /**
   A copied table is the one the processor finds exactly when the stack held its frame, or when there
   is nothing in it and nothing to be found.
   */
  lemma CopiedSlotExact(found: TablesFound, physical: seq<nat>, views: Views, i: nat, left: nat)
    requires WellFound(found) && WellViewed(views) && i < ENTRIES == |physical| && physical[i] == WithFlags(left) && views[i].Some?
    ensures Agree(found, physical, views, i)
            <==> if left / PAGE in found then found[left / PAGE] == views[i].value else views[i].value == EmptyTable()
  {
    hide WithFlags, Agree;
    SlotExact(found, physical, views, i);
    FlagsKeepFrame(left);
  }

  /** A slot without a table is empty for the processor as well, and a shared one is right where the source's is. */
  lemma OtherSlotsExact(found: TablesFound, physical: seq<nat>, source: seq<nat>, views: Views, sourceViews: Views, i: nat)
    requires WellFound(found) && WellViewed(views) && WellViewed(sourceViews) && i < ENTRIES == |physical| == |source|
    ensures physical[i] == 0 && views[i].None? ==> Agree(found, physical, views, i)
    ensures physical[i] == source[i] && views[i] == sourceViews[i] ==>
              (Agree(found, physical, views, i) <==> Agree(found, source, sourceViews, i))
  {
    hide Agree;
    SlotExact(found, physical, views, i);
    SlotExact(found, source, sourceViews, i);
  }

  /**
   Through the clone's own physical address, the processor sees the clone exactly when what lies one
   page above what the stack held leads to tables with the clone's contents, slot by slot, or
   nothing lies there and the clone is empty.
   */
  lemma CloneWalkExact(directories: DirectoriesFound, found: TablesFound, leftover: nat, views: Views)
    requires WellFound(found) && WellViewed(views) && forall f :: f in directories ==> |directories[f]| == ENTRIES
    ensures var address := W32(leftover + 4 * ENTRIES);
            (forall page :: 0 <= page < ENTRIES * ENTRIES ==> WalkFrom(directories, found, address, page) == Entry(views, page))
            <==> if address / PAGE in directories
                 then forall i :: 0 <= i < ENTRIES ==> TableAt(found, directories[address / PAGE][i]) == Contents(views[i])
                 else forall i :: 0 <= i < ENTRIES ==> Contents(views[i]) == EmptyTable()
  {
    hide W32, TableAt, Contents, Walk, Entry;
    var address := W32(leftover + 4 * ENTRIES);
    if address / PAGE in directories {
      WholeExact(found, directories[address / PAGE], views);
    } else {
      NoneExact(found, views);
    }
  }

  lemma WholeExact(found: TablesFound, physical: seq<nat>, views: Views)
    requires WellFound(found) && WellViewed(views) && |physical| == ENTRIES
    ensures (forall page :: 0 <= page < ENTRIES * ENTRIES ==> Walk(found, physical, page) == Entry(views, page))
            <==> forall i :: 0 <= i < ENTRIES ==> TableAt(found, physical[i]) == Contents(views[i])
  {
    hide Walk, Entry, TableAt, Contents;
    if forall page :: 0 <= page < ENTRIES * ENTRIES ==> Walk(found, physical, page) == Entry(views, page) {
      forall i | 0 <= i < ENTRIES ensures TableAt(found, physical[i]) == Contents(views[i]) {
        SlotExact(found, physical, views, i);
        InRange(i);
      }
    }
    if forall i :: 0 <= i < ENTRIES ==> TableAt(found, physical[i]) == Contents(views[i]) {
      forall page | 0 <= page < ENTRIES * ENTRIES ensures Walk(found, physical, page) == Entry(views, page) {
        SlotExact(found, physical, views, page / ENTRIES);
        assert page == PageNumber(page / ENTRIES, page % ENTRIES);
      }
    }
  }

  lemma InRange(i: nat)
    requires i < ENTRIES
    ensures forall k :: 0 <= k < ENTRIES ==> 0 <= PageNumber(i, k) < ENTRIES * ENTRIES
  {
  }

  /** Where no directory is found, the processor sees what it would see in one without tables. */
  lemma NoneExact(found: TablesFound, views: Views)
    requires WellFound(found) && WellViewed(views)
    ensures (forall page :: 0 <= page < ENTRIES * ENTRIES ==> Walk(found, [], page) == Entry(views, page))
            <==> forall i :: 0 <= i < ENTRIES ==> Contents(views[i]) == EmptyTable()
  {
    var zeroes := seq(ENTRIES, _ => 0);
    WholeExact(found, zeroes, views);
    forall page | 0 <= page < ENTRIES * ENTRIES ensures Walk(found, [], page) == Walk(found, zeroes, page) {
    }
    hide Walk, Entry, Contents;
    assert forall i :: 0 <= i < ENTRIES ==> TableAt(found, zeroes[i]) == EmptyTable();
  }

  /** With zero left on the stack, the processor sees no page of a clone that has one. */
  lemma WalkFails()
    ensures var t := Table(Page(true, true, true, false, false, 9));
            var views, found := Directory(Some(t), None), map[5 := t];
            && Entry(views, 0).present
            && !Walk(found, seq(ENTRIES, i => if i == 0 then WithFlags(0) else 0), 0).present
            && !WalkFrom(map[7 := seq(ENTRIES, i => if i == 0 then WithFlags(5 * PAGE) else 0)], found, W32(0 + 4 * ENTRIES), 0).present
  {
  }
}
