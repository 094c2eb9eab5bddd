/**
 Two-level page tables, the bump allocator they come from before there is a heap, and the
 boot-time identity map (kernel/paging.cpp:113-170, kernel/kmalloc.cpp:10-51).
 */
module PageTables {
  import opened Memory
  import opened Frames
  import opened Options

  const ENTRIES: nat := 1024

  // ----- The bump path of kmalloc

  /** Where the next allocation goes; the alignment test as the text has it. */
  function Aligned(placement: nat, align: bool): nat {
    if align && placement >= PAGE then placement - placement % PAGE + PAGE else placement
  }

  /** The next allocation goes where the last one ended, or to the page behind that. */
  lemma AlignedIs(placement: nat)
    ensures Aligned(placement, false) == placement
    ensures 0x1000 <= placement ==> Aligned(placement, true) == (placement / 0x1000 + 1) * 0x1000
    ensures placement < 0x1000 ==> Aligned(placement, true) == placement
  {
  }

  /** An aligned allocation is aligned exactly when memory's first page is left behind or untouched. */
  lemma AlignedExact(placement: nat)
    ensures OnPage(Aligned(placement, true)) <==> placement >= PAGE || placement == 0
  {
  }

  /** An address inside the first page is not aligned. */
  lemma AlignedFails()
    ensures Aligned(0x10, true) == 0x10 && !OnPage(0x10)
  {
  }

  datatype Request = Request(size: nat, align: bool)

  /** The addresses handed out for these requests, one after the other. */
  function HandedOut(placement: nat, requests: seq<Request>): seq<nat>
    decreases requests
  {
    if requests == [] then []
    else
      var addr := Aligned(placement, requests[0].align);
      [addr] + HandedOut(addr + requests[0].size, requests[1..])
  }

  /** Over a whole run of allocations the pieces handed out lie one behind the other. */
  lemma {:induction false} HandedOutApart(placement: nat, requests: seq<Request>, i: nat, j: nat)
    requires i <= j < |requests|
    ensures |HandedOut(placement, requests)| == |requests| && placement <= HandedOut(placement, requests)[i]
    ensures i < j ==> HandedOut(placement, requests)[i] + requests[i].size <= HandedOut(placement, requests)[j]
    decreases requests
  {
    var addr := Aligned(placement, requests[0].align);
    if j == 0 {
      HandedOutLength(placement, requests);
    } else if i == 0 {
      HandedOutApart(addr + requests[0].size, requests[1..], j - 1, j - 1);
    } else {
      HandedOutApart(addr + requests[0].size, requests[1..], i - 1, j - 1);
    }
  }

  lemma {:induction false} HandedOutLength(placement: nat, requests: seq<Request>)
    ensures |HandedOut(placement, requests)| == |requests|
    decreases requests
  {
    if requests != [] {
      HandedOutLength(Aligned(placement, requests[0].align) + requests[0].size, requests[1..]);
    }
  }

  // ----- Directories

  /** A physical address with the three low bits set: present, writable, user (`| 0x7`). */
  function WithFlags(phys: nat): nat {
    phys - phys % 8 + 7
  }

  /** The three low bits are set, and the others are the address's. */
  lemma FlagsExact(phys: nat)
    ensures WithFlags(phys) % 2 == 1 && WithFlags(phys) / 2 % 2 == 1 && WithFlags(phys) / 4 % 2 == 1
    ensures WithFlags(phys) / 8 == phys / 8
  {
  }

  /** A table index and an index into the table; two addresses share them exactly when they share a page. */
  function Slot(addr: nat): (nat, nat) {
    var page := addr / PAGE;
    (page / ENTRIES, page % ENTRIES)
  }

  lemma SlotExact(a: nat, b: nat)
    ensures Slot(a) == Slot(b) <==> a / PAGE == b / PAGE
    ensures Slot(a).0 == a / 0x40_0000 && Slot(a).1 == a % 0x40_0000 / 0x1000
  {
  }

  class PageDirectory {
    const tables: array<array?<Page>>
    const tablesPhysical: array<nat>
    const physicalAddress: nat

    ghost predicate Valid()
      reads this, tables
    {
      && tables.Length == ENTRIES && tablesPhysical.Length == ENTRIES
      && tables as object != tablesPhysical as object
      && (forall i :: 0 <= i < ENTRIES && tables[i] != null ==> tables[i].Length == ENTRIES)
      && (forall i, j :: 0 <= i < ENTRIES && 0 <= j < ENTRIES && tables[i] != null && tables[i] == tables[j] ==> i == j)
    }

    /** The page tables in use. */
    ghost function TableSet(): set<array<Page>>
      reads this, tables
    {
      NonNull(tables[..])
    }

    /** The flat map from page numbers to entries that the two levels stand for. */
    ghost function Lookup(page: nat): (entry: Page)
      requires Valid() && page < ENTRIES * ENTRIES
      reads this, tables, TableSet()
    {
      if tables[page / ENTRIES] == null then EMPTY else tables[page / ENTRIES][page % ENTRIES]
    }

    /** What one of the tables holds. */
    ghost function View(i: nat): Option<seq<Page>>
      requires i < tables.Length
      reads this, tables, TableSet()
    {
      if tables[i] == null then None else Some(tables[i][..])
    }

    /** What the first `n` tables hold. */
    ghost function Views(n: nat): (views: seq<Option<seq<Page>>>)
      requires n <= tables.Length
      reads this, tables, TableSet()
      ensures |views| == n && forall i :: 0 <= i < n ==> views[i] == View(i)
    {
      if n == 0 then [] else Views(n - 1) + [View(n - 1)]
    }

    constructor (physicalAddress: nat)
      ensures Valid() && fresh(tables) && fresh(tablesPhysical)
      ensures forall i :: 0 <= i < ENTRIES ==> tables[i] == null && tablesPhysical[i] == 0
      ensures this.physicalAddress == physicalAddress
    {
      tables := new array?<Page>[ENTRIES](_ => null);
      tablesPhysical := new nat[ENTRIES](_ => 0);
      this.physicalAddress := physicalAddress;
      new;
      assert tables as object != tablesPhysical as object;
    }
  }

  lemma SamePage(a: nat, b: nat)
    ensures a / ENTRIES == b / ENTRIES && a % ENTRIES == b % ENTRIES ==> a == b
  {
  }

  ghost function NonNull(ts: seq<array?<Page>>): set<array<Page>> {
    set i | 0 <= i < |ts| && ts[i] != null :: ts[i]
  }

  lemma TablesGrow(before: seq<array?<Page>>, after: seq<array?<Page>>, k: nat, t: array<Page>)
    requires k < |before| && before[k] == null && after == before[k := t]
    ensures NonNull(after) == NonNull(before) + {t}
  {
    assert after[k] == t;
    forall u | u in NonNull(before) ensures u in NonNull(after) {
      var i :| 0 <= i < |before| && before[i] != null && before[i] == u;
      assert after[i] == u;
    }
  }

  /** How many tables do not exist yet. */
  ghost function Missing(ts: seq<array?<Page>>): nat {
    if ts == [] then 0 else (if ts[0] == null then 1 else 0) + Missing(ts[1..])
  }

  lemma {:induction false} MissingUpdate(ts: seq<array?<Page>>, k: nat, t: array<Page>)
    requires k < |ts| && ts[k] == null
    ensures Missing(ts) == Missing(ts[k := t]) + 1
  {
    if k == 0 {
      assert ts[0 := t][1..] == ts[1..];
    } else {
      assert ts[k := t][1..] == ts[1..][k - 1 := t];
      MissingUpdate(ts[1..], k - 1, t);
    }
  }

  /** The entry the boot loop gives page `k`: present, read-only, user, frame `k`. */
  function Identity(k: nat): Page {
    Page(true, false, true, false, false, k)
  }

  class Boot {
    const bitmap: FrameBitmap
    var placement: nat

    constructor (bitmap: FrameBitmap, placement: nat)
      ensures this.bitmap == bitmap && this.placement == placement
    {
      this.bitmap := bitmap;
      this.placement := placement;
    }

    /** The allocator before the heap exists; the physical address is the address itself. */
    method KMalloc(size: nat, align: bool) returns (addr: nat)
      modifies this`placement
      ensures addr == Aligned(old(placement), align) && placement == addr + size
    {
      if align && placement >= PAGE {
        placement := placement - placement % PAGE;
        placement := placement + PAGE;
      }
      addr := placement;
      placement := placement + size;
    }

    /** The page of an address: its table and the index there, or null if there is no table. */
    method GetPage(address: nat, make: bool, dir: PageDirectory) returns (t: array?<Page>, i: nat)
      requires dir.Valid() && address < ADDRESS_SPACE
      modifies this`placement, dir.tables, dir.tablesPhysical
      ensures dir.Valid()
      ensures t == dir.tables[Slot(address).0] && i == Slot(address).1
      ensures old(dir.tables[Slot(address).0]) != null || !make ==>
                dir.tables[..] == old(dir.tables[..]) && dir.tablesPhysical[..] == old(dir.tablesPhysical[..])
                && placement == old(placement)
      ensures old(dir.tables[Slot(address).0]) == null && make ==>
                && t != null && fresh(t) && dir.tables[..] == old(dir.tables[..])[Slot(address).0 := t]
                && placement == Aligned(old(placement), true) + 4 * ENTRIES
                && dir.tablesPhysical[..] == old(dir.tablesPhysical[..])[Slot(address).0 := WithFlags(Aligned(old(placement), true))]
      ensures forall page :: 0 <= page < ENTRIES * ENTRIES ==> dir.Lookup(page) == old(dir.Lookup(page))
      ensures dir.TableSet() == if t == null then old(dir.TableSet()) else old(dir.TableSet()) + {t}
      ensures t != null ==> t in old(dir.TableSet()) || fresh(t)
    {
      var page := address / PAGE;
      var tableIdx := page / ENTRIES;
      i := page % ENTRIES;
      if dir.tables[tableIdx] != null {
        t := dir.tables[tableIdx];
      } else if make {
        var tmp := KMalloc(4 * ENTRIES, true);
        t := new Page[ENTRIES](_ => EMPTY);
        ghost var before := dir.tables[..];
        dir.tables[tableIdx] := t;
        TablesGrow(before, dir.tables[..], tableIdx, t);
        dir.tablesPhysical[tableIdx] := WithFlags(tmp);
      } else {
        t := null;
      }
    }
  
    ghost predicate Separate(t: array<Page>, dir: PageDirectory) {
      && t as object != bitmap.frames as object
      && t as object != dir.tables as object && t as object != dir.tablesPhysical as object
    }

    /** The first `k` pages are identity-mapped and no other page or frame is in use. */
    ghost predicate MappedTo(dir: PageDirectory, k: nat)
      reads this, dir, dir.tables, dir.tablesPhysical, dir.TableSet(), bitmap.frames
    {
      && dir.Valid() && k <= ENTRIES * ENTRIES
      && (forall f :: f in bitmap.Used() <==> 0 <= f < k)
      && (forall page :: 0 <= page < k ==> dir.Lookup(page) == Identity(page))
      && (forall page :: k <= page < ENTRIES * ENTRIES ==> dir.Lookup(page) == EMPTY)
      && dir.tables as object != bitmap.frames as object && dir.tablesPhysical as object != bitmap.frames as object
      && (forall i :: 0 <= i < ENTRIES && dir.tables[i] != null ==> Separate(dir.tables[i], dir))
    }

    /** One round of the boot loop: page `k` gets frame `k`; a new table may move the placement. */
    method MapPage(dir: PageDirectory, k: nat, n: nat)
      requires MappedTo(dir, k) && k < bitmap.Capacity() <= n * ENTRIES && n <= ENTRIES && PAGE <= placement
      modifies this`placement, dir.tables, dir.tablesPhysical, dir.TableSet(), bitmap.frames
      ensures MappedTo(dir, k + 1)
      ensures fresh(dir.TableSet() - old(dir.TableSet())) && old(placement) <= placement
      ensures placement + 2 * PAGE * Missing(dir.tables[..n]) <= old(placement + 2 * PAGE * Missing(dir.tables[..n]))
    {
      ghost var before := dir.tables[..];
      var t, j := GetPage(k * PAGE, true, dir);
      if before[k / ENTRIES] == null {
        MissingUpdate(before[..n], k / ENTRIES, t);
        assert dir.tables[..n] == before[..n][k / ENTRIES := t];
      } else {
        assert dir.tables[..n] == before[..n];
      }
      assert t == dir.tables[k / ENTRIES];
      FillPage(dir, k, t, j);
    }

    method FillPage(dir: PageDirectory, k: nat, t: array<Page>, j: nat)
      requires MappedTo(dir, k) && k < bitmap.Capacity() && k < ENTRIES * ENTRIES
      requires t == dir.tables[k / ENTRIES] && j == k % ENTRIES
      modifies t, bitmap.frames
      ensures MappedTo(dir, k + 1)
    {
      assert dir.Lookup(k) == t[j] == EMPTY;
      assert k !in bitmap.Used();
      label before:
      var ok := bitmap.AllocFrame(t, j, false, false, {});
      assert ok by {
        assert k !in old@before(bitmap.Used());
      }
      assert t[j] == Identity(k) by {
        assert k !in old@before(bitmap.Used());
      }
      forall page | k < page < ENTRIES * ENTRIES ensures dir.Lookup(page) == EMPTY {
        assert old@before(dir.Lookup(page)) == EMPTY;
        SamePage(page, k);
      }
    }
  
    lemma MappedFacts(dir: PageDirectory, k: nat)
      requires MappedTo(dir, k)
      ensures dir.Valid() && k <= ENTRIES * ENTRIES
      ensures forall f :: f in bitmap.Used() <==> 0 <= f < k
      ensures forall page :: 0 <= page < k ==> dir.Lookup(page) == Identity(page)
      ensures forall page :: k <= page < ENTRIES * ENTRIES ==> dir.Lookup(page) == EMPTY
    {
    }

    /**
     The boot loop: maps every page up to the end of the memory handed out so far to the frame
     of the same number, while the tables it makes keep moving that end.
     */
    method MapIdentity(dir: PageDirectory, n: nat)
      requires MappedTo(dir, 0) && n <= ENTRIES && PAGE <= placement
      requires bitmap.Capacity() <= n * ENTRIES
      requires placement + PAGE + 2 * PAGE * Missing(dir.tables[..n]) <= bitmap.Capacity() * PAGE
      modifies this`placement, dir.tables, dir.tablesPhysical, dir.TableSet(), bitmap.frames
      ensures dir.Valid() && old(placement) <= placement
      ensures forall page :: 0 <= page * PAGE < placement + PAGE ==>
                page < ENTRIES * ENTRIES && dir.Lookup(page) == Identity(page)
      ensures forall page :: 0 <= page * PAGE < placement + PAGE && page < ENTRIES * ENTRIES ==>
                dir.Lookup(page) == Page(true, false, true, false, false, page)
      ensures forall page :: 0 <= page < ENTRIES * ENTRIES && placement + PAGE <= page * PAGE ==>
                dir.Lookup(page) == Page(false, false, false, false, false, 0)
      ensures forall f :: f in bitmap.Used() <==> 0 <= f * PAGE < placement + PAGE
    {
      hide Missing, MappedTo, Aligned;
      MappedFacts(dir, 0);
      var i, k := 0, 0;
      ghost var limit := placement + 2 * PAGE * Missing(dir.tables[..n]);
      while i < placement + PAGE
        invariant i == k * PAGE && (k > 0 ==> (k - 1) * PAGE < placement + PAGE)
        invariant MappedTo(dir, k) && old(placement) <= placement
        invariant placement + 2 * PAGE * Missing(dir.tables[..n]) <= limit
        invariant fresh(dir.TableSet() - old(dir.TableSet()))
        decreases limit + PAGE - i
      {
        MapPage(dir, k, n);
        i := i + PAGE;
        k := k + 1;
      }
      MappedFacts(dir, k);
    }
  }
}
