/**
 Cloning an address space (kernel/paging.cpp:189-256): kernel tables are shared, every other
 table is copied page by page onto fresh frames.
 */
module AddressSpaces {
  import opened Memory
  import opened Frames
  import opened Options
  import opened PageTables

  /** What a page frame holds. */
  type Data = seq<byte>

  /** What cloning makes of one entry; `used0` and `mem0` are from before, the others from after. */
  ghost predicate ClonedEntry(s: Page, d: Page, used0: set<nat>, used1: set<nat>, mem0: seq<Data>, mem1: seq<Data>) {
    if s.frame == 0 then d == EMPTY
    else
      && d == Page(true, s.readWrite, true, s.accessed, s.dirty, d.frame)
      && d.frame != 0 && d.frame !in used0 && d.frame in used1
      && s.frame < |mem0| && d.frame < |mem1| && mem1[d.frame] == mem0[s.frame]
  }

  /** Frames in use before keep their contents and stay in use. */
  ghost predicate Extends(used0: set<nat>, used1: set<nat>, mem0: seq<Data>, mem1: seq<Data>) {
    && used0 <= used1 && |mem0| == |mem1|
    && forall f :: f in used0 && f < |mem0| ==> mem1[f] == mem0[f]
  }

  lemma ExtendsTwice(u0: set<nat>, u1: set<nat>, u2: set<nat>, m0: seq<Data>, m1: seq<Data>, m2: seq<Data>)
    requires Extends(u0, u1, m0, m1) && Extends(u1, u2, m1, m2)
    ensures Extends(u0, u2, m0, m2)
  {
  }

  lemma EntryExtends(s: Page, d: Page, u0: set<nat>, u1: set<nat>, u2: set<nat>, m0: seq<Data>, m1: seq<Data>, m2: seq<Data>)
    requires ClonedEntry(s, d, u0, u1, m0, m1) && Extends(u1, u2, m1, m2)
    ensures ClonedEntry(s, d, u0, u2, m0, m2)
  {
  }

  /** An entry cloned later counts as cloned from the beginning. */
  lemma EntryFrom(s: Page, d: Page, u0: set<nat>, u1: set<nat>, u2: set<nat>, m0: seq<Data>, m1: seq<Data>, m2: seq<Data>)
    requires Extends(u0, u1, m0, m1) && ClonedEntry(s, d, u1, u2, m1, m2) && (s.frame == 0 || s.frame in u0)
    ensures ClonedEntry(s, d, u0, u2, m0, m2)
  {
  }

  predicate DistinctFrames(t: seq<Page>) {
    forall i, j :: 0 <= i < |t| && 0 <= j < |t| && t[i].frame != 0 && t[i].frame == t[j].frame ==> i == j
  }

  ghost predicate ClonedTable(src: seq<Page>, dst: seq<Page>, used0: set<nat>, used1: set<nat>, mem0: seq<Data>, mem1: seq<Data>) {
    && |src| == |dst| == ENTRIES
    && (forall i :: 0 <= i < ENTRIES ==> ClonedEntry(src[i], dst[i], used0, used1, mem0, mem1))
    && DistinctFrames(dst)
  }

  /** What the tables of a directory hold. */
  type Views = seq<Option<seq<Page>>>

  /** One table after cloning: a copy on fresh frames if it is private, the same one if not. */
  ghost predicate ClonedView(private: bool, s: Option<seq<Page>>, d: Option<seq<Page>>,
                             used0: set<nat>, used1: set<nat>, mem0: seq<Data>, mem1: seq<Data>) {
    if private then s.Some? && d.Some? && ClonedTable(s.value, d.value, used0, used1, mem0, mem1) else d == s
  }

  /** No frame is in two of the private tables. */
  ghost predicate FramesApart(private: set<nat>, views: Views) {
    forall i, j, k, l :: i in private && j in private && 0 <= i < j < |views| && SharedFrame(views[i], k, views[j], l) ==> false
  }

  predicate SharedFrame(s: Option<seq<Page>>, k: int, d: Option<seq<Page>>, l: int) {
    s.Some? && d.Some? && 0 <= k < |s.value| && 0 <= l < |d.value|
    && s.value[k].frame != 0 && s.value[k].frame == d.value[l].frame
  }

  ghost predicate ClonedViews(private: set<nat>, src: Views, dst: Views,
                              used0: set<nat>, used1: set<nat>, mem0: seq<Data>, mem1: seq<Data>) {
    && |dst| <= |src|
    && (forall i :: 0 <= i < |dst| ==> ClonedView(i in private, src[i], dst[i], used0, used1, mem0, mem1))
    && FramesApart(private, dst)
  }

  /** The frames of these tables are among the used ones. */
  ghost predicate FramesKnown(views: Views, used: set<nat>) {
    forall i, k :: 0 <= i < |views| && views[i].Some? && 0 <= k < |views[i].value| && views[i].value[k].frame != 0
                   ==> views[i].value[k].frame in used
  }

  lemma NothingCloned(private: set<nat>, src: Views, used: set<nat>, mem: seq<Data>)
    ensures ClonedViews(private, src, [], used, used, mem, mem)
  {
  }

  lemma ExtendsSelf(u: set<nat>, m: seq<Data>)
    ensures Extends(u, u, m, m)
  {
  }

  lemma ClonedTableExtends(s: seq<Page>, d: seq<Page>, u0: set<nat>, u1: set<nat>, u2: set<nat>, m0: seq<Data>, m1: seq<Data>, m2: seq<Data>)
    requires ClonedTable(s, d, u0, u1, m0, m1) && Extends(u1, u2, m1, m2)
    ensures ClonedTable(s, d, u0, u2, m0, m2)
  {
    forall i | 0 <= i < ENTRIES ensures ClonedEntry(s[i], d[i], u0, u2, m0, m2) {
      EntryExtends(s[i], d[i], u0, u1, u2, m0, m1, m2);
    }
  }

  lemma ClonedTableFrom(s: seq<Page>, d: seq<Page>, u0: set<nat>, u1: set<nat>, u2: set<nat>, m0: seq<Data>, m1: seq<Data>, m2: seq<Data>)
    requires Extends(u0, u1, m0, m1) && ClonedTable(s, d, u1, u2, m1, m2)
    requires forall i :: 0 <= i < |s| && s[i].frame != 0 ==> s[i].frame in u0
    ensures ClonedTable(s, d, u0, u2, m0, m2)
  {
    forall i | 0 <= i < ENTRIES ensures ClonedEntry(s[i], d[i], u0, u2, m0, m2) {
      EntryFrom(s[i], d[i], u0, u1, u2, m0, m1, m2);
    }
  }

  /** Cloning one more table keeps what was cloned before. */
  lemma ClonedViewsStep(private: set<nat>, src: Views, dst: Views, d: Option<seq<Page>>, u0: set<nat>, u1: set<nat>, u2: set<nat>,
                        m0: seq<Data>, m1: seq<Data>, m2: seq<Data>)
    requires ClonedViews(private, src, dst, u0, u1, m0, m1) && |dst| < |src|
    requires Extends(u0, u1, m0, m1) && Extends(u1, u2, m1, m2)
    requires ClonedView(|dst| in private, src[|dst|], d, u1, u2, m1, m2)
    requires FramesKnown(src, u0)
    ensures ClonedViews(private, src, dst + [d], u0, u2, m0, m2)
  {
    var n, after := |dst|, dst + [d];
    hide Extends, ClonedTable;
    forall i | 0 <= i < n ensures ClonedView(i in private, src[i], after[i], u0, u2, m0, m2) {
      if i in private {
        ClonedTableExtends(src[i].value, dst[i].value, u0, u1, u2, m0, m1, m2);
      }
    }
    if n in private {
      ClonedTableFrom(src[n].value, d.value, u0, u1, u2, m0, m1, m2);
    }
    forall i, j, k, l | i in private && j in private && 0 <= i < j < |after| ensures !SharedFrame(after[i], k, after[j], l) {
      if j == n {
        FramesOfNew(src[i].value, dst[i].value, src[n].value, d.value, u0, u1, u2, m0, m1, m2, k, l);
      } else {
        assert !SharedFrame(dst[i], k, dst[j], l);
      }
    }
  }

  /** Tables cloned one after the other share no frame. */
  lemma FramesOfNew(s: seq<Page>, d: seq<Page>, s': seq<Page>, d': seq<Page>, u0: set<nat>, u1: set<nat>, u2: set<nat>,
                    m0: seq<Data>, m1: seq<Data>, m2: seq<Data>, k: int, l: int)
    requires ClonedTable(s, d, u0, u1, m0, m1) && ClonedTable(s', d', u1, u2, m1, m2)
    ensures 0 <= k < |d| && 0 <= l < |d'| && d[k].frame != 0 ==> d[k].frame != d'[l].frame
  {
    if 0 <= k < |d| && 0 <= l < |d'| {
      assert ClonedEntry(s[k], d[k], u0, u1, m0, m1);
      assert ClonedEntry(s'[l], d'[l], u1, u2, m1, m2);
    }
  }

  // ----- What an address space means

  /** The entry of a page number, as the two levels give it. */
  function Entry(views: Views, page: nat): Page {
    var i, k := page / ENTRIES, page % ENTRIES;
    if i < |views| && views[i].Some? && k < |views[i].value| then views[i].value[k] else EMPTY
  }

  /** What reading a page yields: the contents of its frame, or a fault. */
  function Read(views: Views, page: nat, mem: seq<Data>): Option<Data> {
    var e := Entry(views, page);
    if e.present && e.frame < |mem| then Some(mem[e.frame]) else None
  }

  ghost predicate IsPrivate(private: set<nat>, page: nat) {
    page / ENTRIES in private
  }

  /** A clone of a whole directory, and what is known of the source before. */
  ghost predicate Cloned(private: set<nat>, src: Views, dst: Views, used0: set<nat>, used1: set<nat>, mem0: seq<Data>, mem1: seq<Data>) {
    && |src| == |dst| == ENTRIES
    && ClonedViews(private, src, dst, used0, used1, mem0, mem1)
    && Extends(used0, used1, mem0, mem1)
    && FramesKnown(src, used0) && 0 in used0
    && (forall i :: i in private ==> i < ENTRIES)
  }

  /** Cloning changes nothing the source reads. */
  lemma SourceUnchanged(private: set<nat>, src: Views, dst: Views, used0: set<nat>, used1: set<nat>,
                        mem0: seq<Data>, mem1: seq<Data>, page: nat)
    requires Cloned(private, src, dst, used0, used1, mem0, mem1)
    ensures Read(src, page, mem1) == Read(src, page, mem0)
  {
  }

  /** The entries of the clone, private and shared. */
  lemma CloneEntries(private: set<nat>, src: Views, dst: Views, used0: set<nat>, used1: set<nat>,
                     mem0: seq<Data>, mem1: seq<Data>, page: nat)
    requires Cloned(private, src, dst, used0, used1, mem0, mem1)
    ensures if IsPrivate(private, page) then ClonedEntry(Entry(src, page), Entry(dst, page), used0, used1, mem0, mem1)
            else Entry(dst, page) == Entry(src, page)
  {
    var i := page / ENTRIES;
    if i < ENTRIES {
      assert ClonedView(i in private, src[i], dst[i], used0, used1, mem0, mem1);
    }
  }

  /**
   A page reads the same through the clone as through the source exactly when it is shared, or
   its entry is present if and only if it has a frame.
   */
  lemma CloneReadsExact(private: set<nat>, src: Views, dst: Views, used0: set<nat>, used1: set<nat>,
                        mem0: seq<Data>, mem1: seq<Data>, page: nat)
    requires Cloned(private, src, dst, used0, used1, mem0, mem1) && |mem0| > 0
    ensures Read(dst, page, mem1) == Read(src, page, mem0) <==>
            !IsPrivate(private, page) || (Entry(src, page).present <==> Entry(src, page).frame != 0)
  {
    CloneEntries(private, src, dst, used0, used1, mem0, mem1, page);
    SourceUnchanged(private, src, dst, used0, used1, mem0, mem1, page);
  }

  /** The clone's access rights include the source's, and equal them exactly for present user pages. */
  lemma CloneFlagsExact(private: set<nat>, src: Views, dst: Views, used0: set<nat>, used1: set<nat>,
                        mem0: seq<Data>, mem1: seq<Data>, page: nat)
    requires Cloned(private, src, dst, used0, used1, mem0, mem1)
    requires IsPrivate(private, page) && Entry(src, page).frame != 0
    ensures var s, d := Entry(src, page), Entry(dst, page);
            && (s.present ==> d.present) && (s.readWrite ==> d.readWrite) && (s.user ==> d.user)
            && (s.accessed ==> d.accessed) && (s.dirty ==> d.dirty)
            && (d == s.(frame := d.frame) <==> s.present && s.user)
  {
    CloneEntries(private, src, dst, used0, used1, mem0, mem1, page);
  }

  /** Writing through a private page of the clone never changes what the source reads. */
  lemma CloneWriteIsolated(private: set<nat>, src: Views, dst: Views, used0: set<nat>, used1: set<nat>,
                           mem0: seq<Data>, mem1: seq<Data>, page: nat, other: nat, data: Data)
    requires Cloned(private, src, dst, used0, used1, mem0, mem1)
    requires IsPrivate(private, page) && Entry(src, page).frame != 0
    ensures var f := Entry(dst, page).frame;
            f < |mem1| && Read(src, other, mem1[f := data]) == Read(src, other, mem1)
  {
    CloneEntries(private, src, dst, used0, used1, mem0, mem1, page);
    assert Entry(src, other).frame in used0;
  }

  /**
   Writing through a private page of the source leaves what the clone reads at a page alone,
   exactly unless that page is shared and present on the very same frame, and the data is new.
   */
  lemma SourceWriteExact(private: set<nat>, src: Views, dst: Views, used0: set<nat>, used1: set<nat>,
                         mem0: seq<Data>, mem1: seq<Data>, page: nat, other: nat, data: Data)
    requires Cloned(private, src, dst, used0, used1, mem0, mem1)
    requires IsPrivate(private, page) && 0 != Entry(src, page).frame < |mem1|
    ensures var f := Entry(src, page).frame;
            Read(dst, other, mem1[f := data]) == Read(dst, other, mem1) <==>
            IsPrivate(private, other) || !Entry(src, other).present || Entry(src, other).frame != f || data == mem1[f]
  {
    CloneEntries(private, src, dst, used0, used1, mem0, mem1, other);
    assert Entry(src, page).frame in used0;
  }

  // Two small directories: only the first page of each table is in use.

  function Table(first: Page): (t: seq<Page>)
    ensures |t| == ENTRIES && t[0] == first && forall k :: 0 < k < ENTRIES ==> t[k] == EMPTY
  {
    seq(ENTRIES, k => if k == 0 then first else EMPTY)
  }

  function Directory(first: Option<seq<Page>>, second: Option<seq<Page>>): (views: Views)
    ensures |views| == ENTRIES && views[0] == first && views[1] == second && forall i :: 2 <= i < ENTRIES ==> views[i] == None
  {
    seq(ENTRIES, i => if i == 0 then first else if i == 1 then second else None)
  }

  /** A page that is present on frame 0 is not in the clone at all. */
  lemma CloneReadsFail()
    ensures var src, dst := Directory(Some(Table(Page(true, true, true, false, false, 0))), None), Directory(Some(Table(EMPTY)), None);
            && Cloned({0}, src, dst, {0}, {0}, [[1]], [[1]])
            && Read(src, 0, [[1]]) == Some([1]) && Read(dst, 0, [[1]]) == None
  {
  }

  /** A page that is present for the supervisor alone becomes one for everybody. */
  lemma CloneFlagsFail()
    ensures var page := Page(true, true, false, false, false, 1);
            var src, dst := Directory(Some(Table(page)), None), Directory(Some(Table(Page(true, true, true, false, false, 2))), None);
            && Cloned({0}, src, dst, {0, 1}, {0, 1, 2}, [[0], [1], [0]], [[0], [1], [1]])
            && !Entry(src, 0).user && Entry(dst, 0).user
  {
    var page := Page(true, true, false, false, false, 1);
    assert ClonedTable(Table(page), Table(Page(true, true, true, false, false, 2)), {0, 1}, {0, 1, 2}, [[0], [1], [0]], [[0], [1], [1]]);
  }

  /** A write to the source's private page shows through a kernel page on the same frame. */
  lemma SourceWriteFails()
    ensures var page := Page(true, true, true, false, false, 1);
            var src, dst := Directory(Some(Table(page)), Some(Table(page))), Directory(Some(Table(page.(frame := 2))), Some(Table(page)));
            && Cloned({0}, src, dst, {0, 1}, {0, 1, 2}, [[0], [1], [0]], [[0], [1], [1]])
            && Read(dst, 1024, [[0], [1], [1]]) == Some([1]) && Read(dst, 1024, [[0], [1], [1]][1 := [7]]) == Some([7])
  {
    var page := Page(true, true, true, false, false, 1);
    assert ClonedTable(Table(page), Table(page.(frame := 2)), {0, 1}, {0, 1, 2}, [[0], [1], [0]], [[0], [1], [1]]);
  }

  /** Two private pages of the clone never share a frame. */
  lemma CloneFramesDistinct(private: set<nat>, src: Views, dst: Views, used0: set<nat>, used1: set<nat>,
                            mem0: seq<Data>, mem1: seq<Data>, page: nat, other: nat)
    requires Cloned(private, src, dst, used0, used1, mem0, mem1)
    requires IsPrivate(private, page) && IsPrivate(private, other) && page != other
    ensures Entry(dst, page).frame != 0 ==> Entry(dst, page).frame != Entry(dst, other).frame
  {
    var i, k, j, l := page / ENTRIES, page % ENTRIES, other / ENTRIES, other % ENTRIES;
    assert ClonedView(true, src[i], dst[i], used0, used1, mem0, mem1);
    assert ClonedView(true, src[j], dst[j], used0, used1, mem0, mem1);
    if i < j {
      assert !SharedFrame(dst[i], k, dst[j], l);
    } else if j < i {
      assert !SharedFrame(dst[j], l, dst[i], k);
    } else {
      SamePage(page, other);
      assert DistinctFrames(dst[i].value);
    }
  }

  class Machine {
    const bitmap: FrameBitmap
    const contents: array<Data>

    constructor (bitmap: FrameBitmap, contents: array<Data>)
      ensures this.bitmap == bitmap && this.contents == contents
    {
      this.bitmap := bitmap;
      this.contents := contents;
    }

    ghost predicate Valid()
      reads this, bitmap.frames
    {
      && contents.Length == bitmap.Capacity() && 0 in bitmap.Used()
      && contents as object != bitmap.frames as object
    }

    /** The table's frames exist and are in use, and it is none of the machine's own arrays. */
    ghost predicate Backed(t: array<Page>)
      reads this, bitmap.frames, t
    {
      && t.Length == ENTRIES
      && t as object != bitmap.frames as object && t as object != contents as object
      && forall i :: 0 <= i < ENTRIES ==> t[i].frame < contents.Length && (t[i].frame == 0 || t[i].frame in bitmap.Used())
    }

    /** All tables of a directory are backed. */
    ghost predicate AllBacked(dir: PageDirectory)
      reads this, bitmap.frames, dir, dir.tables, dir.TableSet()
    {
      forall j :: 0 <= j < dir.tables.Length && dir.tables[j] != null ==> Backed(dir.tables[j])
    }

    /** One entry of a table being cloned. */
    method CloneEntry(src: array<Page>, table: array<Page>, i: nat) returns (ok: bool)
      requires Valid() && Backed(src) && i < ENTRIES && src[i].frame != 0
      requires table.Length == ENTRIES && table != src && table[i] == EMPTY
      requires table as object != bitmap.frames as object && table as object != contents as object
      modifies bitmap.frames, table, contents
      ensures Valid() && Extends(old(bitmap.Used()), bitmap.Used(), old(contents[..]), contents[..])
      ensures table[..] == old(table[..])[i := table[i]]
      ensures ok ==> ClonedEntry(src[i], table[i], old(bitmap.Used()), bitmap.Used(), old(contents[..]), contents[..])
      ensures !ok ==> forall g :: 0 <= g < bitmap.Capacity() ==> g in bitmap.Used()
    {
      ok := bitmap.AllocFrame(table, i, false, false, {});
      if ok {
        CopyFlags(src, table, i);
        contents[table[i].frame] := contents[src[i].frame];
      }
    }

    /** Sets the flags that the source page has, and clears none. */
    method CopyFlags(src: array<Page>, table: array<Page>, i: nat)
      requires i < src.Length && i < table.Length && src != table
      modifies table
      ensures table[..] == old(table[..])[i := table[i]]
      ensures var s, d := src[i], old(table[i]);
              table[i] == Page(d.present || s.present, d.readWrite || s.readWrite, d.user || s.user,
                               d.accessed || s.accessed, d.dirty || s.dirty, d.frame)
    {
      var d := table[i];
      if src[i].present {
        d := d.(present := true);
      }
      if src[i].readWrite {
        d := d.(readWrite := true);
      }
      if src[i].user {
        d := d.(user := true);
      }
      if src[i].accessed {
        d := d.(accessed := true);
      }
      if src[i].dirty {
        d := d.(dirty := true);
      }
      table[i] := d;
    }

    /** Copies a table onto fresh frames; false when the frames run out. */
    method CloneTable(src: array<Page>) returns (ok: bool, table: array<Page>)
      requires Valid() && Backed(src)
      modifies bitmap.frames, contents
      ensures Valid() && fresh(table) && table.Length == ENTRIES
      ensures Extends(old(bitmap.Used()), bitmap.Used(), old(contents[..]), contents[..])
      ensures ok ==> ClonedTable(src[..], table[..], old(bitmap.Used()), bitmap.Used(), old(contents[..]), contents[..])
      ensures !ok ==> forall g :: 0 <= g < bitmap.Capacity() ==> g in bitmap.Used()
    {
      table := new Page[ENTRIES](_ => EMPTY);
      ghost var used0, mem0 := bitmap.Used(), contents[..];
      var i := 0;
      while i < ENTRIES
        invariant 0 <= i <= ENTRIES && Valid() && src[..] == old(src[..])
        invariant Extends(used0, bitmap.Used(), mem0, contents[..])
        invariant forall j :: 0 <= j < i ==> ClonedEntry(src[j], table[j], used0, bitmap.Used(), mem0, contents[..])
        invariant forall j :: i <= j < ENTRIES ==> table[j] == EMPTY
        invariant DistinctFrames(table[..])
      {
        if src[i].frame != 0 {
          ghost var used1, mem1, done := bitmap.Used(), contents[..], table[..];
          ok := CloneEntry(src, table, i);
          ExtendsTwice(used0, used1, bitmap.Used(), mem0, mem1, contents[..]);
          if !ok {
            return;
          }
          EntryFrom(src[i], table[i], used0, used1, bitmap.Used(), mem0, mem1, contents[..]);
          forall j | 0 <= j < i ensures ClonedEntry(src[j], table[j], used0, bitmap.Used(), mem0, contents[..]) {
            assert table[j] == done[j];
            EntryExtends(src[j], table[j], used0, used1, bitmap.Used(), mem0, mem1, contents[..]);
          }
        }
        i := i + 1;
      }
      ok := true;
    }
  
    /** The tables that the source has for itself. */
    ghost predicate PrivateTable(kernel: PageDirectory, src: PageDirectory, i: nat)
      requires i < kernel.tables.Length && i < src.tables.Length
      reads kernel.tables, src.tables
    {
      src.tables[i] != null && kernel.tables[i] != src.tables[i]
    }

    /** A valid directory none of whose parts is one of the machine's own arrays. */
    ghost predicate Fits(dir: PageDirectory)
      reads this, bitmap.frames, dir, dir.tables, dir.tablesPhysical, dir.TableSet()
    {
      && dir.Valid()
      && dir.tables as object != bitmap.frames as object && dir.tables as object != contents as object
      && dir.tablesPhysical as object != bitmap.frames as object && dir.tablesPhysical as object != contents as object
      && forall i :: 0 <= i < ENTRIES && dir.tables[i] != null ==> Outside(dir.tables[i], dir)
    }

    ghost predicate Outside(t: array<Page>, dir: PageDirectory) {
      && t as object != bitmap.frames as object && t as object != contents as object
      && t as object != dir.tables as object && t as object != dir.tablesPhysical as object
    }

    /**
     The physical entry of a slot of the clone.  For a copied table it is made of what the stack held,
     since kmalloc reports no physical address once there is a heap.
     */
    ghost function PhysicalEntry(src: PageDirectory, j: nat, private: set<nat>, left: nat -> nat): nat
      requires j < src.tables.Length && j < src.tablesPhysical.Length
      reads src.tables, src.tablesPhysical
    {
      if j in private then WithFlags(left(j)) else if src.tables[j] == null then 0 else src.tablesPhysical[j]
    }

    /** How the directories and the machine lie in memory before round `i` of the loop. */
    ghost predicate Arranged(kernel: PageDirectory, src: PageDirectory, dst: PageDirectory, i: nat, private: set<nat>, left: nat -> nat)
      reads this, bitmap.frames, kernel, kernel.tables, src, src.tables, src.tablesPhysical, src.TableSet(),
            dst, dst.tables, dst.tablesPhysical, dst.TableSet()
    {
      && Valid() && Fits(src) && Fits(dst) && kernel.tables.Length == ENTRIES && i <= ENTRIES
      && kernel.tables as object != bitmap.frames as object && kernel.tables as object != contents as object
      && Unshared(kernel, src, dst)
      && (forall j :: 0 <= j < ENTRIES ==> (j in private <==> PrivateTable(kernel, src, j)))
      && (forall j :: 0 <= j < i && j !in private ==> dst.tables[j] == src.tables[j])
      && (forall j :: 0 <= j < i ==> dst.tablesPhysical[j] == PhysicalEntry(src, j, private, left))
      && (forall j :: i <= j < ENTRIES ==> dst.tables[j] == null)
      && (forall j :: 0 <= j < i && j in private && dst.tables[j] != null ==> dst.tables[j] !in src.TableSet())
    }

    /** Everything the loop over the tables has established before round `i`. */
    ghost predicate CloningAt(kernel: PageDirectory, src: PageDirectory, dst: PageDirectory, i: nat, private: set<nat>, left: nat -> nat,
                              srcViews: Views, used0: set<nat>, mem0: seq<Data>)
      reads this, bitmap.frames, contents, kernel, kernel.tables, src, src.tables, src.tablesPhysical, src.TableSet(),
            dst, dst.tables, dst.tablesPhysical, dst.TableSet()
    {
      && Arranged(kernel, src, dst, i, private, left)
      && src.Views(ENTRIES) == srcViews
      && Extends(used0, bitmap.Used(), mem0, contents[..])
      && ClonedViews(private, srcViews, dst.Views(i), used0, bitmap.Used(), mem0, contents[..])
      && AllBacked(src)
    }

    /** The arrays of the new directory itself are none of the old ones. */
    ghost predicate Unshared(kernel: PageDirectory, src: PageDirectory, dst: PageDirectory)
      reads src, src.tables
    {
      && dst.tables != src.tables && dst.tables != kernel.tables && dst.tablesPhysical != src.tablesPhysical
      && dst.tables as object != src.tablesPhysical as object && dst.tablesPhysical as object != src.tables as object
      && dst.tablesPhysical as object != kernel.tables as object
      && forall j :: 0 <= j < src.tables.Length && src.tables[j] != null ==> Outside(src.tables[j], dst)
    }

    /** Puts a table, or none, into slot `i` of the new directory. */
    method SetTable(kernel: PageDirectory, src: PageDirectory, dst: PageDirectory, i: nat, ghost private: set<nat>,
                    ghost left: nat -> nat, t: array?<Page>, physical: nat)
      requires Arranged(kernel, src, dst, i, private, left) && i < ENTRIES && AllBacked(src)
      requires i !in private ==> t == src.tables[i]
      requires physical == PhysicalEntry(src, i, private, left)
      requires i in private ==> t != null && t.Length == ENTRIES && Outside(t, dst) && t !in src.TableSet() && t !in dst.TableSet()
      modifies dst.tables, dst.tablesPhysical
      ensures Arranged(kernel, src, dst, i + 1, private, left) && AllBacked(src)
      ensures dst.Views(i) == old(dst.Views(i)) && dst.View(i) == if t == null then None else Some(old(t[..]))
      ensures src.Views(ENTRIES) == old(src.Views(ENTRIES))
    {
      dst.tables[i] := t;
      dst.tablesPhysical[i] := physical;
    }

    /** The copy of a private table, away from everything the directories hold. */
    method CopyTable(kernel: PageDirectory, src: PageDirectory, dst: PageDirectory, i: nat, ghost private: set<nat>,
                     ghost left: nat -> nat)
      returns (ok: bool, table: array<Page>)
      requires Arranged(kernel, src, dst, i, private, left) && i < ENTRIES && src.tables[i] != null && AllBacked(src)
      modifies bitmap.frames, contents
      ensures Arranged(kernel, src, dst, i, private, left) && AllBacked(src)
      ensures src.Views(ENTRIES) == old(src.Views(ENTRIES)) && dst.Views(i) == old(dst.Views(i))
      ensures table.Length == ENTRIES && Outside(table, dst) && table !in src.TableSet() && table !in dst.TableSet()
      ensures Extends(old(bitmap.Used()), bitmap.Used(), old(contents[..]), contents[..])
      ensures ok ==> ClonedTable(src.tables[i][..], table[..], old(bitmap.Used()), bitmap.Used(), old(contents[..]), contents[..])
      ensures !ok ==> forall g :: 0 <= g < bitmap.Capacity() ==> g in bitmap.Used()
    {
      hide ClonedTable, FrameBitmap.Used;
      ok, table := CloneTable(src.tables[i]);
    }

    /** One round of the loop over the tables. */
    method CloneSlot(kernel: PageDirectory, src: PageDirectory, dst: PageDirectory, i: nat, ghost private: set<nat>, left: nat -> nat,
                     ghost srcViews: Views, ghost used0: set<nat>, ghost mem0: seq<Data>)
      returns (ok: bool)
      requires CloningAt(kernel, src, dst, i, private, left, srcViews, used0, mem0) && i < ENTRIES
      requires FramesKnown(srcViews, used0)
      modifies bitmap.frames, contents, dst.tables, dst.tablesPhysical
      ensures ok ==> CloningAt(kernel, src, dst, i + 1, private, left, srcViews, used0, mem0)
      ensures !ok ==> forall g :: 0 <= g < bitmap.Capacity() ==> g in bitmap.Used()
      ensures Valid() && Extends(used0, bitmap.Used(), mem0, contents[..])
    {
      hide ClonedViews, ClonedTable, Extends, FramesApart, FramesKnown, FrameBitmap.Used, Unshared, Outside, AllBacked, Backed;
      ghost var used1, mem1, done := bitmap.Used(), contents[..], dst.Views(i);
      ok := true;
      ExtendsSelf(used1, mem1);
      if src.tables[i] == null || kernel.tables[i] == src.tables[i] {
        SetTable(kernel, src, dst, i, private, left, src.tables[i], if src.tables[i] == null then 0 else src.tablesPhysical[i]);
      } else {
        var table;
        ok, table := CopyTable(kernel, src, dst, i, private, left);
        ExtendsTwice(used0, used1, bitmap.Used(), mem0, mem1, contents[..]);
        if !ok {
          return;
        }
        SetTable(kernel, src, dst, i, private, left, table, WithFlags(left(i)));
      }
      ClonedViewsStep(private, srcViews, done, dst.View(i), used0, used1, bitmap.Used(), mem0, mem1, contents[..]);
    }

    /**
     A new address space: kernel tables shared, the others copied; false when the frames run out.
     The physical addresses of what is new come from `left` and `leftover`, what the stack held.
     */
    method CloneDirectory(kernel: PageDirectory, src: PageDirectory, left: nat -> nat, leftover: nat) returns (ok: bool, dst: PageDirectory)
      requires Valid() && Fits(src) && kernel.tables.Length == ENTRIES
      requires kernel.tables as object != bitmap.frames as object && kernel.tables as object != contents as object
      requires AllBacked(src)
      modifies bitmap.frames, contents
      ensures Valid() && fresh(dst) && (ok ==> dst.Valid())
      ensures Extends(old(bitmap.Used()), bitmap.Used(), old(contents[..]), contents[..])
      ensures src.Views(ENTRIES) == old(src.Views(ENTRIES))
      ensures ok ==> Cloned(PrivateTables(kernel, src), src.Views(ENTRIES), dst.Views(ENTRIES),
                            old(bitmap.Used()), bitmap.Used(), old(contents[..]), contents[..])
      ensures ok ==> forall j :: 0 <= j < ENTRIES && j !in PrivateTables(kernel, src) ==>
                dst.tables[j] == src.tables[j]
      ensures ok ==> forall j :: 0 <= j < ENTRIES ==>
                dst.tablesPhysical[j] == PhysicalEntry(src, j, PrivateTables(kernel, src), left)
      ensures ok ==> forall j :: 0 <= j < ENTRIES ==>
                if src.tables[j] == null then dst.tables[j] == null
                else dst.tables[j] != null && (dst.tables[j] == src.tables[j] <==> kernel.tables[j] == src.tables[j])
      ensures ok ==> forall j :: 0 <= j < ENTRIES && kernel.tables[j] == src.tables[j] != null ==>
                dst.tablesPhysical[j] == src.tablesPhysical[j]
      ensures ok ==> forall j :: 0 <= j < ENTRIES && src.tables[j] == null ==> dst.tablesPhysical[j] == 0
      ensures ok ==> forall j :: 0 <= j < ENTRIES && src.tables[j] != null && kernel.tables[j] != src.tables[j] ==>
                dst.tablesPhysical[j] == WithFlags(left(j))
      ensures dst.physicalAddress == W32(leftover + 4 * ENTRIES)
      ensures !ok ==> forall g :: 0 <= g < bitmap.Capacity() ==> g in bitmap.Used()
    {
      hide ClonedViews, ClonedTable, Extends, FramesKnown, FramesApart, FrameBitmap.Used;
      ghost var used0, mem0, views, private := bitmap.Used(), contents[..], src.Views(ENTRIES), PrivateTables(kernel, src);
      ExtendsSelf(used0, mem0);
      NothingCloned(private, views, used0, mem0);
      BackedFrames(src);
      dst := new PageDirectory(W32(leftover + 4 * ENTRIES));
      var i := 0;
      while i < ENTRIES
        invariant CloningAt(kernel, src, dst, i, private, left, views, used0, mem0)
      {
        ok := CloneSlot(kernel, src, dst, i, private, left, views, used0, mem0);
        if !ok {
          return;
        }
        i := i + 1;
      }
      ok := true;
      SlotsCloned(kernel, src, dst, private, left, views, used0, mem0);
    }

    /** A slot of the clone has no table, the kernel's own, or one that is not the source's. */
    lemma SlotsCloned(kernel: PageDirectory, src: PageDirectory, dst: PageDirectory, private: set<nat>, left: nat -> nat,
                      srcViews: Views, used0: set<nat>, mem0: seq<Data>)
      requires CloningAt(kernel, src, dst, ENTRIES, private, left, srcViews, used0, mem0)
      ensures forall j :: 0 <= j < ENTRIES ==>
                if src.tables[j] == null then dst.tables[j] == null
                else dst.tables[j] != null && (dst.tables[j] == src.tables[j] <==> kernel.tables[j] == src.tables[j])
      ensures forall j :: 0 <= j < ENTRIES && kernel.tables[j] == src.tables[j] != null ==>
                dst.tablesPhysical[j] == src.tablesPhysical[j]
      ensures forall j :: 0 <= j < ENTRIES && src.tables[j] == null ==> dst.tablesPhysical[j] == 0
      ensures forall j :: 0 <= j < ENTRIES && src.tables[j] != null && kernel.tables[j] != src.tables[j] ==>
                dst.tablesPhysical[j] == WithFlags(left(j))
    {
      hide ClonedTable, Extends, FramesApart, FrameBitmap.Used, Unshared, Outside, AllBacked, Backed, WithFlags;
      forall j | 0 <= j < ENTRIES
        ensures if src.tables[j] == null then dst.tables[j] == null
                else dst.tables[j] != null && (dst.tables[j] == src.tables[j] <==> kernel.tables[j] == src.tables[j])
      {
        assert ClonedView(j in private, srcViews[j], dst.Views(ENTRIES)[j], used0, bitmap.Used(), mem0, contents[..]);
        assert dst.Views(ENTRIES)[j] == dst.View(j);
        assert src.tables[j] != null ==> src.tables[j] in src.TableSet();
      }
    }

    lemma BackedFrames(src: PageDirectory)
      requires src.Valid() && AllBacked(src)
      ensures FramesKnown(src.Views(ENTRIES), bitmap.Used())
    {
    }

    ghost function PrivateTables(kernel: PageDirectory, src: PageDirectory): set<nat>
      requires kernel.tables.Length == src.tables.Length == ENTRIES
      reads kernel.tables, src.tables
    {
      set j | 0 <= j < ENTRIES && PrivateTable(kernel, src, j)
    }
  }
}
