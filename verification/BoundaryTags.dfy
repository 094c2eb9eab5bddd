/**
 The heap's layout: memory tiled by chunks, each starting with a header and ending with a
 footer (kernel/Heap.h:13-24).  Everything here is about values; `Heaps.Heap` moves the
 same state in place.
 */
module BoundaryTags {
  import opened Memory
  import opened OrderedLists

  const HEADER: nat := 12
  const FOOTER: nat := 8
  const OVERHEAD: nat := 20
  const MAGIC: nat := 0x12345678

  /** A stretch of the heap, its header and footer included. */
  datatype Chunk = Chunk(addr: nat, size: nat, hole: bool)

  // ----- Chunks as they are written in memory

  predicate HeaderAt(m: Bytes, a: nat, size: nat, hole: bool) {
    && a + HEADER <= |m|
    && Word(m, a) == MAGIC
    && m[a + 4] == (if hole then 1 else 0)
    && Word(m, a + 8) == size
  }

  predicate FooterAt(m: Bytes, f: nat, header: nat) {
    && f + FOOTER <= |m|
    && Word(m, f) == MAGIC
    && Word(m, f + 4) == header
  }

  predicate ChunkAt(m: Bytes, c: Chunk) {
    && OVERHEAD <= c.size
    && HeaderAt(m, c.addr, c.size, c.hole)
    && FooterAt(m, c.addr + c.size - FOOTER, c.addr)
  }

  /** The bytes of a chunk's tags, one by one. */
  lemma TagLayout(m: Bytes, c: Chunk)
    requires 20 <= c.size && c.addr + c.size <= |m|
    ensures ChunkAt(m, c) <==>
            && Word(m, c.addr) == 0x1234_5678 && m[c.addr + 4] == (if c.hole then 1 else 0) && Word(m, c.addr + 8) == c.size
            && Word(m, c.addr + c.size - 8) == 0x1234_5678 && Word(m, c.addr + c.size - 4) == c.addr
  {
    hide Word;
  }

  predicate Written(m: Bytes, cs: seq<Chunk>) {
    forall c :: c in cs ==> ChunkAt(m, c)
  }

  // ----- Tilings

  /** The chunks of `cs` lie edge to edge from address `a` on. */
  predicate Tiles(cs: seq<Chunk>, a: nat) {
    cs != [] ==> cs[0].addr == a && OVERHEAD <= cs[0].size && Tiles(cs[1..], a + cs[0].size)
  }

  function Span(cs: seq<Chunk>): nat {
    if cs == [] then 0 else cs[0].size + Span(cs[1..])
  }

  predicate NoAdjacentHoles(cs: seq<Chunk>) {
    |cs| >= 2 ==> !(cs[0].hole && cs[1].hole) && NoAdjacentHoles(cs[1..])
  }

  /** The address of every hole, as often as it occurs. */
  ghost function Holes(cs: seq<Chunk>): multiset<nat> {
    if cs == [] then multiset{}
    else (if cs[0].hole then multiset{cs[0].addr} else multiset{}) + Holes(cs[1..])
  }

  /** The allocated blocks. */
  ghost function Live(cs: seq<Chunk>): set<Chunk> {
    set c | c in cs && !c.hole
  }

  lemma One(c: Chunk)
    requires OVERHEAD <= c.size
    ensures Tiles([c], c.addr) && Span([c]) == c.size && NoAdjacentHoles([c])
    ensures Holes([c]) == if c.hole then multiset{c.addr} else multiset{}
  {
    assert [c][1..] == [];
  }

  lemma {:induction false} SpanConcat(x: seq<Chunk>, y: seq<Chunk>)
    ensures Span(x + y) == Span(x) + Span(y)
  {
    if x == [] {
      assert x + y == y;
    } else {
      assert (x + y)[1..] == x[1..] + y;
      SpanConcat(x[1..], y);
    }
  }

  lemma {:induction false} HolesConcat(x: seq<Chunk>, y: seq<Chunk>)
    ensures Holes(x + y) == Holes(x) + Holes(y)
  {
    if x == [] {
      assert x + y == y;
    } else {
      assert (x + y)[1..] == x[1..] + y;
      HolesConcat(x[1..], y);
    }
  }

  lemma {:induction false} TilesConcat(x: seq<Chunk>, y: seq<Chunk>, a: nat)
    ensures Tiles(x + y, a) <==> Tiles(x, a) && Tiles(y, a + Span(x))
  {
    if x == [] {
      assert x + y == y;
    } else {
      assert (x + y)[1..] == x[1..] + y;
      TilesConcat(x[1..], y, a + x[0].size);
    }
  }

  lemma {:induction false} NoAdjacentConcat(x: seq<Chunk>, y: seq<Chunk>)
    ensures NoAdjacentHoles(x + y) <==>
            NoAdjacentHoles(x) && NoAdjacentHoles(y)
            && !(x != [] && y != [] && x[|x| - 1].hole && y[0].hole)
  {
    if x == [] {
      assert x + y == y;
    } else {
      assert (x + y)[1..] == x[1..] + y;
      NoAdjacentConcat(x[1..], y);
    }
  }

  /** Every chunk of a tiling lies inside the range the tiling covers. */
  lemma {:induction false} Within(cs: seq<Chunk>, a: nat, c: Chunk)
    requires Tiles(cs, a) && c in cs
    ensures OVERHEAD <= c.size && a <= c.addr && c.addr + c.size <= a + Span(cs)
  {
    if c != cs[0] {
      Within(cs[1..], a + cs[0].size, c);
    }
  }

  /** Chunks at different positions do not overlap, and lie in the order of the sequence. */
  lemma {:induction false} InOrder(cs: seq<Chunk>, a: nat, i: nat, j: nat)
    requires Tiles(cs, a) && i < j < |cs|
    ensures cs[i].addr + cs[i].size <= cs[j].addr
  {
    if i == 0 {
      Within(cs[1..], a + cs[0].size, cs[j]);
    } else {
      InOrder(cs[1..], a + cs[0].size, i - 1, j - 1);
    }
  }

  /** Two different chunks of a tiling share no byte. */
  lemma {:induction false} Disjoint(cs: seq<Chunk>, a: nat, c: Chunk, d: Chunk)
    requires Tiles(cs, a) && c in cs && d in cs && c != d
    ensures c.addr + c.size <= d.addr || d.addr + d.size <= c.addr
  {
    var i :| 0 <= i < |cs| && cs[i] == c;
    var j :| 0 <= j < |cs| && cs[j] == d;
    if i < j {
      InOrder(cs, a, i, j);
    } else {
      InOrder(cs, a, j, i);
    }
  }

  lemma {:induction false} HolesAreChunks(cs: seq<Chunk>, a: nat)
    ensures a in Holes(cs) <==> exists c :: c in cs && c.hole && c.addr == a
  {
    if cs != [] {
      HolesAreChunks(cs[1..], a);
      if a in Holes(cs[1..]) {
        var c :| c in cs[1..] && c.hole && c.addr == a;
        assert c in cs;
      }
      if exists c :: c in cs && c.hole && c.addr == a {
        var c :| c in cs && c.hole && c.addr == a;
        assert c == cs[0] || c in cs[1..];
      }
    }
  }

  /**
   The header chain alone determines the tiling: whoever walks the sizes written in memory
   finds the same chunks.
   */
  lemma {:induction false} WalkIsUnique(m: Bytes, x: seq<Chunk>, y: seq<Chunk>, a: nat)
    requires Tiles(x, a) && Tiles(y, a) && Span(x) == Span(y)
    requires forall c :: c in x ==> HeaderAt(m, c.addr, c.size, c.hole)
    requires forall c :: c in y ==> HeaderAt(m, c.addr, c.size, c.hole)
    ensures x == y
  {
    if x != [] && y != [] {
      assert x[0] in x && y[0] in y;
      WalkIsUnique(m, x[1..], y[1..], a + x[0].size);
      assert x == [x[0]] + x[1..] && y == [y[0]] + y[1..];
    }
  }

  /** The position of the chunk whose header is at `a`, or the number of chunks. */
  function Find(cs: seq<Chunk>, a: nat): (i: nat)
    ensures i <= |cs|
    ensures i < |cs| ==> cs[i].addr == a
    ensures i == |cs| ==> forall c :: c in cs ==> c.addr != a
  {
    if cs == [] || cs[0].addr == a then 0 else 1 + Find(cs[1..], a)
  }

  predicate BlockAt(cs: seq<Chunk>, a: nat) {
    var i := Find(cs, a);
    i < |cs| && !cs[i].hole
  }

  /** A chunk is found at its own position. */
  lemma {:induction false} FindAt(cs: seq<Chunk>, a: nat, i: nat)
    requires Tiles(cs, a) && i < |cs|
    ensures Find(cs, cs[i].addr) == i
  {
    var k := Find(cs, cs[i].addr);
    assert cs[i] in cs;
    if k < i {
      InOrder(cs, a, k, i);
      Within(cs, a, cs[k]);
    } else if i < k {
      InOrder(cs, a, i, k);
      Within(cs, a, cs[i]);
    }
  }

  // ----- The hole index

  /** The size field of the header at `a`, as `HeaderLessThan` reads it. */
  function SizeAt(m: Bytes, a: nat): nat {
    if a + HEADER <= |m| then Word(m, a + 8) else 0
  }

  lemma SizeFrame(m: Bytes, n: Bytes, a: nat, lo: nat, hi: nat)
    requires SameOutside(m, n, lo, hi) && a + HEADER <= lo
    ensures SizeAt(n, a) == SizeAt(m, a)
  {
  }

  function BySize(m: Bytes): (nat, nat) -> bool {
    (a: nat, b: nat) => SizeAt(m, a) < SizeAt(m, b)
  }

  ghost predicate SortedIndex(m: Bytes, index: seq<nat>) {
    SortedBy(index, BySize(m))
  }

  lemma SortedFrame(m: Bytes, n: Bytes, index: seq<nat>)
    requires SortedIndex(m, index)
    requires forall a :: a in index ==> SizeAt(m, a) == SizeAt(n, a)
    ensures SortedIndex(n, index)
  {
  }

  /**
   The heap invariant.  `out` holds the holes that are deliberately missing from the index
   in the middle of an operation; between operations it is empty.
   */
  ghost predicate Consistent(m: Bytes, index: seq<nat>, cs: seq<Chunk>, start: nat, end: nat, out: multiset<nat>) {
    && Tiles(cs, start)
    && start + Span(cs) == end
    && Written(m, cs)
    && multiset(index) + out == Holes(cs)
    && SortedIndex(m, index)
  }

  /** Every hole of a tiling occurs once, so the index holds no hole twice. */
  lemma {:induction false} HolesOnce(cs: seq<Chunk>, a: nat, h: nat)
    requires Tiles(cs, a)
    ensures Holes(cs)[h] <= 1
    ensures h in Holes(cs) ==> a <= h < a + Span(cs)
  {
    if cs != [] {
      HolesOnce(cs[1..], a + cs[0].size, h);
    }
  }

  /** An index entry is a hole of the tiling, and its header tells the hole's size. */
  lemma {:induction false} Indexed(m: Bytes, index: seq<nat>, cs: seq<Chunk>, start: nat, end: nat, out: multiset<nat>, k: nat)
    requires Consistent(m, index, cs, start, end, out) && k < |index|
    ensures var i := Find(cs, index[k]);
            i < |cs| && cs[i].hole && cs[i].addr == index[k] && SizeAt(m, index[k]) == cs[i].size
  {
    assert index[k] in multiset(index);
    HolesAreChunks(cs, index[k]);
    var c :| c in cs && c.hole && c.addr == index[k];
    var i :| 0 <= i < |cs| && cs[i] == c;
    FindAt(cs, start, i);
  }

  /** Conversely a hole of the tiling that is not held out has an index entry. */
  lemma {:induction false} HasEntry(m: Bytes, index: seq<nat>, cs: seq<Chunk>, start: nat, end: nat, out: multiset<nat>, c: Chunk)
    requires Consistent(m, index, cs, start, end, out) && c in cs && c.hole && c.addr !in out
    ensures c.addr in index && SizeAt(m, c.addr) == c.size
  {
    HolesAreChunks(cs, c.addr);
    assert c.addr in multiset(index) + out;
  }

  lemma ChunkFrame(m: Bytes, n: Bytes, c: Chunk, lo: nat, hi: nat)
    requires ChunkAt(m, c) && SameOutside(m, n, lo, hi)
    requires c.addr + c.size <= lo || hi <= c.addr
    ensures ChunkAt(n, c) && SizeAt(n, c.addr) == SizeAt(m, c.addr)
  {
  }

  /**
   Replacing the middle `mid` of a tiling by `mid'`, with memory changed only between the two
   neighbours, keeps the tags and the sizes the index is sorted by.  Splitting, merging,
   growing and cutting are all of this shape.
   */
  lemma {:induction false} SpliceWritten(m: Bytes, n: Bytes, l: seq<Chunk>, mid: seq<Chunk>, mid': seq<Chunk>,
                                         r: seq<Chunk>, start: nat, hi: nat)
    requires Tiles(l, start) && Tiles(r, start + Span(l) + Span(mid))
    requires Written(m, l + mid + r)
    requires SameOutside(m, n, start + Span(l), hi) && Written(n, mid')
    requires r != [] ==> hi <= start + Span(l) + Span(mid)
    ensures Written(n, l + mid' + r)
    ensures forall c :: c in l || c in r ==> SizeAt(n, c.addr) == SizeAt(m, c.addr)
  {
    WrittenConcat(m, l, mid, r);
    Frame(m, n, l, start, start + Span(l), hi);
    Frame(m, n, r, start + Span(l) + Span(mid), start + Span(l), hi);
    WrittenConcat(n, l, mid', r);
  }

  lemma WrittenConcat(m: Bytes, x: seq<Chunk>, y: seq<Chunk>, z: seq<Chunk>)
    ensures Written(m, x + y + z) <==> Written(m, x) && Written(m, y) && Written(m, z)
  {
    assert forall c :: c in x || c in y || c in z ==> c in x + y + z;
  }

  /** Chunks on one side of the changed range stay as they are written. */
  lemma {:induction false} Frame(m: Bytes, n: Bytes, cs: seq<Chunk>, a: nat, lo: nat, hi: nat)
    requires Tiles(cs, a) && Written(m, cs) && SameOutside(m, n, lo, hi)
    requires cs != [] ==> a + Span(cs) <= lo || hi <= a
    ensures Written(n, cs)
    ensures forall c :: c in cs ==> SizeAt(n, c.addr) == SizeAt(m, c.addr)
  {
    forall c | c in cs ensures ChunkAt(n, c) && SizeAt(n, c.addr) == SizeAt(m, c.addr) {
      Within(cs, a, c);
      ChunkFrame(m, n, c, lo, hi);
    }
  }

  lemma {:induction false} SpliceTiles(l: seq<Chunk>, mid: seq<Chunk>, r: seq<Chunk>, start: nat)
    ensures Tiles(l + mid + r, start) <==>
            Tiles(l, start) && Tiles(mid, start + Span(l)) && Tiles(r, start + Span(l) + Span(mid))
  {
    TilesConcat(l + mid, r, start);
    TilesConcat(l, mid, start);
    SpanConcat(l, mid);
  }

  lemma {:induction false} SpliceHoles(l: seq<Chunk>, mid: seq<Chunk>, r: seq<Chunk>)
    ensures Span(l + mid + r) == Span(l) + Span(mid) + Span(r)
    ensures Holes(l + mid + r) == Holes(l) + Holes(mid) + Holes(r)
  {
    SpanConcat(l + mid, r);
    SpanConcat(l, mid);
    HolesConcat(l + mid, r);
    HolesConcat(l, mid);
  }

  // ----- The three moves every operation is made of

  /** An entry taken out of the index. */
  lemma {:induction false} TakeOut(m: Bytes, index: seq<nat>, k: nat, cs: seq<Chunk>, start: nat, end: nat, out: multiset<nat>)
    requires Consistent(m, index, cs, start, end, out) && k < |index|
    ensures Consistent(m, Removed(index, k), cs, start, end, out + multiset{index[k]})
  {
    RemoveSorts(index, k, BySize(m));
    assert index[k] in multiset(index);
  }

  /** A missing hole put back into the index. */
  lemma {:induction false} PutIn(m: Bytes, index: seq<nat>, a: nat, cs: seq<Chunk>, start: nat, end: nat, out: multiset<nat>)
    requires Consistent(m, index, cs, start, end, out + multiset{a})
    ensures Consistent(m, Inserted(index, a, BySize(m)), cs, start, end, out)
  {
    InsertSorts(index, a, BySize(m));
  }

  /** The header of a block turned into the header of a hole. */
  lemma MarkTag(m: Bytes, n: Bytes, c: Chunk)
    requires ChunkAt(m, c) && n == m[c.addr + 4 := 1]
    ensures ChunkAt(n, c.(hole := true)) && SameOutside(m, n, c.addr, c.addr + c.size)
  {
  }

  /** Chunks rewritten while none of their holes is in the index. */
  lemma {:induction false} Rewrite(m: Bytes, n: Bytes, index: seq<nat>, l: seq<Chunk>, mid: seq<Chunk>, mid': seq<Chunk>,
                                   r: seq<Chunk>, start: nat, end: nat, hi: nat)
    requires Consistent(m, index, l + mid + r, start, end, Holes(mid))
    requires SameOutside(m, n, start + Span(l), hi) && Written(n, mid') && Tiles(mid', start + Span(l))
    requires r != [] ==> Span(mid') == Span(mid) && hi <= start + Span(l) + Span(mid)
    ensures Consistent(n, index, l + mid' + r, start, start + Span(l + mid' + r), Holes(mid'))
  {
    hide Word, ChunkAt, Tiles, Span, Holes, SameOutside, SortedIndex, Written;
    SpliceTiles(l, mid, r, start);
    SpliceHoles(l, mid, r);
    SpliceHoles(l, mid', r);
    SpliceWritten(m, n, l, mid, mid', r, start, hi);
    RewriteTiles(l, mid, mid', r, start);
    Cancel(multiset(index), Holes(l), Holes(mid), Holes(r));
    SortedByNeighbours(m, n, index, l, r);
  }

  lemma Cancel(i: multiset<nat>, l: multiset<nat>, mid: multiset<nat>, r: multiset<nat>)
    requires i + mid == l + mid + r
    ensures i == l + r
  {
    forall a ensures i[a] == (l + r)[a] {
      assert (i + mid)[a] == (l + mid + r)[a];
    }
  }

  lemma {:induction false} SortedByNeighbours(m: Bytes, n: Bytes, index: seq<nat>, l: seq<Chunk>, r: seq<Chunk>)
    requires SortedIndex(m, index) && multiset(index) == Holes(l) + Holes(r)
    requires forall c :: c in l || c in r ==> SizeAt(n, c.addr) == SizeAt(m, c.addr)
    ensures SortedIndex(n, index)
  {
    forall a | a in index ensures SizeAt(m, a) == SizeAt(n, a) {
      assert a in multiset(index);
      HolesAreChunks(l, a);
      HolesAreChunks(r, a);
    }
    SortedFrame(m, n, index);
  }

  lemma {:induction false} RewriteTiles(l: seq<Chunk>, mid: seq<Chunk>, mid': seq<Chunk>, r: seq<Chunk>, start: nat)
    requires Tiles(l + mid + r, start) && Tiles(mid', start + Span(l))
    requires r != [] ==> Span(mid') == Span(mid)
    ensures Tiles(l + mid' + r, start)
  {
    SpliceTiles(l, mid, r, start);
    SpliceTiles(l, mid', r, start);
  }
}
