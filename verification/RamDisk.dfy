/**
 The initial ramdisk (kernel/FIleSystem/initrd.cpp): file headers in the image, the nodes made
 from them, and reading, listing and finding files.
 */
module RamDisk {
  import opened Memory
  import opened Strings

  const HEADER_SIZE: nat := 76
  const NODE_SIZE: nat := 184
  const HEADER_NAME: nat := 64
  const NODE_NAME: nat := 128
  const FS_FILE: nat := 1
  const FIELDS: nat := 13

  // ----- Reading

  /** How many bytes a read delivers; the end test wraps at 32 bits. */
  function ReadCount(length: nat, offset: nat, size: nat): nat {
    if offset > length then 0
    else if W32(offset + size) > length then length - offset
    else size
  }

  /** A read stops at the end of the file exactly when the end test does not wrap below it. */
  lemma ReadCountExact(length: nat, offset: nat, size: nat)
    requires length < ADDRESS_SPACE && offset < ADDRESS_SPACE && size < ADDRESS_SPACE
    ensures offset + ReadCount(length, offset, size) <= (if offset > length then offset else length)
            <==> offset > length || offset + size < ADDRESS_SPACE || W32(offset + size) > length
  {
  }

  /** A size that makes the end test wrap is delivered whole, far beyond the end of the file. */
  lemma ReadCountFails()
    ensures ReadCount(100, 50, 0xFFFF_FFF0) == 0xFFFF_FFF0
  {
  }

  /** No end test of these reads, each starting where the one before has ended, wraps. */
  predicate Inside(length: nat, offset: nat, sizes: seq<nat>)
    decreases sizes
  {
    sizes != [] ==> offset + sizes[0] < ADDRESS_SPACE && Inside(length, End(length, offset + sizes[0]), sizes[1..])
  }

  /** How far consecutive reads get, by what they report. */
  function Reached(length: nat, offset: nat, sizes: seq<nat>): (end: nat)
    ensures offset <= end
    decreases sizes
  {
    if sizes == [] then offset else Reached(length, offset + ReadCount(length, offset, sizes[0]), sizes[1..])
  }

  /** Consecutive reads get as far as their sizes or the file go exactly when none of them wraps. */
  lemma {:induction false} ReadsExact(length: nat, offset: nat, sizes: seq<nat>)
    requires offset <= length < ADDRESS_SPACE && forall k :: 0 <= k < |sizes| ==> sizes[k] < ADDRESS_SPACE
    ensures Reached(length, offset, sizes) == End(length, offset + Sum(sizes)) <==> Inside(length, offset, sizes)
    decreases sizes
  {
    if sizes != [] {
      EndStep(length, offset, sizes[0], Sum(sizes[1..]));
      if offset + sizes[0] < ADDRESS_SPACE {
        ReadEnd(length, offset, sizes[0]);
        ReadsExact(length, End(length, offset + sizes[0]), sizes[1..]);
      }
    }
  }

  /** What consecutive reads of these sizes deliver. */
  function Chunks(file: seq<byte>, offset: nat, sizes: seq<nat>): seq<byte>
    requires offset <= |file| && |file| < ADDRESS_SPACE && Inside(|file|, offset, sizes)
    decreases sizes
  {
    if sizes == [] then []
    else
      var n := ReadCount(|file|, offset, sizes[0]);
      ReadEnd(|file|, offset, sizes[0]);
      file[offset..offset + n] + Chunks(file, offset + n, sizes[1..])
  }

  function Sum(sizes: seq<nat>): nat {
    if sizes == [] then 0 else sizes[0] + Sum(sizes[1..])
  }

  /** Consecutive reads deliver the file from where they start, up to its end. */
  lemma {:induction false} ReadsReassemble(file: seq<byte>, offset: nat, sizes: seq<nat>)
    requires offset <= |file| && |file| < ADDRESS_SPACE && Inside(|file|, offset, sizes)
    ensures Chunks(file, offset, sizes) == file[offset..End(|file|, offset + Sum(sizes))]
    decreases sizes
  {
    hide ReadCount, End, Chunks, Sum;
    FirstChunk(file, offset, sizes);
    if sizes != [] {
      EndStep(|file|, offset, sizes[0], Sum(sizes[1..]));
      var next := End(|file|, offset + sizes[0]);
      ReadsReassemble(file, next, sizes[1..]);
      Adjoining(file, offset, next, End(|file|, next + Sum(sizes[1..])));
    }
  }

  lemma {:induction false} FirstChunk(file: seq<byte>, offset: nat, sizes: seq<nat>)
    requires offset <= |file| && |file| < ADDRESS_SPACE && Inside(|file|, offset, sizes)
    ensures sizes == [] ==> Chunks(file, offset, sizes) == file[offset..End(|file|, offset + Sum(sizes))]
    ensures sizes != [] ==>
              var next := End(|file|, offset + sizes[0]);
              && offset <= next <= |file| && Inside(|file|, next, sizes[1..]) && Sum(sizes) == sizes[0] + Sum(sizes[1..])
              && Chunks(file, offset, sizes) == file[offset..next] + Chunks(file, next, sizes[1..])
  {
    if sizes == [] {
      assert Sum(sizes) == 0;
    } else {
      ReadEnd(|file|, offset, sizes[0]);
    }
  }

  /** A read gets as far as its size or the end of the file allows. */
  lemma ReadEnd(length: nat, offset: nat, size: nat)
    requires offset <= length && offset + size < ADDRESS_SPACE
    ensures offset + ReadCount(length, offset, size) == End(length, offset + size)
  {
  }

  lemma EndStep(length: nat, offset: nat, size: nat, more: nat)
    ensures End(length, End(length, offset + size) + more) == End(length, offset + size + more)
    ensures offset <= length ==> offset <= End(length, offset + size) <= End(length, offset + size + more) <= length
  {
  }

  lemma EndsAt(length: nat, offset: nat)
    requires offset <= length
    ensures End(length, offset) == offset
  {
  }

  lemma {:induction false} SumStep(sizes: seq<nat>, k: nat)
    requires k < |sizes|
    ensures Sum(sizes[..k + 1]) == Sum(sizes[..k]) + sizes[k]
  {
    if k > 0 {
      assert sizes[..k + 1][1..] == sizes[1..][..k] && sizes[..k][1..] == sizes[1..][..k - 1];
      SumStep(sizes[1..], k - 1);
    } else {
      assert sizes[..1] == [sizes[0]] && [sizes[0]][1..] == [];
    }
  }

  function End(length: nat, offset: nat): nat {
    if offset < length then offset else length
  }

  lemma Adjoining(file: seq<byte>, a: nat, b: nat, c: nat)
    requires a <= b <= c <= |file|
    ensures file[a..b] + file[b..c] == file[a..c]
  {
  }

  /** At the end of a file, a read delivers nothing exactly if it asks for nothing or does not wrap. */
  lemma ReadAtEndExact(length: nat, size: nat)
    requires length < ADDRESS_SPACE && size < ADDRESS_SPACE
    ensures ReadCount(length, length, size) == 0 <==> size == 0 || length + size < ADDRESS_SPACE
  {
  }

  class Disk {
    const mem: array<byte>
    const location: nat
    const nodes: nat
    const direntry: nat
    const devName: nat
    const root: nat
    const dev: nat
    const reader: nat  // where the function that reads files lies
    const count: nat

    function Header(i: nat): nat {
      location + 4 + HEADER_SIZE * i
    }

    function Node(i: nat): nat {
      nodes + NODE_SIZE * i
    }

    constructor (mem: array<byte>, location: nat, nodes: nat, direntry: nat, devName: nat, root: nat, dev: nat, reader: nat, count: nat)
      ensures this.mem == mem && this.location == location && this.nodes == nodes && this.direntry == direntry
      ensures this.devName == devName && this.root == root && this.dev == dev && this.reader == reader && this.count == count
    {
      this.mem := mem;
      this.location := location;
      this.nodes := nodes;
      this.direntry := direntry;
      this.devName := devName;
      this.root := root;
      this.dev := dev;
      this.reader := reader;
      this.count := count;
    }

    /** The table of headers, the table of nodes and the directory entry lie apart. */
    predicate Placed(size: nat) {
      && 0 < nodes && 0 < direntry && reader < ADDRESS_SPACE
      && Header(count) <= size && Node(count) <= size && direntry + 132 <= size <= ADDRESS_SPACE
      && (Header(count) <= nodes || Node(count) <= location)
      && (Node(count) <= direntry || direntry + 132 <= nodes)
      && (Header(count) <= direntry || direntry + 132 <= location)
    }

    /** What the image says about file `i`. */
    ghost predicate NamedHeader(m: Bytes, i: nat)
      requires Placed(|m|) && i < count
    {
      Terminated(m, Header(i) + 1) && |CString(m, Header(i) + 1)| < HEADER_NAME
    }

    /** Node `i` stands for file `i` of the image. */
    ghost predicate NodeOf(m: Bytes, i: nat, name: seq<byte>, length: nat)
      requires Placed(|m|) && i < count
    {
      && Terminated(m, Node(i)) && CString(m, Node(i)) == name && |name| < HEADER_NAME
      && Word(m, Node(i) + 140) == FS_FILE
      && Word(m, Node(i) + 144) == i
      && Word(m, Node(i) + 148) == length
      && forall k :: 0 <= k < FIELDS ==> Word(m, FieldAddr(Node(i), k)) == Field(k, i, length)
    }

    /** Where a node's field of number `k` behind the name lies. */
    function FieldAddr(node: nat, k: nat): nat {
      node + NODE_NAME + 4 * k
    }

    /** The fields of a file's node in the order of the structure, from `mask` to `finddir`. */
    function Field(k: nat, inode: nat, length: nat): nat {
      if k == 3 then FS_FILE else if k == 4 then inode else if k == 5 then length else if k == 7 then reader else 0
    }

    /** What a file's node holds, field by field: `read` reads, and everything the file has no use for is zero. */
    lemma NodeLayout(m: Bytes, i: nat, name: seq<byte>, length: nat)
      requires Placed(|m|) && i < count && NodeOf(m, i, name, length)
      ensures var node := nodes + 184 * i;
              && CString(m, node) == name
              && Word(m, node + 128) == 0 && Word(m, node + 132) == 0 && Word(m, node + 136) == 0
              && Word(m, node + 140) == 1 && Word(m, node + 144) == i && Word(m, node + 148) == length && Word(m, node + 152) == 0
              && Word(m, node + 156) == reader
              && Word(m, node + 160) == 0 && Word(m, node + 164) == 0 && Word(m, node + 168) == 0
              && Word(m, node + 172) == 0 && Word(m, node + 176) == 0
    {
      hide Word, CString;
      FieldIs(m, i, name, length, 0);
      FieldIs(m, i, name, length, 1);
      FieldIs(m, i, name, length, 2);
      FieldIs(m, i, name, length, 6);
      FieldIs(m, i, name, length, 7);
      FieldIs(m, i, name, length, 8);
      FieldIs(m, i, name, length, 9);
      FieldIs(m, i, name, length, 10);
      FieldIs(m, i, name, length, 11);
      FieldIs(m, i, name, length, 12);
    }

    lemma FieldIs(m: Bytes, i: nat, name: seq<byte>, length: nat, k: nat)
      requires Placed(|m|) && i < count && NodeOf(m, i, name, length) && k < FIELDS
      ensures Node(i) + NODE_NAME + 4 * k + 4 <= |m| && Word(m, Node(i) + NODE_NAME + 4 * k) == Field(k, i, length)
    {
      hide Word, CString;
      InTable(i);
      assert FieldAddr(Node(i), k) == Node(i) + NODE_NAME + 4 * k;
    }

    /** Where the fields of a file's header lie in the image. */
    lemma HeaderLayout(i: nat)
      ensures Header(i) == location + 4 + 76 * i
    {
    }

    lemma InTable(i: nat)
      requires i < count
      ensures Header(i) + HEADER_SIZE <= Header(count) && Node(i) + NODE_SIZE <= Node(count)
    {
    }

    lemma Apart(i: nat, j: nat)
      requires i < j
      ensures Header(i) + HEADER_SIZE <= Header(j) && Node(i) + NODE_SIZE <= Node(j)
    {
    }

    /** The fields set so far. */
    ghost predicate FieldsAre(m: Bytes, node: nat, fields: map<nat, nat>)
      requires node + NODE_SIZE <= |m|
    {
      forall k :: k in fields ==> k < FIELDS && Word(m, FieldAddr(node, k)) == fields[k]
    }

    lemma FieldsFrame(m: Bytes, n: Bytes, node: nat, fields: map<nat, nat>, k: nat, v: nat)
      requires node + NODE_SIZE <= |m| && FieldsAre(m, node, fields) && k < FIELDS && v < ADDRESS_SPACE
      requires n == PutWord(m, FieldAddr(node, k), v)
      ensures FieldsAre(n, node, fields[k := v])
    {
      hide Word, SameOutside, PutWord;
      var a := FieldAddr(node, k);
      forall j | j in fields && j != k ensures Word(n, FieldAddr(node, j)) == fields[j] {
        WordFrame(m, n, FieldAddr(node, j), a, a + 4);
      }
    }

    method SetField(node: nat, k: nat, v: nat, ghost before: Bytes, ghost fields: map<nat, nat>)
      requires node + NODE_SIZE <= mem.Length && k < FIELDS && v < ADDRESS_SPACE
      requires FieldsAre(mem[..], node, fields) && SameOutside(before, mem[..], node + NODE_NAME, node + NODE_SIZE)
      modifies mem
      ensures FieldsAre(mem[..], node, fields[k := v]) && SameOutside(before, mem[..], node + NODE_NAME, node + NODE_SIZE)
    {
      hide Word, SameOutside, PutWord, FieldsAre;
      ghost var m, a := mem[..], FieldAddr(node, k);
      StoreWord(mem, FieldAddr(node, k), v);
      FieldsFrame(m, mem[..], node, fields, k, v);
      Compose(before, m, mem[..], node + NODE_NAME, node + NODE_SIZE, a, a + 4, node + NODE_NAME, node + NODE_SIZE);
    }

    /** Sets a node's fields, all but the pointer for mount points. */
    method WriteFields(node: nat, inode: nat, length: nat)
      requires node + NODE_SIZE <= mem.Length && inode < ADDRESS_SPACE && length < ADDRESS_SPACE && reader < ADDRESS_SPACE
      modifies mem
      ensures forall k :: 0 <= k < FIELDS ==> Word(mem[..], FieldAddr(node, k)) == Field(k, inode, length)
      ensures SameOutside(old(mem[..]), mem[..], node + NODE_NAME, node + NODE_SIZE)
    {
      hide Word, SameOutside, FieldsAre;
      ghost var m, f0 := mem[..], map[];
      Unchanged(m, node + NODE_NAME, node + NODE_SIZE);
      NoFields(m, node);
      SetField(node, 2, 0, m, f0);
      ghost var f1 := f0[2 := 0];
      SetField(node, 1, 0, m, f1);
      ghost var f2 := f1[1 := 0];
      SetField(node, 0, 0, m, f2);
      ghost var f3 := f2[0 := 0];
      SetField(node, 5, length, m, f3);
      ghost var f4 := f3[5 := length];
      SetField(node, 4, inode, m, f4);
      ghost var f5 := f4[4 := inode];
      SetField(node, 3, FS_FILE, m, f5);
      ghost var f6 := f5[3 := FS_FILE];
      SetField(node, 7, reader, m, f6);
      ghost var f7 := f6[7 := reader];
      SetField(node, 8, 0, m, f7);
      ghost var f8 := f7[8 := 0];
      SetField(node, 11, 0, m, f8);
      ghost var f9 := f8[11 := 0];
      SetField(node, 12, 0, m, f9);
      ghost var f10 := f9[12 := 0];
      SetField(node, 9, 0, m, f10);
      ghost var f11 := f10[9 := 0];
      SetField(node, 10, 0, m, f11);
      ghost var f12 := f11[10 := 0];
      SetField(node, 6, 0, m, f12);
      AllFields(mem[..], node, f12[6 := 0], inode, length);
    }

    lemma NoFields(m: Bytes, node: nat)
      requires node + NODE_SIZE <= |m|
      ensures FieldsAre(m, node, map[])
    {
    }

    lemma AllFields(m: Bytes, node: nat, fields: map<nat, nat>, inode: nat, length: nat)
      requires node + NODE_SIZE <= |m| && FieldsAre(m, node, fields)
      requires forall k :: 0 <= k < FIELDS ==> k in fields && fields[k] == Field(k, inode, length)
      ensures forall k :: 0 <= k < FIELDS ==> Word(m, FieldAddr(node, k)) == Field(k, inode, length)
    {
      hide Word;
    }

    /** The offset in header `i` becomes an address. */
    method Relocate(i: nat)
      requires i < count && Placed(mem.Length) && location < ADDRESS_SPACE
      modifies mem
      ensures Word(mem[..], Header(i) + 68) == W32(old(Word(mem[..], Header(i) + 68)) + location)
      ensures SameOutside(old(mem[..]), mem[..], Header(i) + 68, Header(i) + 72)
    {
      hide Word, SameOutside;
      InTable(i);
      var offset := LoadWord(mem, Header(i) + 68);
      StoreWord(mem, Header(i) + 68, W32(offset + location));
    }

    /** Fills in node `i` from header `i`. */
    method FillNode(i: nat)
      requires i < count && Placed(mem.Length) && NamedHeader(mem[..], i)
      modifies mem
      ensures NodeOf(mem[..], i, old(CString(mem[..], Header(i) + 1)), old(Word(mem[..], Header(i) + 72)))
      ensures SameOutside(old(mem[..]), mem[..], Node(i), Node(i) + NODE_SIZE)
    {
      hide Word, SameOutside, PutWord, CString;
      InTable(i);
      ghost var m, node := mem[..], Node(i);
      ghost var name := CString(m, Header(i) + 1);
      var _ := Strcpy(mem, Node(i), Header(i) + 1);
      ghost var n := mem[..];
      WordFrame(m, n, Header(i) + 72, node, node + |name| + 1);
      var length := LoadWord(mem, Header(i) + 72);
      WriteFields(Node(i), i, length);
      assert FieldAddr(node, 3) == node + 140 && FieldAddr(node, 4) == node + 144 && FieldAddr(node, 5) == node + 148;
      CStringFrame(n, mem[..], node, node + NODE_NAME, node + NODE_SIZE);
      Compose(m, n, mem[..], node, node + |name| + 1, node + NODE_NAME, node + NODE_SIZE, node, node + NODE_SIZE);
    }

    /** Makes node `i` from header `i`, whose offset becomes an address. */
    method MakeNode(i: nat)
      requires i < count && Placed(mem.Length) && NamedHeader(mem[..], i) && location < ADDRESS_SPACE
      modifies mem
      ensures NodeOf(mem[..], i, old(CString(mem[..], Header(i) + 1)), old(Word(mem[..], Header(i) + 72)))
      ensures Word(mem[..], Header(i) + 68) == W32(old(Word(mem[..], Header(i) + 68)) + location)
      ensures OnlyNode(old(mem[..]), mem[..], i)
    {
      hide Word, SameOutside, CString, NodeOf, W32, OnlyNode;
      InTable(i);
      ghost var m, h, node := mem[..], Header(i), Node(i);
      Relocate(i);
      ghost var n := mem[..];
      CStringFrame(m, n, h + 1, h + 68, h + 72);
      WordFrame(m, n, h + 72, h + 68, h + 72);
      FillNode(i);
      WordFrame(n, mem[..], h + 68, node, node + NODE_SIZE);
      OnlyNodeFrom(m, n, mem[..], i);
    }

    /** Nothing changed but node `i` and the offset in header `i`. */
    ghost predicate OnlyNode(m: Bytes, n: Bytes, i: nat) {
      |m| == |n| &&
      forall a :: 0 <= a < |m| && !(Node(i) <= a < Node(i) + NODE_SIZE) && !(Header(i) + 68 <= a < Header(i) + 72) ==> n[a] == m[a]
    }

    lemma OnlyNodeFrom(m: Bytes, n: Bytes, o: Bytes, i: nat)
      requires SameOutside(m, n, Header(i) + 68, Header(i) + 72) && SameOutside(n, o, Node(i), Node(i) + NODE_SIZE)
      ensures OnlyNode(m, o, i)
    {
    }
  
    lemma NodeFields(m: Bytes, n: Bytes, i: nat, j: nat)
      requires Placed(|m|) && i < count && j < count && i != j && OnlyNode(m, n, i)
      ensures forall k :: Node(j) <= k < Node(j) + NODE_SIZE ==> k < |m| && n[k] == m[k]
      ensures Word(n, Node(j) + 140) == Word(m, Node(j) + 140)
      ensures Word(n, Node(j) + 144) == Word(m, Node(j) + 144)
      ensures Word(n, Node(j) + 148) == Word(m, Node(j) + 148)
      ensures forall k :: 0 <= k < FIELDS ==> Word(n, FieldAddr(Node(j), k)) == Word(m, FieldAddr(Node(j), k))
    {
      InTable(i);
      InTable(j);
      Apart(if i < j then i else j, if i < j then j else i);
    }

    lemma NodeFrame(m: Bytes, n: Bytes, i: nat, j: nat, name: seq<byte>, length: nat)
      requires Placed(|m|) && i < count && j < count && i != j && OnlyNode(m, n, i) && NodeOf(m, j, name, length)
      ensures NodeOf(n, j, name, length)
    {
      hide Word, CString;
      NodeFields(m, n, i, j);
      hide OnlyNode;
      CStringAt(m, Node(j));
      CStringIs(n, Node(j), name);
    }

    lemma FieldFrame(m: Bytes, n: Bytes, i: nat, j: nat)
      requires Placed(|m|) && i < count && j < count && OnlyNode(m, n, i)
      ensures j != i ==> Word(n, Header(j) + 68) == Word(m, Header(j) + 68)
      ensures Word(n, Header(j) + 72) == Word(m, Header(j) + 72)
    {
      InTable(i);
      InTable(j);
      if i != j {
        Apart(if i < j then i else j, if i < j then j else i);
      }
    }

    lemma HeaderFrame(m: Bytes, n: Bytes, i: nat, j: nat)
      requires Placed(|m|) && i < count && j < count && i != j && OnlyNode(m, n, i) && NamedHeader(m, j)
      ensures NamedHeader(n, j) && CString(n, Header(j) + 1) == CString(m, Header(j) + 1)
      ensures Word(n, Header(j) + 72) == Word(m, Header(j) + 72)
    {
      hide Word, CString;
      FieldFrame(m, n, i, j);
      InTable(i);
      InTable(j);
      Apart(if i < j then i else j, if i < j then j else i);
      CStringAt(m, Header(j) + 1);
      CStringIs(n, Header(j) + 1, CString(m, Header(j) + 1));
    }

    /** What the image holds about the files, for as long as their headers are untouched. */
    ghost predicate Image(m: Bytes, from: nat, names: seq<seq<byte>>, lengths: seq<nat>)
      requires Placed(|m|)
    {
      && |names| == |lengths| == count
      && forall j :: from <= j < count ==>
           NamedHeader(m, j) && CString(m, Header(j) + 1) == names[j] && Word(m, Header(j) + 72) == lengths[j]
    }

    /** What file `j`'s header says about where the file lies: an address once its node is made. */
    ghost predicate Relocated(m: Bytes, upto: nat, offsets: seq<nat>)
      requires Placed(|m|)
    {
      && |offsets| == count
      && forall j :: 0 <= j < count ==> Word(m, Header(j) + 68) == if j < upto then W32(offsets[j] + location) else offsets[j]
    }

    /** The headers still give the lengths. */
    ghost predicate Measured(m: Bytes, lengths: seq<nat>)
      requires Placed(|m|)
    {
      |lengths| == count && forall j :: 0 <= j < count ==> Word(m, Header(j) + 72) == lengths[j]
    }

    /** The nodes made so far. */
    ghost predicate Made(m: Bytes, upto: nat, names: seq<seq<byte>>, lengths: seq<nat>)
      requires Placed(|m|)
    {
      && upto <= count && |names| == |lengths| == count
      && forall j :: 0 <= j < upto ==> NodeOf(m, j, names[j], lengths[j])
    }

    /** Makes a node for every file of the image, and turns the offsets into addresses. */
    method InitialiseNodes(ghost names: seq<seq<byte>>, ghost offsets: seq<nat>, ghost lengths: seq<nat>)
      requires Placed(mem.Length) && location < ADDRESS_SPACE
      requires Image(mem[..], 0, names, lengths) && Relocated(mem[..], 0, offsets)
      modifies mem
      ensures Made(mem[..], count, names, lengths)
      ensures Relocated(mem[..], count, offsets) && Measured(mem[..], lengths)
      ensures OnlyTables(old(mem[..]), mem[..])
    {
      hide OnlyTables, OnlyNode, NamedHeader, NodeOf, Word, CString, W32;
      var i := 0;
      NoneChanged(mem[..]);
      while i < count
        invariant 0 <= i <= count
        invariant Image(mem[..], i, names, lengths) && Made(mem[..], i, names, lengths)
        invariant Relocated(mem[..], i, offsets) && Measured(mem[..], lengths)
        invariant OnlyTables(old(mem[..]), mem[..])
      {
        ghost var m := mem[..];
        MakeNode(i);
        StillTables(old(mem[..]), m, mem[..], i);
        Step(m, mem[..], i, names, lengths);
        StepHeaders(m, mem[..], i, offsets, lengths);
        i := i + 1;
      }
    }

    /** The bytes that making the nodes may write: the nodes and the offsets in the headers. */
    ghost predicate MayWrite(a: int) {
      nodes <= a < Node(count) || exists j: nat :: j < count && Header(j) + 68 <= a < Header(j) + 72
    }

    ghost predicate OnlyTables(m: Bytes, n: Bytes) {
      |m| == |n| && forall a :: 0 <= a < |m| && !MayWrite(a) ==> n[a] == m[a]
    }

    lemma NoneChanged(m: Bytes)
      ensures OnlyTables(m, m)
    {
    }

    lemma StillTables(m: Bytes, n: Bytes, o: Bytes, i: nat)
      requires OnlyTables(m, n) && OnlyNode(n, o, i) && i < count
      ensures OnlyTables(m, o)
    {
      InTable(i);
      forall a | 0 <= a < |m| && !MayWrite(a) ensures o[a] == m[a] {
        assert n[a] == m[a];
      }
    }

    lemma Step(m: Bytes, n: Bytes, i: nat, names: seq<seq<byte>>, lengths: seq<nat>)
      requires Placed(|m|) && i < count && OnlyNode(m, n, i)
      requires Image(m, i, names, lengths) && Made(m, i, names, lengths) && NodeOf(n, i, names[i], lengths[i])
      ensures Image(n, i + 1, names, lengths) && Made(n, i + 1, names, lengths)
    {
      hide NamedHeader, NodeOf;
      assert |n| == |m|;
      hide OnlyNode;
      forall j | i < j < count
        ensures NamedHeader(n, j) && CString(n, Header(j) + 1) == names[j] && Word(n, Header(j) + 72) == lengths[j]
      {
        HeaderFrame(m, n, i, j);
      }
      forall j | 0 <= j < i ensures NodeOf(n, j, names[j], lengths[j]) {
        NodeFrame(m, n, i, j, names[j], lengths[j]);
      }
    }

    lemma StepHeaders(m: Bytes, n: Bytes, i: nat, offsets: seq<nat>, lengths: seq<nat>)
      requires Placed(|m|) && i < count && OnlyNode(m, n, i)
      requires Relocated(m, i, offsets) && Measured(m, lengths)
      requires Word(n, Header(i) + 68) == W32(offsets[i] + location)
      ensures Relocated(n, i + 1, offsets) && Measured(n, lengths)
    {
      hide Word, W32;
      assert |n| == |m|;
      hide OnlyNode;
      forall j | 0 <= j < count
        ensures Word(n, Header(j) + 72) == Word(m, Header(j) + 72)
        ensures j != i ==> Word(n, Header(j) + 68) == Word(m, Header(j) + 68)
      {
        FieldFrame(m, n, i, j);
      }
    }

    // ----- Reading, listing and finding

    /** Copies bytes; the two places may not overlap. */
    method Memcpy(destination: nat, source: nat, size: nat)
      requires destination + size <= mem.Length && source + size <= mem.Length
      requires destination + size <= source || source + size <= destination
      modifies mem
      ensures mem[destination..destination + size] == old(mem[source..source + size])
      ensures SameOutside(old(mem[..]), mem[..], destination, destination + size)
    {
      var i := 0;
      while i < size
        invariant 0 <= i <= size
        invariant mem[destination..destination + i] == old(mem[source..source + i])
        invariant forall k :: 0 <= k < mem.Length && !(destination <= k < destination + i) ==> mem[k] == old(mem[k])
      {
        ghost var before := mem[destination..destination + i];
        mem[destination + i] := mem[source + i];
        i := i + 1;
        assert mem[destination..destination + i] == before + [mem[destination + i - 1]];
      }
    }

    /** Reads from a file into a buffer and returns how many bytes were delivered. */
    method Read(i: nat, offset: nat, size: nat, buffer: nat) returns (n: nat)
      requires i < count && Placed(mem.Length) && Word(mem[..], Node(i) + 144) == i
      requires var file, length := Word(mem[..], Header(i) + 68), Word(mem[..], Header(i) + 72);
               var n := ReadCount(length, offset, size);
               && file + offset + n <= mem.Length && buffer + n <= mem.Length
               && (buffer + n <= file + offset || file + offset + n <= buffer)
      modifies mem
      ensures n == ReadCount(old(Word(mem[..], Header(i) + 72)), offset, size)
      ensures var length := old(Word(mem[..], Header(i) + 72));
              && (length < offset ==> n == 0)
              && (offset + size <= length ==> n == size)
              && (offset <= length < offset + size < 0x1_0000_0000 ==> n == length - offset)
      ensures var file := old(Word(mem[..], Header(i) + 68));
              file + offset + n <= mem.Length && buffer + n <= mem.Length
              && mem[buffer..buffer + n] == old(mem[..])[file + offset..file + offset + n]
      ensures SameOutside(old(mem[..]), mem[..], buffer, buffer + n)
    {
      hide Word;
      InTable(i);
      var inode := LoadWord(mem, Node(i) + 144);
      var file := LoadWord(mem, Header(inode) + 68);
      var length := LoadWord(mem, Header(inode) + 72);
      if offset > length {
        n := 0;
      } else {
        n := if W32(offset + size) > length then length - offset else size;
        Memcpy(buffer, file + offset, n);
      }
    }

    /** File `i` lies in memory, and the buffer apart from it, from its header and from its node. */
    ghost predicate Readable(m: Bytes, i: nat, file: nat, data: seq<byte>, buffer: nat, room: nat)
      requires Placed(|m|) && i < count
    {
      && Header(i) + HEADER_SIZE <= |m| && Node(i) + NODE_SIZE <= |m|
      && Word(m, Node(i) + 144) == i && Word(m, Header(i) + 68) == file && Word(m, Header(i) + 72) == |data|
      && file + |data| <= |m| && m[file..file + |data|] == data
      && buffer + room <= |m|
      && (buffer + room <= Header(i) || Header(i) + HEADER_SIZE <= buffer)
      && (buffer + room <= Node(i) || Node(i) + NODE_SIZE <= buffer)
      && (buffer + room <= file || file + |data| <= buffer)
    }

    /** Writing into the buffer leaves the file readable. */
    lemma StillReadable(m: Bytes, n: Bytes, i: nat, file: nat, data: seq<byte>, buffer: nat, room: nat, lo: nat, hi: nat)
      requires Placed(|m|) && i < count && Readable(m, i, file, data, buffer, room)
      requires SameOutside(m, n, lo, hi) && buffer <= lo && hi <= buffer + room
      ensures Readable(n, i, file, data, buffer, room)
    {
      hide Word, SameOutside;
      WordFrame(m, n, Node(i) + 144, lo, hi);
      WordFrame(m, n, Header(i) + 68, lo, hi);
      WordFrame(m, n, Header(i) + 72, lo, hi);
      SliceFrame(m, n, file, file + |data|, lo, hi);
    }

    lemma SliceFrame(m: Bytes, n: Bytes, a: nat, b: nat, lo: nat, hi: nat)
      requires SameOutside(m, n, lo, hi) && a <= b <= |m| && (b <= lo || hi <= a)
      ensures |n| == |m| && n[a..b] == m[a..b]
    {
    }

    /** The next piece of a file, put behind what the buffer already holds. */
    method ReadNext(i: nat, offset: nat, size: nat, buffer: nat, done: nat, room: nat, ghost file: nat, ghost data: seq<byte>)
      returns (total: nat)
      requires Placed(mem.Length) && i < count && Readable(mem[..], i, file, data, buffer, room)
      requires offset + done <= |data| == offset + room && offset + done + size < ADDRESS_SPACE
      requires mem[buffer..buffer + done] == data[offset..offset + done]
      modifies mem
      ensures offset + total == End(|data|, offset + done + size)
      ensures Readable(mem[..], i, file, data, buffer, room) && mem[buffer..buffer + total] == data[offset..offset + total]
      ensures SameOutside(old(mem[..]), mem[..], buffer + done, buffer + total)
    {
      hide Word, SameOutside, ReadCount, Readable, End;
      ghost var m := mem[..];
      var from := offset + done;
      ReadEnd(|data|, from, size);
      EndBetween(|data|, from, size);
      Ready(m, i, file, data, buffer, room, from, done, ReadCount(|data|, from, size));
      var n := Read(i, from, size, buffer + done);
      total := done + n;
      Delivered(m, mem[..], file, data, buffer, offset, done, n);
      StillReadable(m, mem[..], i, file, data, buffer, room, buffer + done, buffer + total);
    }

    lemma EndBetween(length: nat, from: nat, size: nat)
      requires from <= length
      ensures from <= End(length, from + size) <= length
    {
    }

    /** What a read needs, and where in memory its piece of the file lies. */
    lemma Ready(m: Bytes, i: nat, file: nat, data: seq<byte>, buffer: nat, room: nat, from: nat, done: nat, n: nat)
      requires Placed(|m|) && i < count && Readable(m, i, file, data, buffer, room)
      requires done + n <= room && from + n <= |data|
      ensures Header(i) + HEADER_SIZE <= |m| && Node(i) + NODE_SIZE <= |m|
      ensures Word(m, Node(i) + 144) == i && Word(m, Header(i) + 68) == file && Word(m, Header(i) + 72) == |data|
      ensures file + from + n <= |m| && buffer + done + n <= |m|
      ensures buffer + done + n <= file + from || file + from + n <= buffer + done
      ensures m[file + from..file + from + n] == data[from..from + n]
    {
      hide Word;
      Inner(m, file, file + |data|, from, n);
    }

    lemma Inner(m: Bytes, a: nat, b: nat, from: nat, n: nat)
      requires a <= b <= |m| && a + from + n <= b
      ensures m[a + from..a + from + n] == m[a..b][from..from + n]
    {
      var x, y := m[a + from..a + from + n], m[a..b][from..from + n];
      forall k | 0 <= k < n ensures x[k] == y[k] {
        assert m[a..b][from + k] == m[a + from + k];
      }
      assert |x| == |y|;
    }

    lemma Delivered(m: Bytes, o: Bytes, file: nat, data: seq<byte>, buffer: nat, offset: nat, done: nat, n: nat)
      requires SameOutside(m, o, buffer + done, buffer + done + n) && buffer + done + n <= |m| && offset + done + n <= |data|
      requires m[buffer..buffer + done] == data[offset..offset + done]
      requires o[buffer + done..buffer + done + n] == data[offset + done..offset + done + n]
      ensures o[buffer..buffer + done + n] == data[offset..offset + done + n]
    {
      hide SameOutside;
      SliceFrame(m, o, buffer, buffer + done, buffer + done, buffer + done + n);
      Adjoining(o, buffer, buffer + done, buffer + done + n);
      Adjoining(data, offset, offset + done, offset + done + n);
    }

    /**
     Reads of any sizes, one after the other into one buffer, deliver exactly the file from the
     offset on, as far as the sizes reach.
     */
    method ReadAll(i: nat, offset: nat, sizes: seq<nat>, buffer: nat, room: nat, ghost file: nat, ghost data: seq<byte>)
      returns (total: nat)
      requires Placed(mem.Length) && i < count && Readable(mem[..], i, file, data, buffer, room)
      requires |data| == offset + room < ADDRESS_SPACE && Inside(|data|, offset, sizes)
      modifies mem
      ensures offset + total == End(|data|, offset + Sum(sizes))
      ensures mem[buffer..buffer + total] == data[offset..offset + total]
      ensures SameOutside(old(mem[..]), mem[..], buffer, buffer + total)
    {
      hide Word, SameOutside, Readable, End, Inside;
      ghost var m := mem[..];
      assert sizes[0..] == sizes;
      Unchanged(m, buffer, buffer);
      EndsAt(|data|, offset);
      assert Sum([]) == 0;
      total := 0;
      var k := 0;
      Here(m, i, file, data, buffer, room);
      while k < |sizes|
        invariant 0 <= k <= |sizes| && offset + total <= |data|
        invariant offset + total == End(|data|, offset + Sum(sizes[..k])) && Inside(|data|, offset + total, sizes[k..])
        invariant Readable(mem[..], i, file, data, buffer, room)
        invariant mem[buffer..buffer + total] == data[offset..offset + total]
        invariant SameOutside(m, mem[..], buffer, buffer + total)
      {
        ghost var n, done := mem[..], total;
        InsideStep(|data|, offset + total, sizes, k);
        total := ReadNext(i, offset, sizes[k], buffer, total, room, file, data);
        EndStep(|data|, offset, Sum(sizes[..k]), sizes[k]);
        SumStep(sizes, k);
        Compose(m, n, mem[..], buffer, buffer + done, buffer + done, buffer + total, buffer, buffer + total);
        k := k + 1;
      }
      assert sizes[..k] == sizes;
    }

    lemma InsideStep(length: nat, offset: nat, sizes: seq<nat>, k: nat)
      requires k < |sizes| && Inside(length, offset, sizes[k..])
      ensures offset + sizes[k] < ADDRESS_SPACE && Inside(length, End(length, offset + sizes[k]), sizes[k + 1..])
    {
      assert sizes[k..][1..] == sizes[k + 1..];
    }

    lemma Here(m: Bytes, i: nat, file: nat, data: seq<byte>, buffer: nat, room: nat)
      requires Placed(|m|) && i < count && Readable(m, i, file, data, buffer, room)
      ensures buffer + room <= |m|
    {
    }

    /** Puts the entry at a position of the listing into the directory entry; 0 behind the end. */
    method ReadDir(node: nat, index: nat, ghost names: seq<seq<byte>>, ghost lengths: seq<nat>) returns (entry: nat)
      requires Placed(mem.Length) && Made(mem[..], count, names, lengths) && index < ADDRESS_SPACE && count < ADDRESS_SPACE
      requires Terminated(mem[..], devName) && |CString(mem[..], devName)| == 3 && devName + 4 <= direntry
      modifies mem
      ensures entry == if (node == root && index == 0) || 1 <= index <= count then direntry else 0
      ensures node == root && index == 0 ==> CString(mem[..], direntry) == old(CString(mem[..], devName)) && Word(mem[..], direntry + 128) == 0
      ensures 1 <= index <= count ==> CString(mem[..], direntry) == names[index - 1] && Word(mem[..], direntry + 128) == index - 1
      ensures SameOutside(old(mem[..]), mem[..], direntry, direntry + 132)
    {
      hide Word, SameOutside, CString;
      ghost var m := mem[..];
      if node == root && index == 0 {
        var _ := Strcpy(mem, direntry, devName);
        ghost var n := mem[..];
        StoreWord(mem, direntry + 128, 0);
        CStringFrame(n, mem[..], direntry, direntry + 128, direntry + 132);
        Compose(m, n, mem[..], direntry, direntry + 4, direntry + 128, direntry + 132, direntry, direntry + 132);
        return direntry;
      }
      if W32(index - 1) >= count {
        Unchanged(m, direntry, direntry + 132);
        return 0;
      }
      ListFile(index - 1, names, lengths);
      entry := direntry;
    }

    /** Copies the name and the number of file `i` into the directory entry. */
    method ListFile(i: nat, ghost names: seq<seq<byte>>, ghost lengths: seq<nat>)
      requires Placed(mem.Length) && Made(mem[..], count, names, lengths) && i < count < ADDRESS_SPACE
      modifies mem
      ensures CString(mem[..], direntry) == names[i] && Word(mem[..], direntry + 128) == i
      ensures SameOutside(old(mem[..]), mem[..], direntry, direntry + 132)
    {
      hide Word, SameOutside, CString;
      ghost var m := mem[..];
      InTable(i);
      assert NodeOf(m, i, names[i], lengths[i]);
      var _ := Strcpy(mem, direntry, Node(i));
      ghost var n := mem[..];
      WordFrame(m, n, Node(i) + 144, direntry, direntry + |names[i]| + 1);
      var inode := LoadWord(mem, Node(i) + 144);
      StoreWord(mem, direntry + 128, inode);
      CStringFrame(n, mem[..], direntry, direntry + 128, direntry + 132);
      Compose(m, n, mem[..], direntry, direntry + |names[i]| + 1, direntry + 128, direntry + 132, direntry, direntry + 132);
    }

    /** The node with this name: /dev in the root directory, else the first file so named, else 0. */
    method FindDir(node: nat, name: nat, ghost names: seq<seq<byte>>, ghost lengths: seq<nat>) returns (r: nat)
      requires Placed(mem.Length) && Made(mem[..], count, names, lengths)
      requires Terminated(mem[..], name) && Terminated(mem[..], devName)
      ensures node == root && CString(mem[..], name) == CString(mem[..], devName) ==> r == dev
      ensures !(node == root && CString(mem[..], name) == CString(mem[..], devName)) ==>
                if CString(mem[..], name) in names then
                  exists i: nat :: i < count && r == Node(i) && names[i] == CString(mem[..], name) && CString(mem[..], name) !in names[..i]
                else r == 0
    {
      hide Word, CString;
      ghost var wanted := CString(mem[..], name);
      if node == root {
        var c := Strcmp(mem, name, devName);
        if c == 0 {
          return dev;
        }
      }
      var i := 0;
      while i < count
        invariant 0 <= i <= count && wanted !in names[..i]
      {
        assert NodeOf(mem[..], i, names[i], lengths[i]);
        var c := Strcmp(mem, name, Node(i));
        if c == 0 {
          return Node(i);
        }
        i := i + 1;
      }
      assert names[..count] == names;
      r := 0;
    }

    /** Writing the directory entry leaves the nodes as they were. */
    lemma EntryFrame(m: Bytes, n: Bytes, names: seq<seq<byte>>, lengths: seq<nat>)
      requires Placed(|m|) && Made(m, count, names, lengths) && SameOutside(m, n, direntry, direntry + 132)
      ensures Made(n, count, names, lengths)
    {
      hide Word, CString;
      assert |n| == |m|;
      hide SameOutside;
      forall j | 0 <= j < count ensures NodeOf(n, j, names[j], lengths[j]) {
        InTable(j);
        assert NodeOf(m, j, names[j], lengths[j]);
        CStringFrame(m, n, Node(j), direntry, direntry + 132);
        WordFrame(m, n, Node(j) + 140, direntry, direntry + 132);
        WordFrame(m, n, Node(j) + 144, direntry, direntry + 132);
        WordFrame(m, n, Node(j) + 148, direntry, direntry + 132);
        forall k | 0 <= k < FIELDS ensures Word(n, FieldAddr(Node(j), k)) == Word(m, FieldAddr(Node(j), k)) {
          WordFrame(m, n, FieldAddr(Node(j), k), direntry, direntry + 132);
        }
      }
    }

    lemma ShortName(m: Bytes, i: nat, names: seq<seq<byte>>, lengths: seq<nat>)
      requires Placed(|m|) && Made(m, count, names, lengths) && i < count
      ensures |names| == count && names[i] in names && direntry + |names[i]| < |m|
    {
      hide Word, CString;
      assert NodeOf(m, i, names[i], lengths[i]);
    }

    /** The name listed at position `i + 1` is found again: with names of its own, at node `i`. */
    method ListThenFind(node: nat, i: nat, ghost names: seq<seq<byte>>, ghost lengths: seq<nat>) returns (r: nat)
      requires Placed(mem.Length) && Made(mem[..], count, names, lengths) && i < count < ADDRESS_SPACE - 1
      requires Terminated(mem[..], devName) && |CString(mem[..], devName)| == 3 && devName + 4 <= direntry
      requires forall j :: 0 <= j < count && j != i ==> names[j] != names[i]
      modifies mem
      ensures r == if node == root && names[i] == old(CString(mem[..], devName)) then dev else Node(i)
      ensures Made(mem[..], count, names, lengths)
      ensures SameOutside(old(mem[..]), mem[..], direntry, direntry + 132)
    {
      hide Word, CString, SameOutside, Made, Node;
      ghost var m := mem[..];
      ShortName(m, i, names, lengths);
      var entry := ReadDir(node, i + 1, names, lengths);
      EntryFrame(m, mem[..], names, lengths);
      CStringFrame(m, mem[..], devName, direntry, direntry + 132);
      r := FindDir(node, entry, names, lengths);
    }
  }
}
