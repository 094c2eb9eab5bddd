/**
 The physical frame bitmap and the frames of pages (kernel/paging.cpp:18-99).  The words of
 the bitmap are 32-bit vectors; `Used` is the set they stand for.
 */
module Frames {
  import opened Memory

  // ----- Bits of a word

  function Mask(j: nat): bv32
    requires j < 32
  {
    1 << j
  }

  predicate Hit(w: bv32, mask: bv32) {
    w & mask != 0
  }

  predicate Apart(a: bv32, b: bv32) {
    a & b == 0
  }

  function Plus(w: bv32, mask: bv32): bv32 {
    w | mask
  }

  function Minus(w: bv32, mask: bv32): bv32 {
    w & !mask
  }

  predicate TestBit(w: bv32, j: nat)
    requires j < 32
  {
    Hit(w, Mask(j))
  }

  /** Frame 0 has the lowest bit of a word, and every next frame the next higher one. */
  lemma MaskSteps(j: nat)
    requires j < 31
    ensures Mask(0) == 1 && Mask(j + 1) == Mask(j) << 1
  {
  }

  lemma Masks(j: nat, k: nat)
    requires j < 32 && k < 32
    ensures Mask(j) != 0 && (j != k ==> Apart(Mask(j), Mask(k)))
  {
  }

  lemma PlusOther(w: bv32, a: bv32, b: bv32)
    requires a & b == 0
    ensures (w | a) & b == w & b
  {
    assert (w | a) & b == (w & b) | (a & b);
  }

  lemma MinusOther(w: bv32, a: bv32, b: bv32)
    requires a & b == 0
    ensures (w & !a) & b == w & b
  {
  }

  lemma PlusHit(w: bv32, a: bv32, b: bv32)
    requires a & b == 0
    ensures Hit(w | a, b) == Hit(w, b)
  {
    PlusOther(w, a, b);
  }

  lemma MinusHit(w: bv32, a: bv32, b: bv32)
    requires a & b == 0
    ensures Hit(w & !a, b) == Hit(w, b)
  {
    MinusOther(w, a, b);
  }

  lemma HitOwn(w: bv32, a: bv32)
    requires a != 0
    ensures Hit(w | a, a) && !Hit(w & !a, a)
  {
    assert (w | a) & a == a;
    assert (w & !a) & a == 0;
  }

  lemma PlusApart(w: bv32, a: bv32, b: bv32)
    requires Apart(a, b)
    ensures Hit(Plus(w, a), b) == Hit(w, b)
  {
    PlusHit(w, a, b);
    hide Hit;
  }

  lemma MinusApart(w: bv32, a: bv32, b: bv32)
    requires Apart(a, b)
    ensures Hit(Minus(w, a), b) == Hit(w, b)
  {
    MinusHit(w, a, b);
    hide Hit;
  }

  lemma OwnBit(w: bv32, a: bv32)
    requires a != 0
    ensures Hit(Plus(w, a), a) && !Hit(Minus(w, a), a)
  {
    hide Hit;
    HitOwn(w, a);
  }

  /** Setting or clearing one bit of a word changes that bit and no other. */
  lemma OneBit(w: bv32, j: nat, k: nat)
    requires j < 32 && k < 32
    ensures TestBit(Plus(w, Mask(j)), k) <==> k == j || TestBit(w, k)
    ensures TestBit(Minus(w, Mask(j)), k) <==> k != j && TestBit(w, k)
  {
    hide Mask, Minus, Plus, Apart, Hit;
    Masks(j, k);
    if j != k {
      PlusApart(w, Mask(j), Mask(k));
      MinusApart(w, Mask(j), Mask(k));
    } else {
      OwnBit(w, Mask(j));
    }
  }

  lemma FullHit(a: bv32)
    requires a != 0
    ensures Hit(0xFFFF_FFFF, a)
  {
    assert 0xFFFF_FFFF & a == a;
  }

  lemma FullWord(j: nat)
    requires j < 32
    ensures TestBit(0xFFFF_FFFF, j)
  {
    Masks(j, j);
    FullHit(Mask(j));
    hide Mask, Hit;
  }

  /** A page table entry (section 4.3 of the Intel SDM, Volume 3A). */
  datatype Page = Page(present: bool, readWrite: bool, user: bool, accessed: bool, dirty: bool, frame: nat)

  const EMPTY: Page := Page(false, false, false, false, false, 0)

  /** The frames whose bit is set in a bitmap. */
  ghost function UsedIn(words: seq<bv32>): set<nat> {
    set f | 0 <= f < 32 * |words| && TestBit(words[f / 32], f % 32)
  }

  lemma SetInBitmap(words: seq<bv32>, f: nat)
    requires f < 32 * |words|
    ensures UsedIn(words[f / 32 := Plus(words[f / 32], Mask(f % 32))]) == UsedIn(words) + {f}
  {
    var after := words[f / 32 := Plus(words[f / 32], Mask(f % 32))];
    hide Mask, Hit, Plus, Minus;
    forall g | 0 <= g < 32 * |words|
      ensures TestBit(after[g / 32], g % 32) <==> g == f || TestBit(words[g / 32], g % 32)
    {
      OneBit(words[f / 32], f % 32, g % 32);
    }
  }

  lemma ClearInBitmap(words: seq<bv32>, f: nat)
    requires f < 32 * |words|
    ensures UsedIn(words[f / 32 := Minus(words[f / 32], Mask(f % 32))]) == UsedIn(words) - {f}
  {
    var after := words[f / 32 := Minus(words[f / 32], Mask(f % 32))];
    hide Mask, Hit, Plus, Minus;
    forall g | 0 <= g < 32 * |words|
      ensures TestBit(after[g / 32], g % 32) <==> g != f && TestBit(words[g / 32], g % 32)
    {
      OneBit(words[f / 32], f % 32, g % 32);
    }
  }

  /** Two pages have the same frame, frame 0 standing for none. */
  predicate SameFrame(t: array<Page>, i: int, u: array<Page>, j: int)
    reads t, u
  {
    0 <= i < t.Length && 0 <= j < u.Length && t[i].frame != 0 && t[i].frame == u[j].frame
  }

  /** The frames in use after a page has given its frame back; frame 0 is none. */
  ghost function FreedMeant(used: set<nat>, frame: nat): set<nat> {
    if frame == 0 then used else used - {frame}
  }

  /** The same with the frame number passed where an address is expected, as the text has it. */
  ghost function FreedAsWritten(used: set<nat>, frame: nat): set<nat> {
    if frame == 0 then used else used - {frame / PAGE}
  }

  class FrameBitmap {
    const frames: array<bv32>

    ghost function Used(): set<nat>
      reads frames
    {
      UsedIn(frames[..])
    }

    /** The number of frames the bitmap can describe. */
    function Capacity(): nat {
      32 * frames.Length
    }

    constructor (nframes: nat)
      ensures fresh(frames) && frames.Length == nframes / 32 && Used() == {}
    {
      frames := new bv32[nframes / 32](_ => 0);
    }

    method SetFrame(addr: nat)
      requires addr / PAGE < Capacity()
      modifies frames
      ensures Used() == old(Used()) + {addr / PAGE}
    {
      var frame := addr / PAGE;
      hide Mask, Hit, Plus, TestBit;
      SetInBitmap(frames[..], frame);
      frames[frame / 32] := Plus(frames[frame / 32], Mask(frame % 32));
    }

    method ClearFrame(addr: nat)
      requires addr / PAGE < Capacity()
      modifies frames
      ensures Used() == old(Used()) - {addr / PAGE}
    {
      var frame := addr / PAGE;
      hide Mask, Hit, Minus, TestBit;
      ClearInBitmap(frames[..], frame);
      frames[frame / 32] := Minus(frames[frame / 32], Mask(frame % 32));
    }

    method TestFrame(addr: nat) returns (used: bool)
      requires addr / PAGE < Capacity()
      ensures used <==> addr / PAGE in Used()
    {
      var frame := addr / PAGE;
      used := Hit(frames[frame / 32], Mask(frame % 32));
    }

    /** The least free frame; -1 exactly when every frame is used. */
    method FirstFrame() returns (f: int)
      ensures f == -1 || 0 <= f < Capacity()
      ensures f >= 0 ==> f !in Used() && forall g :: 0 <= g < f ==> g in Used()
      ensures f == -1 ==> forall g :: 0 <= g < Capacity() ==> g in Used()
    {
      hide Mask, Hit;
      var i := 0;
      while i < frames.Length
        invariant 0 <= i <= frames.Length
        invariant forall g :: 0 <= g < 32 * i ==> TestBit(frames[g / 32], g % 32)
      {
        if frames[i] != 0xFFFF_FFFF {
          var j := 0;
          while j < 32
            invariant 0 <= j <= 32
            invariant forall g :: 32 * i <= g < 32 * i + j ==> TestBit(frames[g / 32], g % 32)
          {
            if !Hit(frames[i], Mask(j)) {
              return i * 4 * 8 + j;
            }
            j := j + 1;
          }
        } else {
          forall g | 32 * i <= g < 32 * i + 32 ensures TestBit(frames[g / 32], g % 32) {
            FullWord(g % 32);
          }
        }
        i := i + 1;
      }
      f := -1;
    }

    /** The search as written: without a free frame, whatever the result register holds. */
    method FirstFrameAsWritten(eax: nat) returns (f: nat)
      ensures f < Capacity() && f !in Used() <==> exists g :: 0 <= g < Capacity() && g !in Used()
      ensures f < Capacity() && f !in Used() ==> forall g :: 0 <= g < f ==> g in Used()
      ensures (forall g :: 0 <= g < Capacity() ==> g in Used()) ==> f == eax
    {
      var r := FirstFrame();
      f := if r == -1 then eax else r;
    }

    /** No non-zero frame belongs to two pages of these tables, and all of them are in use. */
    ghost predicate Owned(tables: set<array<Page>>)
      reads frames, tables
    {
      && (forall t :: t in tables ==> t as object != frames as object)
      && (forall t, i :: t in tables && 0 <= i < t.Length && t[i].frame != 0 ==> t[i].frame in Used())
      && (forall t, i, u, j :: t in tables && u in tables && SameFrame(t, i, u, j) ==> t == u && i == j)
    }

    /**
     Gives the page a frame unless it has one; false stands for the kernel hanging because
     there is none.
     */
    method AllocFrame(t: array<Page>, i: nat, isKernel: bool, isWritable: bool, ghost tables: set<array<Page>>)
      returns (ok: bool)
      requires i < t.Length && t as object != frames as object
      modifies frames, t
      ensures forall k :: 0 <= k < t.Length && k != i ==> t[k] == old(t[k])
      ensures old(t[i].frame) != 0 ==> ok && t[i] == old(t[i]) && Used() == old(Used())
      ensures old(t[i].frame) == 0 && !ok ==> t[i] == old(t[i]) && Used() == old(Used())
      ensures !ok ==> forall g :: 0 <= g < Capacity() ==> g in Used()
      ensures old(t[i].frame) == 0 && ok ==>
                var f := t[i].frame;
                && t[i] == old(t[i]).(present := true, readWrite := isWritable, user := !isKernel, frame := f)
                && f !in old(Used()) && Used() == old(Used()) + {f} && f < Capacity()
                && forall g :: 0 <= g < f ==> g in old(Used())
      ensures t in tables && old(Owned(tables)) ==> Owned(tables)
    {
      if t[i].frame != 0 {
        return true;
      }
      var idx := FirstFrame();
      if idx == -1 {
        return false;
      }
      SetFrame(idx * PAGE);
      t[i] := t[i].(present := true, readWrite := isWritable, user := !isKernel, frame := idx);
      ok := true;
      if t in tables && old(Owned(tables)) {
        forall u, k, v, l | u in tables && v in tables && SameFrame(u, k, v, l) ensures u == v && k == l {
          assert (u == t && k == i) || (v == t && l == i) || old(SameFrame(u, k, v, l));
        }
      }
    }

    /** Takes the page's frame away, if it has one; it can then be allocated again. */
    method FreeFrame(t: array<Page>, i: nat, ghost tables: set<array<Page>>)
      requires i < t.Length && t in tables && Owned(tables)
      requires t[i].frame < Capacity()
      modifies frames, t
      ensures forall k :: 0 <= k < t.Length && k != i ==> t[k] == old(t[k])
      ensures t[i] == old(t[i]).(frame := 0)
      ensures Used() == FreedMeant(old(Used()), old(t[i].frame))
      ensures Used() == old(Used()) - (if old(t[i].frame) == 0 then {} else {old(t[i].frame)})
      ensures Owned(tables)
    {
      var frame := t[i].frame;
      if frame == 0 {
        return;
      }
      OnlyOwner(t, i, tables);
      ClearFrame(frame * PAGE);
      t[i] := t[i].(frame := 0);
      forall u, k, v, l | u in tables && v in tables && SameFrame(u, k, v, l) ensures u == v && k == l {
        assert old(SameFrame(u, k, v, l));
      }
    }

    /** In a well-owned set of tables a page is the only one with its frame. */
    lemma OnlyOwner(t: array<Page>, i: nat, tables: set<array<Page>>)
      requires Owned(tables) && t in tables && i < t.Length && t[i].frame != 0
      ensures forall u, j :: u in tables && 0 <= j < u.Length && u[j].frame == t[i].frame ==> u == t && j == i
    {
      forall u, j | u in tables && 0 <= j < u.Length && u[j].frame == t[i].frame ensures u == t && j == i {
        assert SameFrame(t, i, u, j);
      }
    }

    /** The same with the frame number passed where an address is expected, as the text has it. */
    method FreeFrameAsWritten(t: array<Page>, i: nat)
      requires i < t.Length && t[i].frame < Capacity() && t as object != frames as object
      modifies frames, t
      ensures forall k :: 0 <= k < t.Length && k != i ==> t[k] == old(t[k])
      ensures t[i] == old(t[i]).(frame := 0)
      ensures Used() == FreedAsWritten(old(Used()), old(t[i].frame))
      ensures Used() == old(Used()) - (if old(t[i].frame) == 0 then {} else {old(t[i].frame) / 0x1000})
    {
      var frame := t[i].frame;
      if frame == 0 {
        return;
      }
      ClearFrame(frame);
      t[i] := t[i].(frame := 0);
    }
  }

  /** What the text frees is what is meant exactly for a page without a frame, and where neither frame is in use. */
  lemma FreeFrameExact(used: set<nat>, frame: nat)
    ensures FreedAsWritten(used, frame) == FreedMeant(used, frame) <==> frame == 0 || (frame !in used && frame / PAGE !in used)
  {
    if frame != 0 && frame in used {
      assert frame in FreedAsWritten(used, frame) && frame !in FreedMeant(used, frame);
    }
    if frame != 0 && frame / PAGE in used {
      assert frame / PAGE in FreedMeant(used, frame) && frame / PAGE !in FreedAsWritten(used, frame);
    }
  }

  /** Freeing frame 5 as written leaves it in use, and takes frame 0 out of use. */
  lemma FreeFrameFails()
    ensures FreedAsWritten({0, 5}, 5) == {5} && FreedMeant({0, 5}, 5) == {0}
  {
  }

  /** The words the bitmap gets as written hold only a quarter of its bits. */
  lemma BitmapSizeExact(nframes: nat, frame: nat)
    requires nframes % 32 == 0 && frame < nframes
    ensures 4 * (frame / 32) + 4 <= nframes / 32 <==> frame < nframes / 128 * 32
  {
  }

  /** Of the kernel's 4096 frames, the bits of frame 1024 lie behind the 128 bytes. */
  lemma BitmapSizeFails()
    ensures !(4 * (1024 / 32) + 4 <= 4096 / 32)
  {
  }
}
