module Options {
  datatype Option<T> = None | Some(value: T)
}

/** Byte-addressed memory with little-endian 32-bit words. */
module Memory {

  type byte = x: int | 0 <= x < 256
  type Bytes = seq<byte>

  /** One past the last 32-bit address. */
  const ADDRESS_SPACE: nat := 0x1_0000_0000
  const PAGE: nat := 0x1000

  /** A sum or difference as the machine keeps it, in 32 bits. */
  function W32(x: int): (w: nat)
    ensures w < ADDRESS_SPACE
    ensures 0 <= x < ADDRESS_SPACE ==> w == x
  {
    x % ADDRESS_SPACE
  }

  function Word(m: Bytes, a: nat): (w: nat)
    requires a + 4 <= |m|
    ensures w < 0x1_0000_0000
  {
    LittleEndian(m[a], m[a + 1], m[a + 2], m[a + 3])
  }

  function LittleEndian(b0: byte, b1: byte, b2: byte, b3: byte): (w: nat)
    ensures w < 0x1_0000_0000
  {
    b0 as int + 0x100 * (b1 as int) + 0x1_0000 * (b2 as int) + 0x100_0000 * (b3 as int)
  }

  lemma Digits(v: nat)
    requires v < 0x1_0000_0000
    ensures v / 0x100_0000 < 0x100
    ensures LittleEndian(v % 0x100, v / 0x100 % 0x100, v / 0x1_0000 % 0x100, v / 0x100_0000) == v
  {
    var q1 := v / 0x100;
    var q2 := q1 / 0x100;
    assert v / 0x1_0000 == q2 && v / 0x100_0000 == q2 / 0x100;
  }

  /** `n` differs from `m` at most on the addresses from `lo` up to `hi`. */
  ghost predicate SameOutside(m: Bytes, n: Bytes, lo: nat, hi: nat) {
    |m| == |n| && forall i :: 0 <= i < |m| && !(lo <= i < hi) ==> n[i] == m[i]
  }

  /** Two changes, one after the other, stay within the two ranges together. */
  lemma Compose(m: Bytes, n: Bytes, o: Bytes, lo: nat, hi: nat, lo': nat, hi': nat, low: nat, high: nat)
    requires SameOutside(m, n, lo, hi) && SameOutside(n, o, lo', hi')
    requires low <= lo && hi <= high && low <= lo' && hi' <= high
    ensures SameOutside(m, o, low, high)
  {
  }

  lemma WordFrame(m: Bytes, n: Bytes, a: nat, lo: nat, hi: nat)
    requires SameOutside(m, n, lo, hi) && a + 4 <= |m| && (a + 4 <= lo || hi <= a)
    ensures Word(n, a) == Word(m, a)
  {
  }

  lemma Unchanged(m: Bytes, lo: nat, hi: nat)
    ensures SameOutside(m, m, lo, hi)
  {
  }

  function PutWord(m: Bytes, a: nat, v: nat): (n: Bytes)
    requires a + 4 <= |m| && v < 0x1_0000_0000
    ensures |n| == |m| && Word(n, a) == v
    ensures SameOutside(m, n, a, a + 4)
  {
    Digits(v);
    m[a := v % 0x100][a + 1 := v / 0x100 % 0x100][a + 2 := v / 0x1_0000 % 0x100][a + 3 := v / 0x100_0000]
  }

  method StoreWord(mem: array<byte>, a: nat, v: nat)
    requires a + 4 <= mem.Length && v < 0x1_0000_0000
    modifies mem
    ensures mem[..] == PutWord(old(mem[..]), a, v)
  {
    Digits(v);
    mem[a] := v % 0x100;
    mem[a + 1] := v / 0x100 % 0x100;
    mem[a + 2] := v / 0x1_0000 % 0x100;
    mem[a + 3] := v / 0x100_0000;
  }

  method LoadWord(mem: array<byte>, a: nat) returns (w: nat)
    requires a + 4 <= mem.Length
    ensures w == Word(mem[..], a)
  {
    w := LittleEndian(mem[a], mem[a + 1], mem[a + 2], mem[a + 3]);
  }

  predicate OnPage(a: nat) {
    a % PAGE == 0
  }

  /** The nearest page boundary at or above `x`. */
  function RoundUp(x: nat): (r: nat)
    ensures OnPage(r) && x <= r < x + PAGE
  {
    if OnPage(x) then x else x - x % PAGE + PAGE
  }

  lemma RoundUpShift(a: nat, x: nat)
    requires OnPage(a)
    ensures RoundUp(a + x) == a + RoundUp(x)
  {
  }

  lemma OnPageShift(a: nat, b: nat)
    requires OnPage(a)
    ensures OnPage(a + b) <==> OnPage(b)
  {
  }

  /** There is no page boundary strictly inside a page. */
  lemma OnPageStep(a: nat, b: nat)
    requires OnPage(a)
    ensures OnPage(a + PAGE)
    ensures a < b && OnPage(b) ==> a + PAGE <= b
  {
  }
}
