/** C strings in byte memory: strcmp and strcpy (libc/string/strcmp.cpp, libc/string/strcpy.cpp). */
module Strings {
  import opened Memory

  /** The characters from `p` up to the terminator. */
  function CString(m: Bytes, p: nat): seq<byte>
    decreases |m| - p
  {
    if p < |m| && m[p] != 0 then [m[p]] + CString(m, p + 1) else []
  }

  /** There is a terminator at or after `p`. */
  predicate Terminated(m: Bytes, p: nat) {
    p + |CString(m, p)| < |m|
  }

  lemma {:induction false} CStringAt(m: Bytes, p: nat)
    ensures p <= |m| ==> p + |CString(m, p)| <= |m|
    ensures var s := CString(m, p);
            forall i {:trigger s[i]} :: 0 <= i < |s| ==> p + i < |m| && m[p + i] == s[i] && s[i] != 0
    ensures p + |CString(m, p)| < |m| ==> m[p + |CString(m, p)|] == 0
    decreases |m| - p
  {
    if p < |m| && m[p] != 0 {
      CStringAt(m, p + 1);
      var s := CString(m, p);
      var t := CString(m, p + 1);
      assert s == [m[p]] + t;
      forall i | 0 <= i < |s| ensures p + i < |m| && m[p + i] == s[i] && s[i] != 0 {
        assert i > 0 ==> s[i] == t[i - 1];
      }
    }
  }

  /** The first zero at or after the start of a string is its terminator. */
  lemma OnlyZero(m: Bytes, p: nat, q: nat)
    requires Terminated(m, p) && p <= q <= p + |CString(m, p)| && m[q] == 0
    ensures q == p + |CString(m, p)|
  {
    if q < p + |CString(m, p)| {
      NoZeroInside(m, p, q - p);
    }
  }

  lemma NoZeroInside(m: Bytes, p: nat, i: nat)
    requires i < |CString(m, p)|
    ensures p + i < |m| && m[p + i] != 0
  {
    CStringAt(m, p);
    assert CString(m, p)[i] != 0;
  }

  /** A string is what lies before its first zero. */
  lemma {:induction false} CStringIs(m: Bytes, p: nat, s: seq<byte>)
    requires p + |s| < |m| && m[p + |s|] == 0
    requires forall i :: 0 <= i < |s| ==> m[p + i] == s[i] && s[i] != 0
    ensures CString(m, p) == s
    decreases |s|
  {
    if s != [] {
      CStringIs(m, p + 1, s[1..]);
      assert s == [s[0]] + s[1..];
    }
  }

  lemma CStringFrame(m: Bytes, n: Bytes, p: nat, lo: nat, hi: nat)
    requires SameOutside(m, n, lo, hi) && Terminated(m, p)
    requires hi <= p || p + |CString(m, p)| < lo
    ensures CString(n, p) == CString(m, p)
  {
    CStringAt(m, p);
    CStringIs(n, p, CString(m, p));
  }

  /** The first string comes before the second in the order of their bytes. */
  predicate Before(x: seq<byte>, y: seq<byte>) {
    y != [] && (x == [] || x[0] < y[0] || (x[0] == y[0] && Before(x[1..], y[1..])))
  }

  /** It comes before exactly if the second goes on, or has the greater byte, where the two first differ. */
  lemma {:induction false} BeforeExact(x: seq<byte>, y: seq<byte>)
    ensures Before(x, y) <==> exists k: nat :: DiffersAt(x, y, k) && k < |y| && (k == |x| || x[k] < y[k])
  {
    if y != [] && x != [] && x[0] == y[0] {
      BeforeExact(x[1..], y[1..]);
      if Before(x, y) {
        var k: nat :| DiffersAt(x[1..], y[1..], k) && k < |y[1..]| && (k == |x[1..]| || x[1..][k] < y[1..][k]);
        assert x[..k + 1] == [x[0]] + x[1..][..k] && y[..k + 1] == [y[0]] + y[1..][..k];
        assert DiffersAt(x, y, k + 1);
      }
      if exists k: nat :: DiffersAt(x, y, k) && k < |y| && (k == |x| || x[k] < y[k]) {
        var k: nat :| DiffersAt(x, y, k) && k < |y| && (k == |x| || x[k] < y[k]);
        assert x[1..][..k - 1] == x[..k][1..] && y[1..][..k - 1] == y[..k][1..];
        assert DiffersAt(x[1..], y[1..], k - 1);
      }
    } else if Before(x, y) {
      assert DiffersAt(x, y, 0);
    }
  }

  /** The strings agree up to `k`, and no further. */
  predicate DiffersAt(x: seq<byte>, y: seq<byte>, k: nat) {
    && k <= |x| && k <= |y| && x[..k] == y[..k]
    && (k < |x| && k < |y| ==> x[k] != y[k])
  }

  /** Zero for equal strings, otherwise the sign tells which comes first. */
  method Strcmp(mem: array<byte>, x: nat, y: nat) returns (r: int)
    requires Terminated(mem[..], x) && Terminated(mem[..], y)
    ensures r == 0 <==> CString(mem[..], x) == CString(mem[..], y)
    ensures r < 0 <==> Before(CString(mem[..], x), CString(mem[..], y))
  {
    ghost var m := mem[..];
    CStringAt(m, x);
    CStringAt(m, y);
    var a: nat, b: nat := x, y;
    while mem[a] != 0
      invariant a < |m| && b < |m| && Terminated(m, a) && Terminated(m, b)
      invariant CString(m, x) == CString(m, y) <==> CString(m, a) == CString(m, b)
      invariant Before(CString(m, x), CString(m, y)) <==> Before(CString(m, a), CString(m, b))
      decreases |m| - a
    {
      if mem[a] != mem[b] {
        break;
      }
      assert CString(m, a)[1..] == CString(m, a + 1) && CString(m, b)[1..] == CString(m, b + 1);
      a := a + 1;
      b := b + 1;
    }
    r := mem[a] as int - mem[b] as int;
  }

  /**
   Copies a string, unless the destination is null; the two places may not overlap, and there
   must be room for the terminator.
   */
  method Strcpy(mem: array<byte>, destination: nat, source: nat) returns (result: nat)
    requires Terminated(mem[..], source)
    requires destination != 0 ==>
               var n := |CString(mem[..], source)|;
               destination + n < mem.Length && (destination + n < source || source + n < destination)
    modifies mem
    ensures result == destination
    ensures destination == 0 ==> mem[..] == old(mem[..])
    ensures destination != 0 ==> CString(mem[..], destination) == old(CString(mem[..], source))
    ensures destination != 0 ==>
              SameOutside(old(mem[..]), mem[..], destination, destination + |old(CString(mem[..], source))| + 1)
  {
    if destination == 0 {
      return 0;
    }
    result := destination;
    ghost var m := mem[..];
    ghost var s := CString(m, source);
    CStringAt(m, source);
    var d: nat, p: nat := destination, source;
    while mem[p] != 0
      invariant source <= p <= source + |s| && d - destination == p - source
      invariant forall i :: 0 <= i < p - source ==> mem[destination + i] == s[i]
      invariant forall i :: 0 <= i < mem.Length && !(destination <= i < d) ==> mem[i] == m[i]
      decreases source + |s| - p
    {
      assert mem[p] == m[p] == s[p - source];
      mem[d] := mem[p];
      d := d + 1;
      p := p + 1;
    }
    assert mem[p] == m[p];
    OnlyZero(m, source, p);
    mem[d] := 0;
    forall i | 0 <= i < |s| ensures mem[..][destination + i] == s[i] && s[i] != 0 {
      assert s[i] == m[source + i];
    }
    CStringIs(mem[..], destination, s);
  }
}
