/**
 The kernel's printf (libc/stdio/stdio.cpp:10-83), a subset of section 7.21.6.1 of C11.  The
 method prints chunk by chunk; `Meaning` says character by character what a format stands for.
 */
module Printf {

  const INT_MAX: int := 0x7FFF_FFFF

  datatype Arg = CharArg(c: char) | StringArg(s: string)

  /** The character at a position of a C string; the terminator at and after its end. */
  function At(s: string, i: nat): char {
    if i < |s| then s[i] else '\0'
  }

  predicate IsDirective(f: string, c: char) {
    |f| > 1 && f[0] == '%' && f[1] == c
  }

  /** The arguments are the ones the directives ask for; anything else is undefined behaviour. */
  predicate Matches(f: string, args: seq<Arg>) {
    if f == "" then true
    else if f[0] != '%' then Matches(f[1..], args)
    else if IsDirective(f, '%') then Matches(f[2..], args)
    else if IsDirective(f, 'c') then |args| > 0 && args[0].CharArg? && Matches(f[2..], args[1..])
    else if IsDirective(f, 's') then |args| > 0 && args[0].StringArg? && '\0' !in args[0].s && Matches(f[2..], args[1..])
    else true
  }

  /** What a format with its arguments prints. */
  function Meaning(f: string, args: seq<Arg>): string
    requires Matches(f, args)
  {
    if f == "" then ""
    else if f[0] != '%' then [f[0]] + Meaning(f[1..], args)
    else if IsDirective(f, '%') then "%" + Meaning(f[2..], args)
    else if IsDirective(f, 'c') then [args[0].c] + Meaning(f[2..], args[1..])
    else if IsDirective(f, 's') then args[0].s + Meaning(f[2..], args[1..])
    else f
  }

  lemma {:induction false} PlainStep(f: string, args: seq<Arg>)
    requires f != "" && f[0] != '%' && Matches(f, args)
    ensures Matches(f[1..], args) && Meaning(f, args) == [f[0]] + Meaning(f[1..], args)
  {
  }

  lemma {:induction false} PercentStep(f: string, args: seq<Arg>)
    requires IsDirective(f, '%') && Matches(f, args)
    ensures Matches(f[2..], args) && Meaning(f, args) == "%" + Meaning(f[2..], args)
  {
  }

  /** Text without directives means itself. */
  lemma {:induction false} PlainRun(f: string, n: nat, args: seq<Arg>)
    requires n <= |f| && '%' !in f[0..n] && Matches(f, args)
    ensures Matches(f[n..], args) && Meaning(f, args) == f[0..n] + Meaning(f[n..], args)
  {
    hide Matches, Meaning;
    if n > 0 {
      PlainStep(f, args);
      FirstOf(f, 0, n);
      Nested(f, 1, n - 1);
      PlainRun(f[1..], n - 1, args);
    } else {
      assert f[0..] == f;
    }
  }

  /** The same when the run starts with the second character of `%%`. */
  lemma {:induction false} PercentRun(f: string, n: nat, args: seq<Arg>)
    requires 1 <= n <= |f| - 1 && IsDirective(f, '%') && Matches(f, args)
    requires '%' !in f[2..n + 1]
    ensures Matches(f[n + 1..], args) && Meaning(f, args) == f[1..n + 1] + Meaning(f[n + 1..], args)
  {
    hide Matches, Meaning;
    PercentStep(f, args);
    Nested(f, 2, n - 1);
    PlainRun(f[2..], n - 1, args);
    FirstOf(f, 1, n + 1);
  }

  lemma Nested(f: string, k: nat, n: nat)
    requires k + n <= |f|
    ensures f[k..][0..n] == f[k..k + n] && f[k..][n..] == f[k + n..]
  {
  }

  lemma FirstOf(f: string, i: nat, j: nat)
    requires i < j <= |f|
    ensures f[i..j] == [f[i]] + f[i + 1..j]
  {
  }

  // The same three facts by position in the format.

  lemma {:induction false} TextAt(format: string, pos: nat, amount: nat, args: seq<Arg>)
    requires pos < |format| && 1 <= amount <= |format| - pos && format[pos] != '%'
    requires '%' !in format[pos + 1..pos + amount] && Matches(format[pos..], args)
    ensures Matches(format[pos + amount..], args)
    ensures Meaning(format[pos..], args) == format[pos..pos + amount] + Meaning(format[pos + amount..], args)
  {
    var f := format[pos..];
    assert f[0..amount] == format[pos..pos + amount] == [format[pos]] + format[pos + 1..pos + amount];
    PlainRun(f, amount, args);
    assert f[amount..] == format[pos + amount..];
  }

  lemma {:induction false} PercentAt(format: string, pos: nat, amount: nat, args: seq<Arg>)
    requires pos + 1 < |format| && 1 <= amount <= |format| - pos - 1 && format[pos] == format[pos + 1] == '%'
    requires '%' !in format[pos + 2..pos + 1 + amount] && Matches(format[pos..], args)
    ensures Matches(format[pos + 1 + amount..], args)
    ensures Meaning(format[pos..], args) == format[pos + 1..pos + 1 + amount] + Meaning(format[pos + 1 + amount..], args)
  {
    var f := format[pos..];
    assert f[2..amount + 1] == format[pos + 2..pos + 1 + amount];
    assert f[1..amount + 1] == format[pos + 1..pos + 1 + amount];
    PercentRun(f, amount, args);
    assert f[amount + 1..] == format[pos + 1 + amount..];
  }

  lemma {:induction false} ArgAt(format: string, pos: nat, args: seq<Arg>, next: nat)
    requires pos + 1 < |format| && format[pos] == '%' && (format[pos + 1] == 'c' || format[pos + 1] == 's')
    requires next <= |args| && Matches(format[pos..], args[next..])
    ensures next < |args| && (if format[pos + 1] == 'c' then args[next].CharArg? else args[next].StringArg?)
    ensures Matches(format[pos + 2..], args[next + 1..])
    ensures Meaning(format[pos..], args[next..])
            == (if args[next].CharArg? then [args[next].c] else args[next].s) + Meaning(format[pos + 2..], args[next + 1..])
  {
    assert format[pos..][2..] == format[pos + 2..];
    assert args[next..] != [] && args[next..][1..] == args[next + 1..];
  }

  lemma {:induction false} UnknownAt(format: string, pos: nat, args: seq<Arg>)
    requires pos < |format| && format[pos] == '%' && At(format, pos + 1) !in {'%', 'c', 's'}
    requires Matches(format[pos..], args)
    ensures Matches(format[|format|..], args)
    ensures Meaning(format[pos..], args) == format[pos..] + Meaning(format[|format|..], args)
  {
    assert format[|format|..] == "";
    assert format[pos..] + "" == format[pos..];
  }

  class Printer {
    var output: string

    constructor ()
      ensures output == ""
    {
      output := "";
    }

    method PutChar(c: char)
      modifies this
      ensures output == old(output) + [c]
    {
      output := output + [c];
    }

    method Print(data: string)
      modifies this
      ensures output == old(output) + data
    {
      var i := 0;
      while i < |data|
        invariant 0 <= i <= |data| && output == old(output) + data[..i]
      {
        PutChar(data[i]);
        i := i + 1;
      }
    }

    /** The length of the text from `pos` up to the next percent sign, not counting the first character. */
    method Amount(format: string, pos: nat) returns (amount: nat)
      requires pos < |format| && '\0' !in format
      ensures 1 <= amount <= |format| - pos && '%' !in format[pos + 1..pos + amount]
      ensures At(format, pos + amount) == '\0' || At(format, pos + amount) == '%'
    {
      amount := 1;
      while At(format, pos + amount) != '\0' && At(format, pos + amount) != '%'
        invariant 1 <= amount <= |format| - pos && '%' !in format[pos + 1..pos + amount]
        decreases |format| - pos - amount
      {
        amount := amount + 1;
      }
    }

    /** Prints the next piece of `all`, unless the count would no longer fit into an int. */
    method Emit(piece: string, written: int, ghost all: string, ghost before: string, ghost rest: string) returns (count: int)
      requires 0 <= written <= INT_MAX && written <= |all| && output == before + all[..written]
      requires all[written..] == piece + rest
      modifies this
      ensures count == -1 || count == written + |piece| <= INT_MAX
      ensures count == -1 ==> |all| > INT_MAX && output == before + all[..written]
      ensures count != -1 ==> count <= |all| && output == before + all[..count] && all[count..] == rest
    {
      ghost var k := written + |piece|;
      assert |all| - written == |piece| + |rest|;
      assert all[written..][|piece|..] == all[k..] && all[..k] == all[..written] + all[written..][..|piece|];
      if INT_MAX - written < |piece| {
        return -1;
      }
      Print(piece);
      count := written + |piece|;
    }

    /**
     Prints what the format means and returns its length, unless that is more than an int can
     hold: then the result is -1 and what has been printed is a beginning of it.
     */
    method Printf(format: string, args: seq<Arg>) returns (written: int)
      requires '\0' !in format && Matches(format, args)
      modifies this
      ensures |Meaning(format, args)| <= 0x7FFF_FFFF ==>
                written == |Meaning(format, args)| && output == old(output) + Meaning(format, args)
      ensures |Meaning(format, args)| > 0x7FFF_FFFF ==> written == -1 && Printed(old(output), Meaning(format, args))
    {
      hide Matches, Meaning;
      ghost var all := Meaning(format, args);
      var pos, next := 0, 0;
      written := 0;
      assert format[0..] == format && args[0..] == args && output == output + all[..0];
      while pos < |format|
        invariant 0 <= pos <= |format| && next <= |args| && Matches(format[pos..], args[next..])
        invariant 0 <= written <= INT_MAX && written <= |all| && output == old(output) + all[..written]
        invariant all[written..] == Meaning(format[pos..], args[next..])
      {
        var piece, after := [], next;
        if format[pos] != '%' || At(format, pos + 1) == '%' {
          ghost var from := pos;
          if format[pos] == '%' {
            pos := pos + 1;
          }
          var amount := Amount(format, pos);
          if from == pos {
            TextAt(format, pos, amount, args[next..]);
          } else {
            PercentAt(format, from, amount, args[next..]);
          }
          piece := format[pos..pos + amount];
          pos := pos + amount;
        } else if At(format, pos + 1) == 'c' {
          ArgAt(format, pos, args, next);
          piece, pos, after := [args[next].c], pos + 2, next + 1;
        } else if At(format, pos + 1) == 's' {
          ArgAt(format, pos, args, next);
          piece, pos, after := args[next].s, pos + 2, next + 1;
        } else {
          UnknownAt(format, pos, args[next..]);
          piece, pos := format[pos..], |format|;
        }
        var count := Emit(piece, written, all, old(output), Meaning(format[pos..], args[after..]));
        if count == -1 {
          assert output == old(output) + all[..written];
          return -1;
        }
        written, next := count, after;
      }
      Ended(format, args, next);
      assert all[..written] == all;
    }

    /** What has been printed is a beginning of `all` that still fits. */
    ghost predicate Printed(before: string, all: string)
      reads this
    {
      exists n :: 0 <= n <= INT_MAX && n <= |all| && output == before + all[..n]
    }
  }

  lemma Ended(format: string, args: seq<Arg>, next: nat)
    requires next <= |args|
    ensures Matches(format[|format|..], args[next..]) && Meaning(format[|format|..], args[next..]) == ""
  {
  }
}
