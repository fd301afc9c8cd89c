/**
  The minimal printf, whose hexadecimal printer works with shifts, and how it relates to the
  logging printf.
 */
module AltPrintf {
  import B = Bits
  import opened Digits
  import D = Division
  import opened LogPrintf
  import opened Powers

  /** The whole output: `x`, `s`, `c` and `%` are known, any other letter is swallowed. */
  function RenderSmall(fmt: string, args: Args, k: nat): string {
    if fmt == "" || fmt == "%" then ""
    else if fmt[0] != '%' then [fmt[0]] + RenderSmall(fmt[1..], args, k)
    else if fmt[1] == '%' then "%" + RenderSmall(fmt[2..], args, k)
    else if fmt[1] == 'c' then [(Slot(args, k).word % 256) as char] + RenderSmall(fmt[2..], args, k + 1)
    else if fmt[1] == 'x' then Text(Slot(args, k).word, 16, false) + RenderSmall(fmt[2..], args, k + 1)
    else if fmt[1] == 's' then Slot(args, k).text + RenderSmall(fmt[2..], args, k + 1)
    else RenderSmall(fmt[2..], args, k)
  }

  class Console {
    var out: string

    method PutChar(c: char)
      modifies this
      ensures out == old(out) + [c]
    {
      out := out + [c];
    }

    /** The test of the scan: the word masked where the digit is. */
    static method DigitIsZero(v: Word, shift: nat, ghost n: nat) returns (zero: bool)
      requires n < 8 && shift == 4 * n
      ensures zero <==> Digit(v, 16, n) == 0
    {
      B.MaskIsDigit(v, n);
      zero := B.And(v, B.Shl(0xF, shift)) == 0;
    }

    /** The position of the first digit that is not zero. */
    static method FirstDigit(v: Word) returns (shift: nat)
      requires v != 0
      ensures shift % 4 == 0 && shift <= 28 && |Text(v, 16, false)| == shift / 4 + 1
    {
      shift := 28;
      ghost var n := 7;
      WordHasEightDigits();
      var zero := DigitIsZero(v, shift, n);
      while zero
        invariant 0 <= n < 8 && shift == 4 * n && v < Pow(16, n + 1)
        invariant zero <==> Digit(v, 16, n) == 0
        decreases shift
      {
        LowerDigits(v, n);
        assert Pow(16, 0) == 1;
        shift := shift - 4;
        n := n - 1;
        zero := DigitIsZero(v, shift, n);
      }
      LowerDigits(v, n);
      TextLength(v, 16, false, n);
    }

    /** One digit, masked and shifted down. */
    method HexDigit(v: Word, shift: nat, ghost n: nat)
      requires n < 8 && shift == 4 * n
      modifies this
      ensures out + Low(v, 16, n, false) == old(out) + Low(v, 16, n + 1, false)
    {
      B.MaskIsDigit(v, n);
      var digit := B.Shr(B.And(v, B.Shl(0xF, shift)), shift);
      PutChar(if digit <= 9 then ('0' as int + digit) as char else ('a' as int + digit - 10) as char);
      assert out == old(out) + [DigitChar(digit, false)];
      Assoc(old(out), [DigitChar(digit, false)], Low(v, 16, n, false));
    }

    method Hex(v: Word)
      modifies this
      ensures out == old(out) + Text(v, 16, false)
    {
      if v == 0 {
        PutChar('0');
        return;
      }
      var first := FirstDigit(v);
      TextIsLow(v, 16, false);
      var shift: int := first;
      ghost var n: nat := first / 4 + 1;
      while shift >= 0
        invariant n <= 8 && shift == 4 * n - 4
        invariant out + Low(v, 16, n, false) == old(out) + Text(v, 16, false)
        decreases shift
      {
        HexDigit(v, shift, n - 1);
        shift := shift - 4;
        n := n - 1;
      }
    }

    method PutString(s: string)
      modifies this
      ensures out == old(out) + s
    {
      var i := 0;
      while i < |s|
        invariant 0 <= i <= |s| && out == old(out) + s[..i]
      {
        PutChar(s[i]);
        i := i + 1;
        assert s[..i] == s[..i - 1] + [s[i - 1]];
      }
      assert s[..i] == s;
    }

    method Printf(fmt: string, args: Args)
      modifies this
      ensures out == old(out) + RenderSmall(fmt, args, 0)
    {
      var w, k: nat := 0, 0;
      while w < |fmt|
        invariant 0 <= w <= |fmt|
        invariant out + RenderSmall(fmt[w..], args, k) == old(out) + RenderSmall(fmt, args, 0)
      {
        var c := fmt[w];
        ghost var was, rest := out, fmt[w..];
        w := w + 1;
        assert rest[1..] == fmt[w..];
        if c != '%' {
          PutChar(c);
          Assoc(was, [c], RenderSmall(fmt[w..], args, k));
        } else if w == |fmt| {
          assert rest == "%";
          break;
        } else {
          c := fmt[w];
          w := w + 1;
          assert rest[1] == c && rest[2..] == fmt[w..];
          k := Letter(c, args, k);
          Assoc(was, out[|was|..], RenderSmall(fmt[w..], args, k));
        }
      }
    }

    method Letter(c: char, args: Args, k: nat) returns (k': nat)
      modifies this
      ensures c == '%' ==> out == old(out) + "%" && k' == k
      ensures c == 'c' ==> out == old(out) + [(Slot(args, k).word % 256) as char] && k' == k + 1
      ensures c == 'x' ==> out == old(out) + Text(Slot(args, k).word, 16, false) && k' == k + 1
      ensures c == 's' ==> out == old(out) + Slot(args, k).text && k' == k + 1
      ensures c !in "%cxs" ==> out == old(out) && k' == k
    {
      k' := k;
      if c == '%' {
        PutChar(c);
      } else if c == 'c' {
        PutChar((Slot(args, k).word % 256) as char);
        k' := k + 1;
      } else if c == 'x' {
        Hex(Slot(args, k).word);
        k' := k + 1;
      } else if c == 's' {
        PutString(Slot(args, k).text);
        k' := k + 1;
      }
    }
  }

  lemma WordHasEightDigits()
    ensures Pow(16, 8) == WORD
  {
    assert Pow(16, 2) == 256;
    assert Pow(16, 4) == Pow(16, 3) * 16 && Pow(16, 3) == Pow(16, 2) * 16;
    assert Pow(16, 8) == Pow(16, 7) * 16 && Pow(16, 7) == Pow(16, 6) * 16;
    assert Pow(16, 6) == Pow(16, 5) * 16 && Pow(16, 5) == Pow(16, 4) * 16;
  }

  /** Whether the top digit is zero tells which side of its weight the number is on. */
  lemma LowerDigits(v: nat, n: nat)
    requires v < Pow(16, n + 1)
    ensures Digit(v, 16, n) == 0 <==> v < Pow(16, n)
  {
    var p := Pow(16, n);
    D.AtLeast(v, p, 0);
    D.AtLeast(v, p, 1);
    D.AtLeast(v, p, 16);
  }

  /** Every directive in the format is one that both printers know and print without a field. */
  predicate Common(fmt: string) {
    fmt == "" || fmt == "%" ||
    if fmt[0] != '%' then Common(fmt[1..]) else fmt[1] in "cxs%" && Common(fmt[2..])
  }

  lemma PlainField(letter: char, args: Args, k: nat)
    requires letter in "cxs"
    ensures var arg := Slot(args, k);
            Field(letter, false, -1, arg) ==
            if letter == 'c' then [(arg.word % 256) as char]
            else if letter == 'x' then Text(arg.word, 16, false) else arg.text
  {
    var arg := Slot(args, k);
    assert Repeat(' ', -1 - 1) == "" && Repeat(' ', -1 - |arg.text|) == "";
    if letter == 'x' {
      var digits := Text(arg.word, 16, false);
      assert Repeat(' ', -1 - |digits|) == "";
      assert Repeat(' ', -1 - |digits|) + "" + digits == digits;
    }
  }

  /** On such formats the shift-based printer and the logging printer send the same text. */
  lemma {:induction false} SameOutput(fmt: string, args: Args, k: nat)
    requires Common(fmt)
    ensures RenderSmall(fmt, args, k) == Render(fmt, args, k)
    decreases |fmt|
  {
    if fmt == "" || fmt == "%" {
    } else {
      if fmt[0] != '%' {
        SameOutput(fmt[1..], args, k);
      } else {
        var rest, letter := fmt[1..], fmt[1];
        assert rest[1..] == fmt[2..];
        if letter == '%' {
          SameOutput(fmt[2..], args, k);
        } else {
          PlainField(letter, args, k);
          assert Width("") == -1;
          assert RenderDirective(rest, args, k) == RenderModifiers(false, "", rest, args, k);
          SameOutput(fmt[2..], args, k + 1);
        }
      }
    }
  }

  /** The format without the directives that the small printer does not know. */
  function Known(fmt: string): string {
    if fmt == "" || fmt == "%" then ""
    else if fmt[0] != '%' then [fmt[0]] + Known(fmt[1..])
    else if fmt[1] in "cxs%" then ['%', fmt[1]] + Known(fmt[2..])
    else Known(fmt[2..])
  }

  lemma PlainIsRendered(c: char, rest: string, args: Args, k: nat)
    requires c != '%'
    ensures RenderSmall([c] + rest, args, k) == [c] + RenderSmall(rest, args, k)
    ensures Common(rest) ==> Common([c] + rest)
  {
    assert ([c] + rest)[1..] == rest;
  }

  lemma LetterIsRendered(c: char, fmt: string, rest: string, args: Args, k: nat)
    requires |fmt| >= 2 && fmt[0] == '%' && fmt[1] == c && c in "cxs%"
    requires forall n: nat :: RenderSmall(fmt[2..], args, n) == RenderSmall(rest, args, n)
    ensures RenderSmall(['%', c] + rest, args, k) == RenderSmall(fmt, args, k)
    ensures Common(rest) ==> Common(['%', c] + rest)
  {
    var known := ['%', c] + rest;
    assert known[0] == '%' && known[1] == c && known[2..] == rest;
    assert RenderSmall(fmt[2..], args, k) == RenderSmall(rest, args, k);
    assert RenderSmall(fmt[2..], args, k + 1) == RenderSmall(rest, args, k + 1);
  }

  /** Unknown directives print nothing and take no argument: leaving them out changes nothing. */
  lemma {:induction false} UnknownIsSwallowed(fmt: string, args: Args)
    ensures Common(Known(fmt)) && forall k: nat :: RenderSmall(Known(fmt), args, k) == RenderSmall(fmt, args, k)
    decreases |fmt|
  {
    if fmt == "" || fmt == "%" {
    } else if fmt[0] != '%' {
      UnknownIsSwallowed(fmt[1..], args);
      forall k: nat
        ensures RenderSmall(Known(fmt), args, k) == RenderSmall(fmt, args, k)
      {
        PlainIsRendered(fmt[0], Known(fmt[1..]), args, k);
      }
      PlainIsRendered(fmt[0], Known(fmt[1..]), args, 0);
    } else {
      UnknownIsSwallowed(fmt[2..], args);
      if fmt[1] in "cxs%" {
        forall k: nat
          ensures RenderSmall(Known(fmt), args, k) == RenderSmall(fmt, args, k)
        {
          LetterIsRendered(fmt[1], fmt, Known(fmt[2..]), args, k);
        }
        LetterIsRendered(fmt[1], fmt, Known(fmt[2..]), args, 0);
      }
    }
  }

  /** For every format: the small printer sends what the logging printer sends without the unknown directives. */
  lemma SmallMeans(fmt: string, args: Args, k: nat)
    ensures RenderSmall(fmt, args, k) == Render(Known(fmt), args, k)
  {
    UnknownIsSwallowed(fmt, args);
    SameOutput(Known(fmt), args, k);
  }
}
