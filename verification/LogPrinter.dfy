/**
  The logging printf as it runs: a loop over the format with its state in local variables, digit
  loops that emit as they go, and a device that takes one character at a time.
 */
module LogPrinter {
  import opened Digits
  import D = Division
  import opened LogPrintf
  import opened Powers

  datatype Scan = Plain | FirstFormatChar | OtherFormatChar

  /** What is still to be printed when the loop has reached `rest` in state `scan`. */
  function Remaining(scan: Scan, zero: bool, mods: string, rest: string, args: Args, k: nat): string {
    match scan
    case Plain => Render(rest, args, k)
    case FirstFormatChar => RenderDirective(rest, args, k)
    case OtherFormatChar => RenderModifiers(zero, mods, rest, args, k)
  }

  class Log {
    var sent: string

    method TxChar(c: char)
      modifies this
      ensures sent == old(sent) + [c]
    {
      sent := sent + [c];
    }

    method RepChar(c: char, r: int)
      modifies this
      ensures sent == old(sent) + Repeat(c, r)
    {
      var n := r;
      ghost var done := 0;
      while n > 0
        invariant r <= 0 ==> n == r && done == 0
        invariant r > 0 ==> 0 <= n && done == r - n
        invariant sent == old(sent) + Repeat(c, done)
      {
        n := n - 1;
        TxChar(c);
        done := done + 1;
        assert Repeat(c, done) == Repeat(c, done - 1) + [c];
      }
    }

    method TxString(s: string)
      modifies this
      ensures sent == old(sent) + s
    {
      var i := 0;
      while i < |s|
        invariant 0 <= i <= |s| && sent == old(sent) + s[..i]
      {
        TxChar(s[i]);
        i := i + 1;
        assert s[..i] == s[..i - 1] + [s[i - 1]];
      }
      assert s[..i] == s;
    }

    /** The number of digits and the weight of the first one. The product never leaves 32 bits. */
    static method CountDigits(v: Word, base: nat) returns (p: Word, count: nat)
      requires 2 <= base <= 16
      ensures 0 < count && p == Pow(base, count - 1) && v < Pow(base, count)
      ensures forall upper: bool :: |Text(v, base, upper)| == count
    {
      p, count := 1, 1;
      var shrink: nat := v;
      assert v / 1 == v;
      var more := true;
      while more
        invariant 0 < count && p == Pow(base, count - 1) && (v == 0 ==> count == 1)
        invariant p <= v || v == 0
        invariant more ==> shrink == v / p
        invariant !more ==> v < Pow(base, count)
        decreases if more then v + 2 - p else 0
      {
        shrink := NextShrink(v, p, shrink, base, count);
        if shrink > 0 {
          count := count + 1;
          p := p * base;
        } else {
          more := false;
        }
      }
      forall upper: bool
        ensures |Text(v, base, upper)| == count
      {
        if v > 0 {
          TextLength(v, base, upper, count - 1);
        }
      }
    }

    /** One division of the counting loop, and what it tells about the next weight. */
    static method NextShrink(v: Word, p: Word, shrink: nat, base: nat, ghost count: nat) returns (next: nat)
      requires 2 <= base <= 16 && 0 < count && p == Pow(base, count - 1)
      requires shrink == v / p
      ensures p < p * base == Pow(base, count)
      ensures next > 0 ==> p * base <= v && next == v / (p * base)
      ensures next == 0 ==> v < p * base
    {
      Quotient(shrink, base);
      next := shrink / base;
      D.Nest(v, p, base);
      D.AtLeast(v, p * base, 1);
      D.Apart(base, 1, p);
    }

    method TxDigit(d: nat, upper: bool)
      requires d < 16
      modifies this
      ensures sent == old(sent) + [DigitChar(d, upper)]
    {
      var c := d + '0' as int;
      if c > '9' as int {
        c := c + (if upper then 'A' as int else 'a' as int) - '0' as int - 10;
      }
      TxChar(c as char);
    }

    /** Emits the digits of `v` from the one with weight `p` == `base`^(`n` - 1) down. */
    method NumberyParts(v: Word, p: Word, base: nat, upper: bool, ghost n: nat)
      requires 2 <= base <= 16 && 0 < n && p == Pow(base, n - 1) && v < Pow(base, n)
      modifies this
      ensures sent == old(sent) + Low(v, base, n, upper)
    {
      var rest: nat, weight: nat := v, p;
      ghost var left: nat := n;
      D.Small(v, Pow(base, n));
      while weight != 0
        invariant left <= n && (left == 0 <==> weight == 0) && (left > 0 ==> weight == Pow(base, left - 1))
        invariant left > 0 ==> rest == v % Pow(base, left)
        invariant sent + Low(v, base, left, upper) == old(sent) + Low(v, base, n, upper)
        decreases left
      {
        rest, weight := Place(v, rest, weight, base, upper, left);
        left := left - 1;
      }
    }

    /** One digit, and what is left for the next place. */
    method Place(ghost v: nat, rest: nat, weight: nat, base: nat, upper: bool, ghost left: nat)
      returns (rest': nat, weight': nat)
      requires 2 <= base <= 16 && 0 < left && weight == Pow(base, left - 1) && rest == v % Pow(base, left)
      modifies this
      ensures sent + Low(v, base, left - 1, upper) == old(sent) + Low(v, base, left, upper)
      ensures left > 1 ==> weight' == Pow(base, left - 2) && rest' == v % Pow(base, left - 1)
      ensures left == 1 ==> weight' == 0
    {
      TakeDigit(v, rest, weight, base, left);
      TxDigit(rest / weight, upper);
      rest' := rest % weight;
      weight' := weight / base;
    }

    /** What comes before the digits: padding to the width, and the sign. */
    method Lead(sign: bool, zero: bool, width: int, count: nat)
      modifies this
      ensures sent == old(sent) + LeadText(sign, zero, width - count)
    {
      var before := width - count;
      if zero {
        if sign {
          TxChar('-');
          before := before - 1;
        }
        RepChar('0', before);
      } else {
        if sign {
          before := before - 1;
        }
        RepChar(' ', before);
        if sign {
          TxChar('-');
        }
      }
    }

    /** Padding, sign and digits of a magnitude. */
    method Magnitude(v: Word, sign: bool, zero: bool, width: int, base: nat, upper: bool)
      requires 2 <= base <= 16
      modifies this
      ensures sent == old(sent) + (LeadText(sign, zero, width - |Text(v, base, upper)|) + Text(v, base, upper))
    {
      var p, count := CountDigits(v, base);
      Lead(sign, zero, width, count);
      NumberyParts(v, p, base, upper, count);
      TextIsLow(v, base, upper);
      Assoc(old(sent), LeadText(sign, zero, width - count), Text(v, base, upper));
    }

    /** Inverts the bits and adds one, in 32 bits. */
    static method Negate(v: Word) returns (r: Word)
      requires 0 < v
      ensures r == WORD - v
    {
      D.Small(WORD - v, WORD);
      r := (WORD - 1 - v + 1) % WORD;
    }

    /** The letter of an integer directive: strip the sign, then print. */
    method Integer(arg: Word, zero: bool, width: int, base: nat, signed: bool, upper: bool)
      requires 2 <= base <= 16
      modifies this
      ensures sent == old(sent) + IntegerText(Meaning(arg, signed), zero, width, base, upper)
    {
      var v: Word, sign: bool := arg, false;
      StripSign(arg);
      if signed && v >= SIGN_BIT {
        v := Negate(v);
        sign := true;
      }
      Magnitude(v, sign, zero, width, base, upper);
    }

    /** The letter that ends a directive. `before` is the width read, or -1. */
    method Letter(c: char, zero: bool, before: int, args: Args, k: nat) returns (k': nat)
      modifies this
      ensures sent == old(sent) + Field(c, zero, before, Slot(args, k)) && k' == k + Uses(c)
    {
      match KindOf(c) {
        case Number(base, signed, upper) =>
          Integer(Slot(args, k).word, zero, before, base, signed, upper);
          k' := k + 1;
        case Character =>
          RepChar(' ', before - 1);
          TxChar((Slot(args, k).word % 256) as char);
          Assoc(old(sent), Repeat(' ', before - 1), [(Slot(args, k).word % 256) as char]);
          k' := k + 1;
        case Chars =>
          RepChar(' ', before - |Slot(args, k).text|);
          TxString(Slot(args, k).text);
          Assoc(old(sent), Repeat(' ', before - |Slot(args, k).text|), Slot(args, k).text);
          k' := k + 1;
        case Unknown =>
          k' := k;
      }
    }

    /** A modifier or the letter, with the width as it stands: `after` is negative before a point. */
    method OtherChar(c: char, zero: bool, before: int, after: int, ghost mods: string, args: Args, k: nat)
      returns (ended: bool, before': int, after': int, k': nat)
      requires before == Width(mods) && (after < 0 <==> '.' !in mods)
      modifies this
      ensures ended <==> !IsModifier(c)
      ensures ended ==> sent == old(sent) + Field(c, zero, before, Slot(args, k)) && k' == k + Uses(c)
      ensures !ended ==> sent == old(sent) && k' == k
      ensures !ended ==> before' == Width(mods + [c]) && (after' < 0 <==> '.' !in mods + [c])
    {
      ended, before', after', k' := false, before, after, k;
      WidthStep(mods, c);
      if c == '.' {
        after' := 0;
      } else if '0' <= c <= '9' {
        var d := c as int - '0' as int;
        if after < 0 {
          if before < 0 {
            before' := 0;
          } else {
            before' := before * 10;
          }
          before' := before' + d;
        } else {
          after' := after * 10 + d;
        }
      } else if c == 'l' {
      } else {
        ended := true;
        k' := Letter(c, zero, before, args, k);
      }
    }

    /**
      The body of the loop over the format, for the character `c` that `tail` follows. What was sent and
      what is still to come stay together the same text.
     */
    method Next(c: char, scan: Scan, zero: bool, before: int, after: int, ghost mods: string, ghost tail: string,
                args: Args, k: nat)
      returns (scan': Scan, zero': bool, before': int, after': int, ghost mods': string, k': nat)
      requires scan == OtherFormatChar ==> before == Width(mods) && (after < 0 <==> '.' !in mods)
      modifies this
      ensures scan' == OtherFormatChar ==> before' == Width(mods') && (after' < 0 <==> '.' !in mods')
      ensures sent + Remaining(scan', zero', mods', tail, args, k') ==
              old(sent) + Remaining(scan, zero, mods, [c] + tail, args, k)
    {
      ghost var rest := [c] + tail;
      assert rest[1..] == tail;
      scan', zero', before', after', mods', k' := scan, zero, before, after, mods, k;
      if scan == Plain {
        if c == '%' {
          zero', before', after', scan' := false, -1, -1, FirstFormatChar;
        } else {
          TxChar(c);
          Assoc(old(sent), [c], Render(tail, args, k));
        }
      } else if scan == FirstFormatChar && c == '0' {
        zero', scan', before', after', mods' := true, OtherFormatChar, -1, -1, "";
      } else if scan == FirstFormatChar && c == '%' {
        TxChar(c);
        Assoc(old(sent), [c], Render(tail, args, k));
        scan' := Plain;
      } else {
        if scan == FirstFormatChar {
          scan', zero', before', after', mods' := OtherFormatChar, false, -1, -1, "";
        }
        DirectiveStep(old(sent), zero', mods', rest, args, k);
        var ended;
        ended, before', after', k' := OtherChar(c, zero', before', after', mods', args, k);
        if ended {
          scan' := Plain;
        } else {
          mods' := mods' + [c];
        }
      }
    }

    /** The whole format; a directive that the string ends in prints nothing. */
    method Printf(fmt: string, args: Args)
      modifies this
      ensures sent == old(sent) + Render(fmt, args, 0)
    {
      var scan, zero, before, after, k: nat := Plain, false, -1, -1, 0;
      ghost var mods := "";
      var w := 0;
      while w < |fmt|
        invariant 0 <= w <= |fmt|
        invariant scan == OtherFormatChar ==> before == Width(mods) && (after < 0 <==> '.' !in mods)
        invariant sent + Remaining(scan, zero, mods, fmt[w..], args, k) == old(sent) + Render(fmt, args, 0)
      {
        assert fmt[w..] == [fmt[w]] + fmt[w + 1..];
        scan, zero, before, after, mods, k := Next(fmt[w], scan, zero, before, after, mods, fmt[w + 1..], args, k);
        w := w + 1;
      }
    }
  }

  /** The magnitude that the printer strips the sign to. */
  lemma StripSign(w: Word)
    ensures w == Abs(Meaning(w, false)) && Meaning(w, false) >= 0
    ensures w < SIGN_BIT ==> w == Abs(Meaning(w, true)) && Meaning(w, true) >= 0
    ensures w >= SIGN_BIT ==> WORD - w == Abs(Meaning(w, true)) && Meaning(w, true) < 0
  {
  }

  /** What one character inside a directive does to the text still to come. */
  lemma DirectiveStep(was: string, zero: bool, mods: string, rest: string, args: Args, k: nat)
    requires rest != ""
    ensures var c, tail := rest[0], rest[1..];
            was + RenderModifiers(zero, mods, rest, args, k) ==
            if IsModifier(c) then was + RenderModifiers(zero, mods + [c], tail, args, k)
            else (was + Field(c, zero, Width(mods), Slot(args, k))) + Render(tail, args, k + Uses(c))
  {
    if !IsModifier(rest[0]) {
      Assoc(was, Field(rest[0], zero, Width(mods), Slot(args, k)), Render(rest[1..], args, k + Uses(rest[0])));
    }
  }

  /** The digit that the loop divides out is the one with weight `p`. */
  lemma TakeDigit(v: nat, rest: nat, p: nat, base: nat, n: nat)
    requires 2 <= base <= 16 && 0 < n && p == Pow(base, n - 1) && rest == v % Pow(base, n)
    ensures rest / p == Digit(v, base, n - 1)
    ensures n > 1 ==> rest % p == v % Pow(base, n - 1) && p / base == Pow(base, n - 2)
    ensures n == 1 ==> p / base == 0
  {
    D.Nest(v, p, base);
    if n > 1 {
      D.Unique(p, base, Pow(base, n - 2), 0);
    } else {
      D.Small(p, base);
    }
  }
}
