/**
  Numbers as text: the shortest digit string of a number in a base, and reading a string back.
 */
module Digits {
  import D = Division
  import opened Powers

  function DigitChar(d: nat, upper: bool): char
    requires d < 16
  {
    if d < 10 then ('0' as int + d) as char
    else ((if upper then 'A' else 'a') as int + (d - 10)) as char
  }

  function DigitValue(c: char): nat {
    if '0' <= c <= '9' then c as int - '0' as int
    else if 'a' <= c <= 'f' then c as int - 'a' as int + 10
    else if 'A' <= c <= 'F' then c as int - 'A' as int + 10
    else 0
  }

  function Text(v: nat, base: nat, upper: bool): (s: string)
    requires 2 <= base <= 16
    ensures s != []
    decreases v
  {
    Quotient(v, base);
    if v < base then [DigitChar(v, upper)]
    else Text(v / base, base, upper) + [DigitChar(v % base, upper)]
  }

  lemma Quotient(v: nat, base: nat)
    requires 2 <= base
    ensures 0 <= v / base && (v >= base ==> 1 <= v / base < v) && (v < base ==> v / base == 0)
  {
    D.AtLeast(v, base, 0);
    D.AtLeast(v, base, 1);
    if v >= base {
      D.Monotone(2, base, v);
      D.AtLeast(v, base, v);
    }
  }

  /** What a string of digits is worth. */
  function Value(s: string, base: nat): nat {
    if s == [] then 0 else Value(s[..|s| - 1], base) * base + DigitValue(s[|s| - 1])
  }

  lemma ValueSnoc(s: string, c: char, base: nat)
    ensures Value(s + [c], base) == Value(s, base) * base + DigitValue(c)
  {
    assert (s + [c])[..|s|] == s;
  }

  lemma DigitCharIsDigit(d: nat, upper: bool)
    requires d < 16
    ensures var c := DigitChar(d, upper);
            DigitValue(c) == d && c != ' ' && c != '-' && c != ',' && (c == '0' <==> d == 0)
  {
  }

  predicate IsDigits(s: string, base: nat) {
    forall k :: 0 <= k < |s| ==> DigitValue(s[k]) < base && s[k] != ' ' && s[k] != '-'
  }

  lemma AppendDigit(s: string, q: nat, d: nat, v: nat, base: nat, upper: bool)
    requires base <= 16 && d < base && IsDigits(s, base) && Value(s, base) == q && v == q * base + d
    ensures var t := s + [DigitChar(d, upper)];
            IsDigits(t, base) && Value(t, base) == v
  {
    DigitCharIsDigit(d, upper);
    ValueSnoc(s, DigitChar(d, upper), base);
  }

  lemma OneDigit(d: nat, base: nat, upper: bool)
    requires base <= 16 && d < base
    ensures IsDigits([DigitChar(d, upper)], base) && Value([DigitChar(d, upper)], base) == d
  {
    AppendDigit("", 0, d, d, base, upper);
    assert "" + [DigitChar(d, upper)] == [DigitChar(d, upper)];
  }

  lemma Split(v: nat, base: nat)
    requires 2 <= base
    ensures 0 <= v / base && v == v / base * base + v % base
    ensures v >= base ==> 1 <= v / base < v
  {
    Quotient(v, base);
  }

  /** The text is digits only, reads back as the number, and has no leading zero to spare. */
  lemma {:induction false} TextReadsBack(v: nat, base: nat, upper: bool)
    requires 2 <= base <= 16
    ensures IsDigits(Text(v, base, upper), base) && Value(Text(v, base, upper), base) == v
    ensures Text(v, base, upper)[0] == '0' <==> v == 0
    decreases v
  {
    if v < base {
      OneDigit(v, base, upper);
      DigitCharIsDigit(v, upper);
    } else {
      Split(v, base);
      TextReadsBack(v / base, base, upper);
      AppendDigit(Text(v / base, base, upper), v / base, v % base, v, base, upper);
    }
  }

  /** No string of digits with the same value is shorter. */
  lemma {:induction false} TextIsShortest(s: string, base: nat, upper: bool)
    requires 2 <= base <= 16 && s != [] && IsDigits(s, base)
    ensures |Text(Value(s, base), base, upper)| <= |s|
    decreases |s|
  {
    var front, d := s[..|s| - 1], DigitValue(s[|s| - 1]);
    var v := Value(s, base);
    D.Unique(v, base, Value(front, base), d);
    if v < base {
    } else {
      Quotient(v, base);
      TextIsShortest(front, base, upper);
    }
  }

  /** The digit with weight `base`^`n`. */
  function Digit(v: nat, base: nat, n: nat): (d: nat)
    requires 1 <= base
    ensures d < base
  {
    v / Pow(base, n) % base
  }

  lemma DigitOfQuotient(v: nat, base: nat, n: nat)
    requires 1 <= base
    ensures 0 <= v / base && Digit(v, base, n + 1) == Digit(v / base, base, n)
  {
    D.AtLeast(v, base, 0);
    var p := Pow(base, n);
    D.Nest(v, base, p);
    assert Pow(base, n + 1) == base * p;
  }

  /** The lowest `n` digits. */
  function Low(v: nat, base: nat, n: nat, upper: bool): (s: string)
    requires 2 <= base <= 16
    ensures |s| == n
  {
    if n == 0 then "" else [DigitChar(Digit(v, base, n - 1), upper)] + Low(v, base, n - 1, upper)
  }

  lemma LowestDigit(v: nat, base: nat)
    requires 2 <= base <= 16
    ensures Digit(v, base, 0) == v % base
  {
    D.Unique(v, 1, v, 0);
  }

  /** Seen from the other end, with `q` the number without its lowest digit: that digit comes last. */
  lemma {:induction false} LowSnoc(v: nat, q: nat, base: nat, n: nat, upper: bool)
    requires 2 <= base <= 16 && q == v / base
    ensures Low(v, base, n + 1, upper) == Low(q, base, n, upper) + [DigitChar(v % base, upper)]
  {
    var last := [DigitChar(v % base, upper)];
    if n == 0 {
      LowestDigit(v, base);
    } else {
      LowSnoc(v, q, base, n - 1, upper);
      DigitOfQuotient(v, base, n - 1);
      var top, rest := [DigitChar(Digit(v, base, n), upper)], Low(q, base, n - 1, upper);
      assert top + (rest + last) == (top + rest) + last;
    }
  }

  /** All digits, from the top. */
  lemma {:induction false} TextIsLow(v: nat, base: nat, upper: bool)
    requires 2 <= base <= 16
    ensures Text(v, base, upper) == Low(v, base, |Text(v, base, upper)|, upper)
    decreases v
  {
    Quotient(v, base);
    if v < base {
      LowSnoc(v, 0, base, 0, upper);
      D.Small(v, base);
    } else {
      TextIsLow(v / base, base, upper);
      LowSnoc(v, v / base, base, |Text(v / base, base, upper)|, upper);
    }
  }

  /** How long the text is. */
  lemma {:induction false} TextLength(v: nat, base: nat, upper: bool, n: nat)
    requires 2 <= base <= 16 && Pow(base, n) <= v < Pow(base, n + 1)
    ensures |Text(v, base, upper)| == n + 1
  {
    Quotient(v, base);
    if n == 0 {
    } else {
      assert Pow(base, 1) == base;
      PowMonotone(base, 1, n);
      D.AtLeast(v, base, Pow(base, n - 1));
      D.AtLeast(v, base, Pow(base, n));
      TextLength(v / base, base, upper, n - 1);
    }
  }

  lemma {:induction false} DecimalDigits(v: nat)
    ensures forall c :: c in Text(v, 10, false) ==> '0' <= c <= '9'
    decreases v
  {
    Quotient(v, 10);
    if v < 10 {
    } else {
      DecimalDigits(v / 10);
    }
  }

  /** Letters among the digits are capitals or small letters as asked for. */
  lemma {:induction false} TextCase(v: nat, base: nat, upper: bool)
    requires 2 <= base <= 16
    ensures forall c :: c in Text(v, base, upper) ==>
              '0' <= c <= '9' || if upper then 'A' <= c <= 'F' else 'a' <= c <= 'f'
    decreases v
  {
    if v < base {
    } else {
      Split(v, base);
      TextCase(v / base, base, upper);
    }
  }
}
