/**
  The grouped decimal printer: digits and commas go into a 20-byte buffer from the right and are
  printed back to front.
 */
module PrintDec {
  import opened Digits
  import D = Division
  import opened Powers

  const SIZE := 20

  function Char(d: nat): char
    requires d < 10
  {
    DigitChar(d, false)
  }

  /** The groups of three, counted from the right. */
  function Grouped(x: nat): (s: string)
    ensures s != ""
  {
    Quotient(x, 1000);
    if x < 1000 then Text(x, 10, false) else Grouped(x / 1000) + "," + Low(x, 10, 3, false)
  }

  /** What goes in front of the `j` digits already stored when `t` is left. */
  function InFront(t: nat, j: nat): (s: string)
    ensures s != ""
    decreases t
  {
    Quotient(t, 10);
    if t < 10 then [Char(t)]
    else InFront(t / 10, j + 1) + (if (j + 1) % 3 == 0 then "," else "") + [Char(t % 10)]
  }

  function Reversed(s: string): (r: string)
    ensures |r| == |s|
  {
    if s == "" then "" else [s[|s| - 1]] + Reversed(s[..|s| - 1])
  }

  lemma ReversedAppend(s: string, c: char)
    ensures Reversed(s + [c]) == [c] + Reversed(s)
  {
    assert (s + [c])[..|s|] == s;
  }

  /** Only the count modulo three matters. */
  lemma {:induction false} EveryThird(t: nat, j: nat)
    ensures InFront(t, j + 3) == InFront(t, j)
    decreases t
  {
    Quotient(t, 10);
    if t < 10 {
    } else {
      EveryThird(t / 10, j + 1);
    }
  }

  lemma ThreeMore(x: nat)
    requires 1000 <= x
    ensures 0 < x / 1000
    ensures InFront(x, 0) == InFront(x / 1000, 0) + "," + Low(x, 10, 3, false)
  {
    Quotient(x, 10);
    var a := x / 10;
    D.AtLeast(x, 10, 100);
    Quotient(a, 10);
    var b := a / 10;
    D.AtLeast(a, 10, 10);
    Quotient(b, 10);
    var c := b / 10;
    D.Nest(x, 10, 10);
    D.Nest(x, 100, 10);
    assert c == x / 1000;
    assert Pow(10, 1) == 10 && Pow(10, 2) == 100 && Pow(10, 0) == 1;
    var low := [Char(b % 10)] + [Char(a % 10)] + [Char(x % 10)];
    assert Digit(x, 10, 2) == b % 10 && Digit(x, 10, 1) == a % 10 && Digit(x, 10, 0) == x % 10;
    assert Low(x, 10, 1, false) == [Char(x % 10)] + Low(x, 10, 0, false);
    assert Low(x, 10, 2, false) == [Char(a % 10)] + Low(x, 10, 1, false);
    assert Low(x, 10, 3, false) == low;
    EveryThird(c, 0);
    assert InFront(b, 2) == InFront(c, 3) + "," + [Char(b % 10)];
    assert InFront(a, 1) == InFront(b, 2) + "" + [Char(a % 10)];
    assert InFront(x, 0) == InFront(a, 1) + "" + [Char(x % 10)];
    assert InFront(x, 0) == InFront(c, 0) + "," + low;
  }

  lemma {:induction false} NoCommaYet(t: nat, j: nat)
    requires j < 3 && t < Pow(10, 3 - j)
    ensures InFront(t, j) == Text(t, 10, false)
    decreases t
  {
    Quotient(t, 10);
    if t < 10 {
    } else {
      assert Pow(10, 1) == 10;
      D.AtLeast(t, 10, Pow(10, 2 - j));
      NoCommaYet(t / 10, j + 1);
    }
  }

  /** The printer's order of digits and commas is the grouping in threes. */
  lemma {:induction false} GroupedIsInFront(x: nat)
    ensures InFront(x, 0) == Grouped(x)
    decreases x
  {
    Quotient(x, 1000);
    if x < 1000 {
      assert Pow(10, 1) == 10 && Pow(10, 2) == 100 && Pow(10, 3) == 1000;
      NoCommaYet(x, 0);
    } else {
      ThreeMore(x);
      GroupedIsInFront(x / 1000);
    }
  }

  lemma LowDecimal(x: nat)
    ensures forall k :: 0 <= k < 3 ==> Low(x, 10, 3, false)[k] != ','
  {
    var low := Low(x, 10, 3, false);
    assert low[0] == Char(Digit(x, 10, 2));
    assert low[1] == Low(x, 10, 2, false)[0] == Char(Digit(x, 10, 1));
    assert low[2] == Low(x, 10, 2, false)[1] == Low(x, 10, 1, false)[0] == Char(Digit(x, 10, 0));
  }

  /** The `k`-th character counted from the right. */
  function FromRight(s: string, k: nat): char
    requires k < |s|
  {
    s[|s| - 1 - k]
  }

  ghost predicate CommasRight(s: string) {
    forall k: nat :: k < |s| ==> (FromRight(s, k) == ',' <==> k % 4 == 3)
  }

  lemma OneMoreGroup(front: string, low: string)
    requires CommasRight(front) && |low| == 3 && low[0] != ',' && low[1] != ',' && low[2] != ','
    ensures CommasRight(front + "," + low)
  {
    var s := front + "," + low;
    forall k: nat | k < |s|
      ensures FromRight(s, k) == ',' <==> k % 4 == 3
    {
      if k >= 4 {
        assert FromRight(s, k) == FromRight(front, k - 4);
      } else if k < 3 {
        assert FromRight(s, k) == low[2 - k];
      }
    }
  }

  /** A comma stands before every full group of three digits counted from the right, and never first. */
  lemma {:induction false} CommaPlaces(x: nat)
    ensures Grouped(x)[0] != ',' && CommasRight(Grouped(x))
    decreases x
  {
    var s := Grouped(x);
    Quotient(x, 1000);
    if x < 1000 {
      DecimalDigits(x);
      assert Pow(10, 1) == 10 && Pow(10, 2) == 100 && Pow(10, 3) == 1000;
      TextAtMost(x, 3);
      assert forall k: nat :: k < |s| ==> FromRight(s, k) in s;
      assert s[0] in s;
    } else {
      CommaPlaces(x / 1000);
      LowDecimal(x);
      OneMoreGroup(Grouped(x / 1000), Low(x, 10, 3, false));
    }
  }

  lemma {:induction false} TextAtMost(x: nat, n: nat)
    requires 0 < n && x < Pow(10, n)
    ensures |Text(x, 10, false)| <= n
  {
    Quotient(x, 10);
    if x < 10 {
    } else {
      assert Pow(10, 1) == 10;
      D.AtLeast(x, 10, Pow(10, n - 1));
      TextAtMost(x / 10, n - 1);
    }
  }

  function WithoutCommas(s: string): string {
    if s == "" then "" else
      WithoutCommas(s[..|s| - 1]) + if s[|s| - 1] == ',' then "" else [s[|s| - 1]]
  }

  lemma WithoutCommasAppend(s: string, c: char)
    ensures WithoutCommas(s + [c]) == WithoutCommas(s) + if c == ',' then "" else [c]
  {
    assert (s + [c])[..|s|] == s;
  }

  lemma CommaAndDigit(front: string, comma: string, c: char)
    requires (comma == "" || comma == ",") && c != ','
    ensures WithoutCommas(front + comma + [c]) == WithoutCommas(front) + [c]
  {
    WithoutCommasAppend(front + comma, c);
    if comma == "" {
      assert front + comma == front;
    } else {
      WithoutCommasAppend(front, ',');
    }
  }

  lemma {:induction false} OnlyCommasAreAdded(t: nat, j: nat)
    ensures WithoutCommas(InFront(t, j)) == Text(t, 10, false)
    decreases t
  {
    Quotient(t, 10);
    DigitCharIsDigit(t % 10, false);
    if t < 10 {
      CommaAndDigit("", "", Char(t));
      assert "" + "" + [Char(t)] == [Char(t)];
      assert WithoutCommas("") + [Char(t)] == [Char(t)];
    } else {
      OnlyCommasAreAdded(t / 10, j + 1);
      CommaAndDigit(InFront(t / 10, j + 1), if (j + 1) % 3 == 0 then "," else "", Char(t % 10));
    }
  }

  /** Taking the commas out leaves the shortest decimal text, which reads back as the number. */
  lemma GroupedReadsBack(x: nat)
    ensures WithoutCommas(Grouped(x)) == Text(x, 10, false)
    ensures Value(WithoutCommas(Grouped(x)), 10) == x
  {
    GroupedIsInFront(x);
    OnlyCommasAreAdded(x, 0);
    TextReadsBack(x, 10, false);
  }

  function CommaAfter(j: nat): string {
    if j % 3 == 0 then "," else ""
  }

  /** What is stored, read back to front, with the comma that may end up first. */
  ghost predicate Stored(x: nat, t: nat, j: nat, buffer: string) {
    && |buffer| == j + j / 3
    && (j > 0 ==> (buffer[|buffer| - 1] == ',' <==> CommaAfter(j) == ","))
    && (t > 0 ==> InFront(t, j) + Reversed(buffer) == InFront(x, 0))
    && (t == 0 ==> 0 < j && Reversed(buffer) == CommaAfter(j) + InFront(x, 0))
  }

  lemma ReversedDigit(buffer: string, c: char, comma: string)
    requires comma == "" || comma == ","
    ensures Reversed(buffer + [c] + comma) == comma + ([c] + Reversed(buffer))
  {
    ReversedAppend(buffer, c);
    if comma == "" {
      assert buffer + [c] + comma == buffer + [c];
    } else {
      ReversedAppend(buffer + [c], ',');
    }
  }

  lemma Regroup(a: string, b: string, c: string, d: string)
    ensures a + (b + (c + d)) == (a + b + c) + d
  {
  }

  lemma StoreOne(x: nat, t: nat, j: nat, buffer: string)
    requires 0 < t && Stored(x, t, j, buffer)
    ensures 0 <= t / 10
    ensures Stored(x, t / 10, j + 1, buffer + [Char(t % 10)] + CommaAfter(j + 1))
  {
    Quotient(t, 10);
    var c, comma := Char(t % 10), CommaAfter(j + 1);
    DigitCharIsDigit(t % 10, false);
    ReversedDigit(buffer, c, comma);
    if t >= 10 {
      Regroup(InFront(t / 10, j + 1), comma, [c], Reversed(buffer));
    } else {
      assert InFront(t, j) == [c];
    }
  }

  /** A negative number prints its sign and nothing else. */
  method PrintDec(x: int) returns (out: string)
    requires -0x8000_0000_0000_0000 <= x < 1_000_000_000_000_000
    ensures out == if x < 0 then "-" else Grouped(x)
  {
    out := "";
    if x == 0 {
      out := out + "0";
      assert Grouped(0) == Text(0, 10, false) == ['0'];
    } else if x < 0 {
      out := out + "-";
    } else {
      var r := new char[SIZE];
      var i := Fill(x, r);
      ghost var grouped := InFront(x, 0);
      assert ("" + grouped) == grouped && ("," + grouped)[1..] == grouped;
      if r[i - 1] == ',' {
        assert r[..i] == r[..i - 1] + [','];
        ReversedAppend(r[..i - 1], ',');
        assert ([','] + Reversed(r[..i - 1]))[1..] == Reversed(r[..i - 1]);
        i := i - 1;
      }
      GroupedIsInFront(x);
      out := PutBackwards(r, i);
    }
  }

  method Fill(x: nat, r: array<char>) returns (i: nat)
    requires 0 < x < 1_000_000_000_000_000 && r.Length == SIZE
    modifies r
    ensures 0 < i <= SIZE
    ensures Reversed(r[..i]) == (if r[i - 1] == ',' then "," else "") + InFront(x, 0)
  {
    var t: nat, j: nat := x, 0;
    i := 0;
    Quadrillion();
    while t > 0
      invariant j <= 15 && i == j + j / 3 && t < Pow(10, 15 - j) && (j == 0 ==> t == x)
      invariant Stored(x, t, j, r[..i])
      decreases t
    {
      i := StoreDigit(x, t, j, r, i);
      Quotient(t, 10);
      assert Pow(10, 0) == 1;
      D.AtLeast(t, 10, Pow(10, 14 - j));
      j := j + 1;
      t := t / 10;
    }
  }

  /** One digit, and a comma after every third. */
  method StoreDigit(ghost x: nat, t: nat, j: nat, r: array<char>, i: nat) returns (i': nat)
    requires r.Length == SIZE && 0 < t && j < 15 && i == j + j / 3 && Stored(x, t, j, r[..i])
    modifies r
    ensures i' == (j + 1) + (j + 1) / 3 <= SIZE
    ensures 0 <= t / 10 && Stored(x, t / 10, j + 1, r[..i'])
  {
    StoreOne(x, t, j, r[..i]);
    ghost var before, digit := r[..i], Char(t % 10);
    Put(r, i, (0x30 + t % 10) as char);
    i' := i + 1;
    if (j + 1) % 3 == 0 {
      Put(r, i', ',');
      i' := i' + 1;
    }
    assert r[..i'] == before + [digit] + CommaAfter(j + 1);
  }

  method Put(r: array<char>, i: nat, c: char)
    requires i < r.Length
    modifies r
    ensures r[..i + 1] == old(r[..i]) + [c]
  {
    r[i] := c;
  }

  method PutBackwards(r: array<char>, i: nat) returns (out: string)
    requires i <= r.Length
    ensures out == Reversed(r[..i])
  {
    out := "";
    var j := i - 1;
    while j >= 0
      invariant -1 <= j < i || i == 0
      invariant -1 <= j < r.Length
      invariant out + Reversed(r[..j + 1]) == Reversed(r[..i])
    {
      assert r[..j + 1][..j] == r[..j];
      out := out + [r[j]];
      j := j - 1;
    }
  }

  lemma Quadrillion()
    ensures Pow(10, 15) == 1_000_000_000_000_000
  {
    assert Pow(10, 3) == 1000;
    assert Pow(10, 6) == Pow(10, 5) * 10 && Pow(10, 5) == Pow(10, 4) * 10 && Pow(10, 4) == Pow(10, 3) * 10;
    assert Pow(10, 9) == Pow(10, 8) * 10 && Pow(10, 8) == Pow(10, 7) * 10 && Pow(10, 7) == Pow(10, 6) * 10;
    assert Pow(10, 12) == Pow(10, 11) * 10 && Pow(10, 11) == Pow(10, 10) * 10 && Pow(10, 10) == Pow(10, 9) * 10;
    assert Pow(10, 15) == Pow(10, 14) * 10 && Pow(10, 14) == Pow(10, 13) * 10 && Pow(10, 13) == Pow(10, 12) * 10;
  }
}
