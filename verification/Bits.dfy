/** The bitwise operators of 32-bit words, bit by bit, and what a shifted four-bit mask picks out. */
module Bits {
  import opened Digits
  import D = Division
  import opened Powers

  /** A bit of the result is set when it is set in both. */
  function And(a: nat, b: nat): nat
    decreases a
  {
    if a == 0 || b == 0 then 0 else
      Halves(a);
      Halves(b);
      2 * And(a / 2, b / 2) + (a % 2) * (b % 2)
  }

  lemma Halves(a: nat)
    ensures 0 <= a / 2 && a == 2 * (a / 2) + a % 2 && (a > 0 ==> a / 2 < a)
  {
  }

  /** Left shift; what leaves the word at the top is gone. */
  function Shl(a: nat, s: nat): (r: nat)
    ensures r < WORD
  {
    a * Pow(2, s) % WORD
  }

  function Shr(a: nat, s: nat): (r: nat) {
    D.AtLeast(a, Pow(2, s), 0);
    a / Pow(2, s)
  }

  lemma AndEven(a: nat, c: nat)
    ensures 0 <= a / 2 && And(a, 2 * c) == 2 * And(a / 2, c)
  {
    Halves(a);
    assert 2 * c / 2 == c && 2 * c % 2 == 0;
    if a > 0 && c > 0 {
      assert And(a, 2 * c) == 2 * And(a / 2, c) + (a % 2) * 0;
    }
  }

  lemma Doubled(x: nat, p: nat)
    ensures x * (p * 2) == 2 * (x * p)
  {
  }

  lemma ShrTwice(a: nat, s: nat)
    ensures 0 <= a / 2 && Shr(a, s + 1) == Shr(a / 2, s)
  {
    Halves(a);
    var p := Pow(2, s);
    D.Nest(a, 2, p);
    assert Pow(2, s + 1) == 2 * p;
  }

  /** A mask shifted left picks bits that lie that much higher. */
  lemma {:induction false} AndShifted(a: nat, b: nat, s: nat)
    ensures And(a, b * Pow(2, s)) == And(Shr(a, s), b) * Pow(2, s)
    decreases s
  {
    if s == 0 {
      D.Unique(a, 1, a, 0);
    } else {
      var p := Pow(2, s - 1);
      Doubled(b, p);
      AndEven(a, b * p);
      AndShifted(a / 2, b, s - 1);
      ShrTwice(a, s - 1);
      Doubled(And(Shr(a, s), b), p);
    }
  }

  lemma AndOdd(a: nat, c: nat)
    ensures 0 <= a / 2 && And(a, 2 * c + 1) == 2 * And(a / 2, c) + a % 2
  {
    Halves(a);
    assert (2 * c + 1) / 2 == c && (2 * c + 1) % 2 == 1;
  }

  lemma LowFourBits(a: nat)
    ensures And(a, 15) == a % 16
  {
    var b := a / 2;
    var c := b / 2;
    var d := c / 2;
    AndOdd(a, 7);
    AndOdd(b, 3);
    AndOdd(c, 1);
    AndOdd(d, 0);
    assert And(d / 2, 0) == 0;
  }

  lemma {:induction false} FourBitsADigit(k: nat)
    ensures Pow(2, 4 * k) == Pow(16, k)
  {
    if k == 0 {
    } else {
      FourBitsADigit(k - 1);
      var p := Pow(2, 4 * k - 4);
      assert Pow(2, 4 * k - 3) == p * 2 && Pow(2, 4 * k - 2) == p * 4 && Pow(2, 4 * k - 1) == p * 8;
    }
  }

  lemma {:induction false} DigitsOfAWord(k: nat)
    requires k < 8
    ensures 15 * Pow(16, k) < WORD
  {
    assert Pow(16, 1) == 16 && Pow(16, 2) == 256 && Pow(16, 3) == 4096;
    assert Pow(16, 4) == Pow(16, 3) * 16 && Pow(16, 5) == Pow(16, 4) * 16;
    assert Pow(16, 6) == Pow(16, 5) * 16 && Pow(16, 7) == Pow(16, 6) * 16;
    PowMonotone(16, k, 7);
  }

  /** A masked word is its digit in place. */
  lemma MaskedDigit(v: nat, k: nat)
    requires k < 8
    ensures And(v, Shl(0xF, 4 * k)) == Digit(v, 16, k) * Pow(2, 4 * k)
  {
    FourBitsADigit(k);
    DigitsOfAWord(k);
    D.Small(15 * Pow(2, 4 * k), WORD);
    AndShifted(v, 15, 4 * k);
    LowFourBits(Shr(v, 4 * k));
  }

  lemma Scaled(d: nat, p: nat)
    requires 0 < p
    ensures d * p / p == d && (d * p == 0 <==> d == 0)
  {
    D.Unique(d * p, p, d, 0);
  }

  /** Mask and shift pick out a hexadecimal digit, and the masked word is zero when the digit is. */
  lemma MaskIsDigit(v: nat, k: nat)
    requires k < 8
    ensures Shr(And(v, Shl(0xF, 4 * k)), 4 * k) == Digit(v, 16, k)
    ensures And(v, Shl(0xF, 4 * k)) == 0 <==> Digit(v, 16, k) == 0
  {
    MaskedDigit(v, k);
    Scaled(Digit(v, 16, k), Pow(2, 4 * k));
  }
}
