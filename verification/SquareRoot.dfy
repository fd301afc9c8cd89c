/**
  The non-restoring integer square root of the AM demodulator, for any register width.
 */
module SquareRoot {
  import D = Division
  import opened Powers

  /** `q` is the integer square root of `n`. */
  ghost predicate IsRoot(n: nat, q: nat) {
    q * q <= n < (q + 1) * (q + 1)
  }

  lemma RootUnique(n: nat, p: nat, q: nat)
    requires IsRoot(n, p) && IsRoot(n, q)
    ensures p == q
  {
    if p < q {
      assert (p + 1) * (p + 1) <= q * q by { Squares(p + 1, q); }
    } else if q < p {
      assert (q + 1) * (q + 1) <= p * p by { Squares(q + 1, p); }
    }
  }

  lemma Squares(a: nat, b: nat)
    requires a <= b
    ensures a * a <= b * b
  {
    D.Monotone(a, b, a);
    D.Monotone(a, b, b);
  }

  /**
    The remainder that belongs to a root: what is left of `n` when the last trial bit was taken,
    and what was overdrawn when it was not.
   */
  function Remainder(n: nat, q: nat, overdrawn: bool): int {
    if overdrawn then n - (q + 1) * (q + 1) else n - q * q
  }

  /** One trial: two more bits `d` of the operand, the same subtraction or addition, one more root bit. */
  lemma Trial(n: nat, q: nat, overdrawn: bool, d: nat)
    requires IsRoot(n, q) && d < 4
    ensures var rem := 4 * Remainder(n, q, overdrawn) + d + (if overdrawn then 4 * q + 3 else -(4 * q + 1));
            && rem == 4 * n + d - (2 * q + 1) * (2 * q + 1)
            && -(4 * q + 1) <= rem < 4 * q + 3
            && var q' := 2 * q + (if rem < 0 then 0 else 1);
               IsRoot(4 * n + d, q') && rem == Remainder(4 * n + d, q', rem < 0)
  {
    var s := q * q;
    assert (q + 1) * (q + 1) == s + 2 * q + 1;
    assert (2 * q + 1) * (2 * q + 1) == 4 * s + 4 * q + 1;
    assert (2 * q) * (2 * q) == 4 * s;
    assert (2 * q + 2) * (2 * q + 2) == 4 * s + 8 * q + 4;
  }

  /** Two's complement in a register with `m` values. */
  function Register(x: int, m: int): (r: nat)
    requires 0 < m
    ensures r < m
  {
    x % m
  }

  /** The sign bit of a value that fits shows whether it is negative. */
  lemma SignBit(x: int, half: int)
    requires -half <= x < half
    ensures x < 0 <==> Register(x, 2 * half) >= half
  {
    if x < 0 {
      D.AddMultiple(x, 2 * half, 1);
      D.Small(x + 2 * half, 2 * half);
    } else {
      D.Small(x, 2 * half);
    }
  }

  /** Dropping the two top bits before shifting left by two loses nothing modulo the register. */
  lemma ShiftKeeps(x: int, w: int, y: int)
    requires 0 < w
    ensures Register((Register(x, 4 * w) % w) * 4 + y, 4 * w) == Register(4 * x + y, 4 * w)
  {
    var m := 4 * w;
    var k := x / m;
    assert x == k * m + x % m;
    var j := (x % m) / w;
    assert x % m == j * w + (x % m) % w;
    var t := k * 4 + j;
    calc {
      4 * x + y;
      4 * (k * m + j * w + (x % m) % w) + y;
      { assert 4 * (k * m) == (k * 4) * m && 4 * (j * w) == j * m; }
      ((x % m) % w) * 4 + y + (k * 4) * m + j * m;
      { assert (k * 4) * m + j * m == t * m; }
      ((x % m) % w) * 4 + y + t * m;
    }
    D.AddMultiple(((x % m) % w) * 4 + y, m, t);
  }

  /** Splitting the top digit off a shifted operand; `p` is the weight of the digit in `rest`. */
  lemma SplitTop(p: int, q: int, rest: int, n: int)
    requires 0 < p && 0 < q && 0 <= rest < 4 * p
    ensures var d := rest / p;
            && 0 <= d < 4 && (rest * q) / (p * q) == d
            && ((rest * q) % (p * q)) * 4 == (rest % p) * (4 * q)
            && n * (4 * p) + rest == (4 * n + d) * p + rest % p
  {
    var d, rest' := rest / p, rest % p;
    assert rest == d * p + rest';
    D.AtLeast(rest, p, 4);
    D.AtLeast(rest, p, 0);
    D.StrictlyMonotone(rest', p, q);
    D.Monotone(0, rest', q);
    assert rest * q == d * (p * q) + rest' * q by {
      assert (d * p + rest') * q == (d * p) * q + rest' * q;
      assert (d * p) * q == d * (p * q);
    }
    D.Unique(rest * q, p * q, d, rest' * q);
    assert n * (4 * p) + d * p == (4 * n + d) * p;
  }

  /** After `i` iterations `n` is the part of the operand read so far and register `a` holds the rest. */
  ghost predicate Reading(num: nat, w: nat, i: nat, n: nat, rest: nat, a: nat) {
    && i <= w && rest < Pow(2, 2 * (w - i))
    && num == n * Pow(2, 2 * (w - i)) + rest && a == rest * Pow(2, 2 * i)
  }

  /** Taking the operand's two top bits and shifting left moves them to the part read so far. */
  lemma OperandStep(num: nat, w: nat, i: nat, n: nat, rest: nat, a: nat)
    requires i < w && Reading(num, w, i, n, rest, a)
    ensures var top := Pow(2, 2 * w - 2);
            && 0 <= a / top < 4
            && Reading(num, w, i + 1, 4 * n + a / top, rest % Pow(2, 2 * (w - i - 1)), (a % top) * 4)
  {
    var p, q := Pow(2, 2 * (w - i - 1)), Pow(2, 2 * i);
    assert Pow(2, 2 * (w - i)) == 4 * p && Pow(2, 2 * (i + 1)) == 4 * q;
    PowAdd(2, 2 * (w - i - 1), 2 * i);
    assert 2 * (w - i - 1) + 2 * i == 2 * w - 2;
    SplitTop(p, q, rest, n);
  }

  /**
    The loop's state: `x` is the signed remainder that register `r` holds. The root has at most
    `w` bits and `r` has three more than a register that holds up to `c` == 2^(w-1) would.
   */
  ghost predicate AfterTrials(c: int, n: nat, q: nat, x: int, r: nat) {
    && 0 < c && IsRoot(n, q)
    && x == Remainder(n, q, x < 0) && 0 - 4 * c <= x < 4 * c
    && r == Register(x, 8 * c)
  }

  /** One iteration in wrapping registers does one exact trial. */
  lemma RegisterStep(c: int, n: nat, q: nat, x: int, r: nat, d: nat) returns (x': int)
    requires d < 4 && q < c && AfterTrials(c, n, q, x, r)
    ensures var neg := r >= 4 * c;
            var right, left := 4 * q + (if neg then 2 else 0) + 1, (r % (2 * c)) * 4 + d;
            var r' := Register(if neg then left + right else left - right, 8 * c);
            var q' := (q % c) * 2 + (if r' >= 4 * c then 0 else 1);
            && right < 8 * c && left < 8 * c
            && q' <= 2 * q + 1 && AfterTrials(c, 4 * n + d, q', x', r')
  {
    SignBit(x, 4 * c);
    var neg := x < 0;
    var y := if neg then 4 * q + 3 else -(4 * q + 1);
    Trial(n, q, neg, d);
    x' := 4 * x + d + y;
    ShiftKeeps(x, 2 * c, d + y);
    SignBit(x', 4 * c);
    D.Small(q, c);
  }

  /**
    The loop's body, with the registers' slices as remainders: `top` is 2^(2`w`-2) and `c` is
    2^(`w`-1), so `r` and the adder's inputs `left` and `right` are taken modulo 8`c`.
   */
  method Iterate(c: nat, top: nat, a: nat, q: nat, r: nat, ghost n: nat, ghost x: int)
    returns (a': nat, q': nat, r': nat, ghost x': int)
    requires 0 < top && a / top < 4
    requires q < c && AfterTrials(c, n, q, x, r)
    ensures a' == (a % top) * 4 && q' <= 2 * q + 1
    ensures AfterTrials(c, 4 * n + a / top, q', x', r')
  {
    x' := RegisterStep(c, n, q, x, r, a / top);
    var right := 4 * q + (if r >= 4 * c then 2 else 0) + 1;
    var left := (r % (2 * c)) * 4 + a / top;
    a' := (a % top) * 4;
    if r >= 4 * c {
      r' := Register(left + right, 8 * c);
    } else {
      r' := Register(left - right, 8 * c);
    }
    q' := (q % c) * 2 + if r' >= 4 * c then 0 else 1;
  }

  /** One time round the loop. */
  method Round(ghost num: nat, w: nat, i: nat, a: nat, q: nat, r: nat, ghost n: nat, ghost rest: nat, ghost x: int)
    returns (a': nat, q': nat, r': nat, ghost n': nat, ghost rest': nat, ghost x': int)
    requires i < w && q < Pow(2, i)
    requires Reading(num, w, i, n, rest, a) && AfterTrials(Pow(2, w - 1), n, q, x, r)
    ensures q' < Pow(2, i + 1)
    ensures Reading(num, w, i + 1, n', rest', a') && AfterTrials(Pow(2, w - 1), n', q', x', r')
  {
    OperandStep(num, w, i, n, rest, a);
    PowMonotone(2, i, w - 1);
    n', rest' := 4 * n + a / Pow(2, 2 * w - 2), rest % Pow(2, 2 * (w - i - 1));
    a', q', r', x' := Iterate(Pow(2, w - 1), Pow(2, 2 * w - 2), a, q, r, n, x);
  }

  /**
    The function as the hardware writes it, with a `w`-bit root, a 2`w`-bit operand and a
    (`w`+2)-bit wrapping remainder. It returns the integer square root of every operand.
   */
  method Sqrt(num: nat, w: nat) returns (root: nat)
    requires 0 < w && num < Pow(2, 2 * w)
    ensures IsRoot(num, root) && root < Pow(2, w)
  {
    var a: nat, q: nat, r: nat := num, 0, 0;
    ghost var n: nat, rest: nat, x: int := 0, num, 0;
    assert AfterTrials(Pow(2, w - 1), n, q, x, r);
    var i := 0;
    while i < w
      invariant 0 <= i <= w
      invariant Reading(num, w, i, n, rest, a)
      invariant AfterTrials(Pow(2, w - 1), n, q, x, r) && q < Pow(2, i)
    {
      a, q, r, n, rest, x := Round(num, w, i, a, q, r, n, rest, x);
      i := i + 1;
    }
    root := q;
  }
}
