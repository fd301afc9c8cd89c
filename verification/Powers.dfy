/**
  Powers of a base, and the number of values of a 32-bit word.
 */
module Powers {
  import D = Division

  const WORD: int := 0x1_0000_0000

  function Pow(base: nat, n: nat): (p: nat)
    requires 1 <= base
    ensures p >= 1
  {
    if n == 0 then 1 else
      D.Monotone(1, Pow(base, n - 1), base);
      Pow(base, n - 1) * base
  }

  lemma {:induction false} PowAdd(base: nat, m: nat, n: nat)
    requires 1 <= base
    ensures Pow(base, m + n) == Pow(base, m) * Pow(base, n)
  {
    if m == 0 {
    } else {
      PowAdd(base, m - 1, n);
      var p, q := Pow(base, m - 1), Pow(base, n);
      assert (p * q) * base == (p * base) * q;
    }
  }

  lemma {:induction false} PowMonotone(base: nat, m: nat, n: nat)
    requires 1 <= base && m <= n
    ensures Pow(base, m) <= Pow(base, n)
    decreases n
  {
    if m == n {
    } else {
      PowMonotone(base, m, n - 1);
      D.Monotone(1, base, Pow(base, n - 1));
      assert Pow(base, n - 1) * base == base * Pow(base, n - 1);
    }
  }
}
