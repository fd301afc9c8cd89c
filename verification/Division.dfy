/** Division and remainder by a variable divisor, in the few forms the other modules need. */
module Division {

  /** A larger quotient makes a product larger by at least the divisor. */
  lemma {:induction false} Apart(p: int, q: int, d: int)
    requires 0 < d && p > q
    ensures p * d >= q * d + d
    decreases p - q
  {
    assert p * d == (p - 1) * d + d;
    if p - 1 == q {
    } else {
      Apart(p - 1, q, d);
    }
  }

  lemma {:induction false} Monotone(a: int, b: int, c: int)
    requires a <= b && 0 <= c
    ensures a * c <= b * c
    decreases b - a
  {
    if a == b {
    } else {
      Monotone(a, b - 1, c);
      assert b * c == (b - 1) * c + c;
    }
  }

  lemma StrictlyMonotone(a: int, b: int, c: int)
    requires a < b && 0 < c
    ensures a * c < b * c
  {
    Apart(b, a, c);
  }

  lemma Unique(a: int, d: int, q: int, r: int)
    requires 0 <= r < d && a == q * d + r
    ensures a / d == q && a % d == r
  {
    var q0, r0 := a / d, a % d;
    assert a == q0 * d + r0 && 0 <= r0 < d;
    if q0 > q {
      Apart(q0, q, d);
    } else if q0 < q {
      Apart(q, q0, d);
    }
  }

  /** Adding whole multiples of the divisor. */
  lemma AddMultiple(a: int, d: int, k: int)
    requires 0 < d
    ensures (a + k * d) / d == a / d + k && (a + k * d) % d == a % d
  {
    assert a + k * d == (a / d + k) * d + a % d;
    Unique(a + k * d, d, a / d + k, a % d);
  }

  lemma Small(a: int, d: int)
    requires 0 <= a < d
    ensures a / d == 0 && a % d == a
  {
    Unique(a, d, 0, a);
  }

  lemma AtLeast(a: int, d: int, q: int)
    requires 0 < d
    ensures a / d >= q <==> q * d <= a
  {
    var k, r := a / d, a % d;
    assert a == k * d + r && 0 <= r < d;
    if k > q {
      Apart(k, q, d);
    } else if k < q {
      Apart(q, k, d);
    }
  }

  lemma TwoDigits(v: int, x: int, r: int, y: int, s: int, a: int, b: int)
    requires 0 <= r < a && 0 <= s < b && v == x * a + r && x == y * b + s
    ensures v == y * (a * b) + (s * a + r) && 0 <= s * a + r < a * b
  {
    Apart(b, s, a);
    Monotone(0, s, a);
    assert (y * b + s) * a == y * b * a + s * a;
    assert y * b * a == y * (a * b);
  }

  /** Dividing by a product is dividing twice, and the remainder splits the same way. */
  lemma Nest(v: int, a: int, b: int)
    requires 0 < a && 0 < b
    ensures v / (a * b) == v / a / b
    ensures v % (a * b) / a == v / a % b && v % (a * b) % a == v % a
  {
    var x, r := v / a, v % a;
    var y, s := x / b, x % b;
    TwoDigits(v, x, r, y, s, a, b);
    var m := a * b;
    Unique(v, m, y, s * a + r);
    Unique(s * a + r, a, s, r);
  }
}
