/**
  The pipelined envelope detector: two signed multipliers, an adder, the square root and a final
  12-bit slice, one register after each. Every edge takes a new sample.
 */
module AMDemodulator {
  import opened Powers
  import opened SquareRoot

  type Signed12 = x: int | -2048 <= x < 2048
  type Signed24 = x: int | -0x80_0000 <= x < 0x80_0000
  type Word12 = x: int | 0 <= x < 0x1000
  type Word16 = x: int | 0 <= x < 0x1_0000
  type Word32 = x: int | 0 <= x < WORD

  datatype Sample = Sample(i: Signed12, q: Signed12)

  /** What one multiplier holds: its registered operands, the pipeline register, the output register. */
  datatype Stages = Stages(a: Signed12, b: Signed12, pipe: Signed24, result: Signed24)

  /** Everything the module holds between two edges. */
  datatype Registers = Registers(dataA: Signed12, dataB: Signed12, dataC: Signed12, dataD: Signed12,
                                 m1: Stages, m2: Stages, iSquare: Word32, wide: Word16, dOut: Word12)

  lemma ProductFits(a: Signed12, b: Signed12)
    ensures -0x40_0000 <= a * b <= 0x40_0000
  {
    if 0 <= b {
      D.Monotone(a, 2048, b);
      D.Monotone(-2048, a, b);
    } else {
      D.Monotone(a, 2048, 0 - b);
      D.Monotone(-2048, a, 0 - b);
      assert a * (0 - b) == 0 - a * b;
    }
  }

  ghost function Root(n: nat): (q: nat)
    ensures IsRoot(n, q)
  {
    if n == 0 then 0 else
      var q := Root(n / 4);
      Trial(n / 4, q, false, n % 4);
      if (2 * q + 1) * (2 * q + 1) <= n then 2 * q + 1 else 2 * q
  }

  lemma RootFits(n: nat, q: nat, p: nat)
    requires IsRoot(n, q) && n < p * p
    ensures q < p
  {
    if p <= q {
      Squares(p, q);
    }
  }

  ghost function Multiplied(m: Stages, a: Signed12, b: Signed12): Stages {
    ProductFits(m.a, m.b);
    Stages(a, b, m.a * m.b, m.pipe)
  }

  datatype Operands = Operands(a: Signed12, b: Signed12)

  /** What a multiplier holds after taking new operands on every edge. */
  ghost function Fed(m: Stages, ops: seq<Operands>): Stages {
    if ops == [] then m else
      var last := ops[|ops| - 1];
      Multiplied(Fed(m, ops[..|ops| - 1]), last.a, last.b)
  }

  /** On every edge the product of the operands taken two edges before is out. */
  lemma ProductAfterThree(m: Stages, ops: seq<Operands>)
    requires |ops| >= 3
    ensures Fed(m, ops).result == ops[|ops| - 3].a * ops[|ops| - 3].b
  {
    var k := |ops| - 3;
    var first := ops[..k + 1];
    assert ops[..k + 2][..k + 1] == first && ops[..k + 2][k + 1] == ops[k + 1];
    assert Fed(m, first).a == ops[k].a && Fed(m, first).b == ops[k].b;
    assert Fed(m, ops[..k + 2]).pipe == ops[k].a * ops[k].b;
  }

  /** One rising edge: every register takes a value computed from the old ones. */
  ghost function Edge(r: Registers, s: Sample): Registers {
    RootFits(r.iSquare, Root(r.iSquare), 0x1_0000);
    Registers(s.i, s.i, s.q, s.q,
              Multiplied(r.m1, r.dataA, r.dataB), Multiplied(r.m2, r.dataC, r.dataD),
              (r.m1.result + r.m2.result) % WORD, Root(r.iSquare), r.wide % 0x1000)
  }

  ghost function Run(r: Registers, samples: seq<Sample>): Registers {
    if samples == [] then r else Edge(Run(r, samples[..|samples| - 1]), samples[|samples| - 1])
  }

  function Power(s: Sample): (p: nat)
    ensures p <= 0x80_0000
  {
    ProductFits(s.i, s.i);
    ProductFits(s.q, s.q);
    Square(s.i);
    Square(s.q);
    s.i * s.i + s.q * s.q
  }

  lemma Square(x: int)
    ensures x * x >= 0
  {
    if 0 <= x {
      D.Monotone(0, x, x);
    } else {
      D.Monotone(0, 0 - x, 0 - x);
      assert (0 - x) * (0 - x) == x * x;
    }
  }

  /** The sample taken `age` edges before the last one. */
  function Ago(h: seq<Sample>, age: nat): Sample
    requires age < |h|
  {
    h[|h| - 1 - age]
  }

  /** Which sample each register belongs to, once the register has been reached. */
  ghost predicate InStep(r: Registers, h: seq<Sample>) {
    && (|h| > 0 ==> r.dataA == r.dataB == Ago(h, 0).i && r.dataC == r.dataD == Ago(h, 0).q)
    && (|h| > 1 ==> r.m1.a == r.m1.b == Ago(h, 1).i && r.m2.a == r.m2.b == Ago(h, 1).q)
    && (|h| > 2 ==> r.m1.pipe == Ago(h, 2).i * Ago(h, 2).i && r.m2.pipe == Ago(h, 2).q * Ago(h, 2).q)
    && (|h| > 3 ==> r.m1.result == Ago(h, 3).i * Ago(h, 3).i && r.m2.result == Ago(h, 3).q * Ago(h, 3).q)
    && (|h| > 4 ==> r.iSquare == Power(Ago(h, 4)))
    && (|h| > 5 ==> IsRoot(Power(Ago(h, 5)), r.wide))
    && (|h| > 6 ==> IsRoot(Power(Ago(h, 6)), r.dOut))
  }

  lemma EdgeInStep(r: Registers, h: seq<Sample>, s: Sample)
    requires InStep(r, h)
    ensures InStep(Edge(r, s), h + [s])
  {
    var h' := h + [s];
    forall age: nat | age < |h|
      ensures Ago(h', age + 1) == Ago(h, age)
    {
    }
    assert Ago(h', 0) == s;
    if |h| > 0 { assert Ago(h', 1) == Ago(h, 0); }
    if |h| > 1 { assert Ago(h', 2) == Ago(h, 1); }
    if |h| > 2 { assert Ago(h', 3) == Ago(h, 2); }
    if |h| > 3 { assert Ago(h', 4) == Ago(h, 3); D.Small(Power(Ago(h, 3)), WORD); }
    if |h| > 4 { assert Ago(h', 5) == Ago(h, 4); }
    if |h| > 5 {
      assert Ago(h', 6) == Ago(h, 5);
      RootFits(Power(Ago(h, 5)), r.wide, 0x1000);
      D.Small(r.wide, 0x1000);
    }
  }

  lemma {:induction false} RunInStep(r: Registers, h: seq<Sample>)
    ensures InStep(Run(r, h), h)
  {
    if h == [] {
    } else {
      var before := h[..|h| - 1];
      RunInStep(r, before);
      EdgeInStep(Run(r, before), before, h[|h| - 1]);
      assert before + [h[|h| - 1]] == h;
    }
  }

  lemma WordSize()
    ensures Pow(2, 32) == WORD && Pow(2, 16) == 0x1_0000
  {
    assert Pow(2, 4) == 16;
    PowAdd(2, 4, 4);
    PowAdd(2, 8, 8);
    PowAdd(2, 16, 16);
  }

  /**
    Whatever the registers hold at power-up, the sample taken at edge `t` is at the output after
    edge `t` + 6, as the exact integer part of its magnitude.
   */
  lemma EnvelopeIsExact(r: Registers, h: seq<Sample>, t: nat)
    requires t + 6 < |h|
    ensures IsRoot(h[t].i * h[t].i + h[t].q * h[t].q, Run(r, h[..t + 7]).dOut)
  {
    RunInStep(r, h[..t + 7]);
    assert Ago(h[..t + 7], 6) == h[t];
  }

  class Multiplier {
    var a: Signed12
    var b: Signed12
    var pipe: Signed24
    var result: Signed24

    ghost function Contents(): Stages
      reads this
    {
      Stages(a, b, pipe, result)
    }

    method Clock(dataA: Signed12, dataB: Signed12)
      modifies this
      ensures Contents() == Multiplied(old(Contents()), dataA, dataB)
    {
      ProductFits(a, b);
      a, b, pipe, result := dataA, dataB, a * b, pipe;
    }
  }

  class Demodulator {
    var dataA: Signed12
    var dataB: Signed12
    var dataC: Signed12
    var dataD: Signed12
    var iSquare: Word32
    var wide: Word16
    var dOut: Word12
    const multiplier1: Multiplier
    const multiplier2: Multiplier

    constructor ()
      ensures multiplier1 != multiplier2 && fresh(multiplier1) && fresh(multiplier2)
    {
      multiplier1 := new Multiplier;
      multiplier2 := new Multiplier;
    }

    ghost function Contents(): Registers
      reads this, multiplier1, multiplier2
    {
      Registers(dataA, dataB, dataC, dataD, multiplier1.Contents(), multiplier2.Contents(),
                iSquare, wide, dOut)
    }

    /** The assignments do not block: the multipliers' old results and operands are what counts. */
    method Clock(iIn: Signed12, qIn: Signed12)
      requires multiplier1 != multiplier2
      modifies this, multiplier1, multiplier2
      ensures Contents() == Edge(old(Contents()), Sample(iIn, qIn))
    {
      var sum := multiplier1.result + multiplier2.result;
      multiplier1.Clock(dataA, dataB);
      multiplier2.Clock(dataC, dataD);
      WordSize();
      var root := Sqrt(iSquare, 16);
      RootUnique(iSquare, root, Root(iSquare));
      dataA, dataB, dataC, dataD := iIn, iIn, qIn, qIn;
      iSquare, wide, dOut := sum % WORD, root, wide % 0x1000;
    }
  }
}
