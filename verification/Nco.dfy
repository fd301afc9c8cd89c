/**
  The numerically controlled oscillator: a 64-bit phase accumulator with two square-wave outputs,
  and the calculator that turns a frequency into the accumulator's increment.
 */
module Nco {
  import D = Division

  const FULL: int := 0x1_0000_0000_0000_0000
  const HALF: int := 0x8000_0000_0000_0000
  const QUARTER: int := 0x4000_0000_0000_0000

  type Word64 = x: int | 0 <= x < FULL

  function Bit63(phase: Word64): bool {
    phase / HALF == 1
  }

  function Bit62(phase: Word64): bool {
    phase / QUARTER % 2 == 1
  }

  function Sin(phase: Word64): nat {
    if Bit63(phase) then 0 else 1
  }

  function Cos(phase: Word64): nat {
    if Bit63(phase) != Bit62(phase) then 0 else 1
  }

  function Advance(phase: Word64, inc: int): Word64 {
    (phase + inc) % FULL
  }

  function Sum(incs: seq<Word64>): nat {
    if incs == [] then 0 else Sum(incs[..|incs| - 1]) + incs[|incs| - 1]
  }

  class Oscillator {
    var phase: Word64
    ghost var start: Word64        // the content at power-up, which nothing sets
    ghost var incs: seq<Word64>    // the increments of all edges so far

    /** The accumulator holds its first content plus everything added since, without the whole periods. */
    ghost predicate Valid()
      reads this
    {
      phase == (start + Sum(incs)) % FULL
    }

    constructor (content: Word64)
      ensures Valid() && phase == start == content && incs == []
    {
      phase, start, incs := content, content, [];
      D.Small(content, FULL);
    }

    /** The outputs depend on the accumulator only; the increment may change from edge to edge. */
    method Clock(inc: Word64)
      requires Valid()
      modifies this
      ensures Valid() && start == old(start) && incs == old(incs) + [inc]
      ensures phase == Advance(old(phase), inc)
    {
      OneMoreEdge(start, incs, inc);
      phase := Advance(phase, inc);
      incs := incs + [inc];
    }

    function SinOut(): nat
      reads this
    {
      Sin(phase)
    }

    function CosOut(): nat
      reads this
    {
      Cos(phase)
    }
  }

  lemma OneMoreEdge(start: Word64, incs: seq<Word64>, inc: Word64)
    ensures Advance((start + Sum(incs)) % FULL, inc) == (start + Sum(incs + [inc])) % FULL
  {
    assert (incs + [inc])[..|incs|] == incs;
    var total := start + Sum(incs);
    var k := total / FULL;
    assert total == k * FULL + total % FULL;
    D.AddMultiple(total % FULL + inc, FULL, k);
  }

  /** The cosine output runs a quarter period ahead of the sine output. */
  lemma Quadrature(phase: Word64)
    ensures Cos(phase) == Sin(Advance(phase, QUARTER))
  {
    var q := phase / QUARTER;
    assert phase == q * QUARTER + phase % QUARTER && 0 <= q < 4;
  }

  /** The phase after `t` edges with a constant increment. */
  function Phase(start: Word64, inc: Word64, t: nat): Word64 {
    if t == 0 then start else Advance(Phase(start, inc, t - 1), inc)
  }

  predicate Wraps(phase: Word64, inc: Word64) {
    phase + inc >= FULL
  }

  /** The sine output goes from 0 to 1 on this edge. */
  predicate Rises(phase: Word64, inc: Word64) {
    Sin(phase) == 0 && Sin(Advance(phase, inc)) == 1
  }

  function RisingEdges(start: Word64, inc: Word64, t: nat): nat {
    if t == 0 then 0 else
      RisingEdges(start, inc, t - 1) + if Rises(Phase(start, inc, t - 1), inc) then 1 else 0
  }

  lemma RisesIsWrap(phase: Word64, inc: Word64)
    requires inc <= HALF
    ensures Rises(phase, inc) <==> Wraps(phase, inc)
  {
    if Wraps(phase, inc) {
      D.Unique(phase + inc, FULL, 1, phase + inc - FULL);
    } else {
      D.Small(phase + inc, FULL);
    }
  }

  /**
    An output edge is a wrap of the accumulator on every phase exactly when the increment is at most
    half the accumulator's range.
   */
  lemma RisesIsWrapIff(inc: Word64)
    ensures (forall phase: Word64 :: Rises(phase, inc) <==> Wraps(phase, inc)) <==> inc <= HALF
  {
    if inc <= HALF {
      forall phase: Word64
        ensures Rises(phase, inc) <==> Wraps(phase, inc)
      {
        RisesIsWrap(phase, inc);
      }
    } else {
      D.Unique(FULL - 1 + inc, FULL, 1, inc - 1);
      assert Wraps(FULL - 1, inc) && !Rises(FULL - 1, inc);
    }
  }

  /** The total phase splits into the wraps counted so far and the accumulator's content. */
  lemma {:induction false} EdgesAreWraps(start: Word64, inc: Word64, t: nat)
    requires inc <= HALF
    ensures start + t * inc == RisingEdges(start, inc, t) * FULL + Phase(start, inc, t)
  {
    if t == 0 {
    } else {
      EdgesAreWraps(start, inc, t - 1);
      var phase := Phase(start, inc, t - 1);
      RisesIsWrap(phase, inc);
      assert t * inc == (t - 1) * inc + inc;
      if Wraps(phase, inc) {
        D.Unique(phase + inc, FULL, 1, phase + inc - FULL);
      } else {
        D.Small(phase + inc, FULL);
      }
    }
  }

  lemma EdgeCount(start: Word64, inc: Word64, t: nat)
    requires inc <= HALF
    ensures RisingEdges(start, inc, t) == (start + t * inc) / FULL
  {
    EdgesAreWraps(start, inc, t);
    D.Unique(start + t * inc, FULL, RisingEdges(start, inc, t), Phase(start, inc, t));
  }

  /** `t` edges with one increment, counting where the sine output goes up. */
  method Run(o: Oscillator, inc: Word64, t: nat) returns (edges: nat)
    requires o.Valid()
    modifies o
    ensures o.Valid() && o.phase == Phase(old(o.phase), inc, t)
    ensures edges == RisingEdges(old(o.phase), inc, t)
    ensures inc <= HALF ==> edges == (old(o.phase) + t * inc) / FULL
    ensures o.CosOut() == Sin(Advance(o.phase, QUARTER))
  {
    edges := 0;
    var i := 0;
    while i < t
      invariant 0 <= i <= t && o.Valid() && o.phase == Phase(old(o.phase), inc, i)
      invariant edges == RisingEdges(old(o.phase), inc, i)
    {
      var before := o.SinOut();
      o.Clock(inc);
      if before == 0 && o.SinOut() == 1 {
        edges := edges + 1;
      }
      i := i + 1;
    }
    Quadrature(o.phase);
    if inc <= HALF {
      EdgeCount(old(o.phase), inc, t);
    }
  }

  /** The calculator's increment for a frequency of `f` under a clock of `clock`. */
  function Increment(f: nat, clock: nat): nat
    requires 0 < clock
  {
    D.AtLeast(FULL * f, clock, 0);
    FULL * f / clock
  }

  /** Every frequency up to half the clock, and no other, gets an increment in the safe range. */
  lemma IncrementInRangeIff(f: nat, clock: nat)
    requires 0 < clock <= HALF
    ensures Increment(f, clock) <= HALF <==> 2 * f <= clock
  {
    D.AtLeast(FULL * f, clock, HALF + 1);
  }

  lemma {:induction false} RealProduct(a: nat, b: int)
    ensures (a * b) as real == a as real * b as real
  {
    if a == 0 {
    } else {
      RealProduct(a - 1, b);
      assert a * b == (a - 1) * b + b;
      assert a as real * b as real == (a - 1) as real * b as real + b as real;
    }
  }

  lemma Cancel(x: real, y: real, c: real)
    requires 0.0 < c && x * c < y * c
    ensures x < y
  {
  }

  lemma RealMonotone(x: real, y: real, c: real)
    requires x <= y && 0.0 <= c
    ensures c * x <= c * y
  {
  }

  /** `i` is the whole part of `full` * `f` / `c`. */
  lemma WholePart(full: real, f: real, c: real, i: real, part: real)
    requires full * f == c * i + part && 0.0 <= part < c
    ensures full * (f / c) - 1.0 < i <= full * (f / c)
  {
    var ratio := f / c;
    var d := full * ratio - i;
    assert d * c == part by {
      assert ratio * c == f;
      assert (full * ratio) * c == full * (ratio * c);
    }
    Cancel(d, 1.0, c);
    if d < 0.0 {
      Cancel(0.0, 0.0 - d, c);
    }
  }

  /** Rounding the increment down loses less than one unit of phase per edge. */
  lemma IncrementError(f: nat, clock: nat)
    requires 0 < clock
    ensures var ideal := FULL as real * (f as real / clock as real);
            ideal - 1.0 < Increment(f, clock) as real <= ideal
  {
    var inc := Increment(f, clock);
    var part := FULL * f % clock;
    assert FULL * f == clock * inc + part;
    RealProduct(clock, inc);
    RealProduct(f, FULL);
    WholePart(FULL as real, f as real, clock as real, inc as real, part as real);
  }

  lemma Above(full: real, ideal: real, edges: real, x: real)
    requires edges * full == x && x < full * ideal + full && 0.0 < full
    ensures edges < ideal + 1.0
  {
    assert (ideal + 1.0) * full == full * ideal + full;
    Cancel(edges, ideal + 1.0, full);
  }

  lemma Below(full: real, ideal: real, t: real, edges: real, x: real)
    requires edges * full == x && full * ideal - full - t < x && 0.0 < full
    ensures ideal - 1.0 - t / full < edges
  {
    assert (ideal - 1.0 - t / full) * full == full * ideal - full - t;
    Cancel(ideal - 1.0 - t / full, edges, full);
  }

  lemma EdgeBounds(full: real, start: real, inc: real, ratio: real, t: real, edges: real, phase: real)
    requires start + t * inc == edges * full + phase
    requires 0.0 <= start < full && 0.0 <= phase < full && 0.0 <= t
    requires full * ratio - 1.0 <= inc <= full * ratio
    ensures t * ratio - 1.0 - t / full < edges < t * ratio + 1.0
  {
    var ideal, run := t * ratio, t * inc;
    var scaled := full * ideal;
    assert run <= scaled by {
      RealMonotone(inc, full * ratio, t);
      assert t * (full * ratio) == full * (t * ratio);
    }
    assert scaled - t <= run by {
      RealMonotone(full * ratio - 1.0, inc, t);
      assert t * (full * ratio - 1.0) == full * (t * ratio) - t;
    }
    Above(full, ideal, edges, start - phase + run);
    Below(full, ideal, t, edges, start - phase + run);
  }

  lemma RealSplit(start: int, t: nat, inc: int, edges: nat, full: int, phase: int)
    requires start + t * inc == edges * full + phase
    ensures start as real + t as real * inc as real == edges as real * full as real + phase as real
  {
    RealProduct(t, inc);
    RealProduct(edges, full);
    var a, b := t * inc, edges * full;
    assert (start + a) as real == (b + phase) as real;
  }

  lemma RunBounds(full: int, start: int, inc: int, t: nat, edges: nat, phase: int, ratio: real)
    requires start + t * inc == edges * full + phase && 0 <= start < full && 0 <= phase < full
    requires full as real * ratio - 1.0 <= inc as real <= full as real * ratio
    ensures t as real * ratio - 1.0 - t as real / full as real < edges as real < t as real * ratio + 1.0
  {
    RealSplit(start, t, inc, edges, full, phase);
    EdgeBounds(full as real, start as real, inc as real, ratio, t as real, edges as real, phase as real);
  }

  /**
    Over any run, from any phase, the rising edges of the output stay within one period, and within
    one part in 2^64 per clock edge, of the frequency asked for.
   */
  lemma FrequencyIsExact(start: Word64, f: nat, clock: nat, t: nat, ratio: real)
    requires 0 < clock && Increment(f, clock) <= HALF && ratio == f as real / clock as real
    ensures var edges, ideal := RisingEdges(start, Increment(f, clock), t) as real, t as real * ratio;
            ideal - 1.0 - t as real / FULL as real < edges < ideal + 1.0
  {
    var inc := Increment(f, clock);
    var edges, phase := RisingEdges(start, inc, t), Phase(start, inc, t);
    assert FULL as real * ratio - 1.0 <= inc as real <= FULL as real * ratio by {
      IncrementError(f, clock);
    }
    assert start + t * inc == edges * FULL + phase by {
      EdgesAreWraps(start, inc, t);
    }
    RunBounds(FULL, start, inc, t, edges, phase, ratio);
  }

  /** The oscillator tuned by the calculator: the rising edges its output is seen to make. */
  method RunTuned(o: Oscillator, f: nat, clock: nat, t: nat, ghost ratio: real) returns (edges: nat)
    requires o.Valid() && 0 < clock && Increment(f, clock) <= HALF && ratio == f as real / clock as real
    modifies o
    ensures t as real * ratio - 1.0 - t as real / FULL as real < edges as real < t as real * ratio + 1.0
  {
    FrequencyIsExact(o.phase, f, clock, t, ratio);
    edges := Run(o, Increment(f, clock), t);
  }
}
