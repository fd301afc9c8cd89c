/**
  The time of day: the clock's ticks turned into seconds and microseconds on top of the reset time,
  and the setting of that reset time. Seconds and microseconds are 32-bit signed words.
 */
module TimeOfDay {
  import D = Division
  import opened Powers

  const US := 1_000_000
  const ENOSYS := 88
  const ENOTSUP := 134

  type Word = x: int | 0 <= x < WORD

  datatype Timeval = Timeval(sec: int, usec: int)
  datatype Timezone = Timezone(minutesWest: int, dstTime: int)

  /** The value that a 32-bit signed word keeps of `x`. */
  function Wrap(x: int): (r: int)
    ensures -0x8000_0000 <= r < 0x8000_0000
  {
    (x + 0x8000_0000) % WORD - 0x8000_0000
  }

  predicate Fits(x: int) {
    -0x8000_0000 <= x < 0x8000_0000
  }

  predicate InWords(t: Timeval) {
    Fits(t.sec) && Fits(t.usec)
  }

  lemma WrapOfWrap(x: int, y: int)
    ensures Wrap(Wrap(x) + y) == Wrap(x + y)
    ensures Fits(x) ==> Wrap(x) == x
  {
    var a := x + 0x8000_0000;
    var k := a / WORD;
    assert a % WORD + y == a + y + (0 - k) * WORD;
    D.AddMultiple(a + y, WORD, 0 - k);
  }

  function Total(t: Timeval): int {
    t.sec * US + t.usec
  }

  /** Microseconds per tick, rounded down. */
  function TickLength(rate: Word): (u: nat)
    requires 0 < rate
    ensures u <= US
  {
    D.AtLeast(US, rate, 0);
    D.AtLeast(US, rate, US + 1);
    D.Monotone(1, rate, US + 1);
    US / rate
  }

  /** The reset time plus whole seconds and the rest in microseconds. */
  function Raw(reset: Timeval, n: Word, rate: Word): Timeval
    requires 0 < rate
  {
    Timeval(Wrap(reset.sec + n / rate), Wrap(reset.usec + n * TickLength(rate) % US))
  }

  /** What the two loops make of a time: carry between the fields, or zero if it lies before the epoch. */
  function Settled(t: Timeval): Timeval {
    if t.usec < 0 && t.sec + t.usec / US < 0 then Timeval(0, 0)
    else Timeval(Wrap(t.sec + t.usec / US), t.usec % US)
  }

  function Reading(reset: Timeval, n: Word, rate: Word): Timeval
    requires 0 < rate
  {
    Settled(Raw(reset, n, rate))
  }

  /** The reset time that a setting stores; its product is taken in 32 bits. */
  function ResetFor(t: Timeval, n: Word, rate: Word): Timeval
    requires 0 < rate
  {
    Timeval(Wrap(t.sec - n / rate), Wrap(t.usec - n * TickLength(rate) % WORD % US))
  }

  class Calendar {
    var reset: Timeval
    var zone: Timezone
    var errno: int

    constructor ()
      ensures reset == Timeval(0, 0) && zone == Timezone(0, 0)
    {
      reset, zone, errno := Timeval(0, 0), Timezone(0, 0), 0;
    }

    /** `tv` and `tz` are what the caller's structures hold, `wantsZone` that it passed the second. */
    method Get(n: Word, rate: Word, tv: Timeval, tz: Timezone, wantsZone: bool)
      returns (rc: int, tv': Timeval, tz': Timezone)
      ensures rate == 0 ==> rc == -ENOTSUP && tv' == tv && tz' == tz
      ensures rate > 0 ==> rc == 0 && tv' == Reading(reset, n, rate) && tz' == if wantsZone then zone else tz
    {
      tv', tz' := tv, tz;
      if rate != 0 {
        tv' := Timeval(Wrap(reset.sec + n / rate), Wrap(reset.usec + n * (US / rate) % US));
        tv' := Normalise(tv');
        if wantsZone {
          tz' := zone;
        }
        return 0, tv', tz';
      }
      rc := -ENOTSUP;
    }

    static method Normalise(t: Timeval) returns (r: Timeval)
      requires InWords(t)
      ensures r == Settled(t)
    {
      var sec, usec := t.sec, t.usec;
      while usec < 0
        invariant sec == t.sec || sec >= 0
        invariant Fits(sec) && Settled(Timeval(sec, usec)) == Settled(t)
        decreases 0 - usec
      {
        if sec <= 0 {
          Carry(usec);
          sec := 0;
          usec := 0;
          break;
        } else {
          Borrow(sec, usec);
          sec := sec - 1;
          usec := usec + US;
        }
      }
      while usec >= US
        invariant usec >= 0 && Fits(sec) && Settled(Timeval(sec, usec)) == Settled(t)
      {
        CarryOne(sec, usec);
        sec := Wrap(sec + 1);
        usec := usec - US;
      }
      D.Small(usec, US);
      WrapOfWrap(sec, 0);
      r := Timeval(sec, usec);
    }

    /** Sets the time. An immediate reading returns it exactly when the two products agree, or at the epoch. */
    method Set(n: Word, rate: Word, t: Timeval, tz: Timezone) returns (rc: int)
      modifies this
      ensures rate == 0 ==> rc == -1 && errno == ENOSYS && reset == old(reset) && zone == old(zone)
      ensures rate > 0 ==> rc == 0 && errno == old(errno) && reset == ResetFor(t, n, rate) && zone == tz
      ensures rate > 0 && Normal(t) ==>
                (Reading(reset, n, rate) == t <==>
                 SetterPart(n, rate) == GetterPart(n, rate) ||
                 (t == Timeval(0, 0) && GetterPart(n, rate) < SetterPart(n, rate)))
      ensures rate > 0 && Normal(t) && n * TickLength(rate) < WORD ==> Reading(reset, n, rate) == t
    {
      if rate != 0 {
        reset := Timeval(Wrap(t.sec - n / rate), Wrap(t.usec - n * (US / rate) % WORD % US));
        zone := tz;
        ProductsAgreeIff(n, rate);
        if Normal(t) {
          SetThenGetIff(t, n, rate);
        }
        return 0;
      }
      errno := ENOSYS;
      rc := -1;
    }
  }

  lemma Carry(usec: int)
    requires usec < 0
    ensures usec / US < 0
  {
    D.AtLeast(usec, US, 0);
  }

  lemma Borrow(sec: int, usec: int)
    requires usec < 0 < sec && Fits(sec)
    ensures Settled(Timeval(sec - 1, usec + US)) == Settled(Timeval(sec, usec))
  {
    D.AddMultiple(usec, US, 1);
    if usec + US >= 0 {
      D.AtLeast(usec + US, US, 0);
    }
  }

  lemma CarryOne(sec: int, usec: int)
    requires usec >= US
    ensures Settled(Timeval(Wrap(sec + 1), usec - US)) == Settled(Timeval(sec, usec))
  {
    D.AddMultiple(usec, US, -1);
    WrapOfWrap(sec + 1, usec / US - 1);
  }

  /** A settled time has its microseconds in range. */
  lemma SettledIsNormal(t: Timeval)
    ensures 0 <= Settled(t).usec < US && Fits(Settled(t).sec)
  {
  }

  predicate BeforeEpoch(t: Timeval) {
    t.usec < 0 && t.sec + t.usec / US < 0
  }

  /** Carrying keeps the time, unless it lies before the epoch or past the last representable second. */
  lemma SettledKeepsTotal(t: Timeval)
    requires !BeforeEpoch(t) && Fits(t.sec + t.usec / US)
    ensures Total(Settled(t)) == Total(t)
  {
    WrapOfWrap(t.sec + t.usec / US, 0);
  }

  /** The microseconds that `n` ticks are taken for. */
  function Elapsed(n: Word, rate: Word): int
    requires 0 < rate
  {
    n / rate * US + n * TickLength(rate) % US
  }

  /** At a rate that divides a million the whole seconds and the rest add up to the ticks. */
  lemma TicksAddUp(n: Word, rate: Word)
    requires 0 < rate && US % rate == 0
    ensures Elapsed(n, rate) == n * TickLength(rate)
  {
    var u := TickLength(rate);
    var q, part := n / rate, n % rate;
    assert US == u * rate;
    assert n == q * rate + part;
    assert n * u == q * US + part * u by {
      assert (q * rate + part) * u == q * rate * u + part * u;
      assert q * rate * u == q * (rate * u);
    }
    D.StrictlyMonotone(part, rate, u);
    D.Monotone(0, part, u);
    D.Unique(n * u, US, q, part * u);
  }

  /** Only such a rate makes every reading exact: `n` ticks are `n` / `rate` seconds. */
  lemma ExactIff(rate: Word)
    requires 0 < rate
    ensures (forall n: Word :: Elapsed(n, rate) * rate == n * US) <==> US % rate == 0
  {
    var u := TickLength(rate);
    if US % rate == 0 {
      assert US == u * rate;
      forall n: Word
        ensures Elapsed(n, rate) * rate == n * US
      {
        TicksAddUp(n, rate);
        assert n * u * rate == n * (u * rate);
      }
    } else {
      assert US == u * rate + US % rate;
      assert rate > 1;
      D.Small(1, rate);
      assert u < US by {
        D.AtLeast(US, rate, US);
        D.StrictlyMonotone(1, rate, US);
      }
      D.Small(u, US);
      assert Elapsed(1, rate) == u;
      assert Elapsed(1, rate) * rate != 1 * US;
    }
  }

  lemma RawTotal(reset: Timeval, n: Word, rate: Word)
    requires 0 < rate && InWords(reset)
    requires Fits(reset.sec + n / rate) && Fits(reset.usec + n * TickLength(rate) % US)
    ensures Total(Raw(reset, n, rate)) == Total(reset) + Elapsed(n, rate)
  {
    WrapOfWrap(reset.sec + n / rate, 0);
    WrapOfWrap(reset.usec + n * TickLength(rate) % US, 0);
  }

  /** A reading that neither clamps nor leaves the 32-bit words. */
  predicate Clean(reset: Timeval, n: Word, rate: Word)
    requires 0 < rate
  {
    && InWords(reset)
    && Fits(reset.sec + n / rate) && Fits(reset.usec + n * TickLength(rate) % US)
    && var t := Raw(reset, n, rate);
       !BeforeEpoch(t) && Fits(t.sec + t.usec / US)
  }

  /** Two such readings differ by exactly the time of the ticks between them. */
  lemma ReadingsDifferExactly(reset: Timeval, n1: Word, n2: Word, rate: Word)
    requires 0 < rate && US % rate == 0 && Clean(reset, n1, rate) && Clean(reset, n2, rate)
    ensures Total(Reading(reset, n2, rate)) - Total(Reading(reset, n1, rate)) == (n2 - n1) * TickLength(rate)
  {
    var u := TickLength(rate);
    SettledKeepsTotal(Raw(reset, n1, rate));
    SettledKeepsTotal(Raw(reset, n2, rate));
    RawTotal(reset, n1, rate);
    RawTotal(reset, n2, rate);
    TicksAddUp(n1, rate);
    TicksAddUp(n2, rate);
    assert (n2 - n1) * u == n2 * u - n1 * u;
  }

  /**
    What a reading is, for every reset time, tick count and rate: the reset time plus the whole seconds
    and the rest in microseconds, with the carry between the fields, or zero before the epoch.
   */
  lemma ReadingMeans(reset: Timeval, n: Word, rate: Word)
    requires 0 < rate
    ensures var sec, usec := Wrap(reset.sec + n / rate), Wrap(reset.usec + n * (1_000_000 / rate) % 1_000_000);
            var r := Reading(reset, n, rate);
            if usec < 0 && sec + usec / 1_000_000 < 0 then r == Timeval(0, 0)
            else
              && 0 <= r.usec < 1_000_000
              && (Fits(sec + usec / 1_000_000) ==> r.sec * 1_000_000 + r.usec == sec * 1_000_000 + usec)
  {
    var t := Raw(reset, n, rate);
    SettledIsNormal(t);
    if !BeforeEpoch(t) && Fits(t.sec + t.usec / US) {
      SettledKeepsTotal(t);
    }
  }

  predicate Normal(t: Timeval) {
    Fits(t.sec) && 0 <= t.usec < US
  }

  /** The microseconds of `n` ticks as the setter takes them, and as the getter does. */
  function SetterPart(n: Word, rate: Word): (a: nat)
    requires 0 < rate
    ensures a < US
  {
    n * TickLength(rate) % WORD % US
  }

  function GetterPart(n: Word, rate: Word): (b: nat)
    requires 0 < rate
    ensures b < US
  {
    n * TickLength(rate) % US
  }

  /** A reading at the tick of a setting sees the two products' difference. */
  lemma ReadBack(t: Timeval, n: Word, rate: Word)
    requires 0 < rate && Normal(t)
    ensures Raw(ResetFor(t, n, rate), n, rate) ==
            Timeval(t.sec, t.usec - SetterPart(n, rate) + GetterPart(n, rate))
  {
    var a, b := SetterPart(n, rate), GetterPart(n, rate);
    WrapOfWrap(t.sec - n / rate, n / rate);
    WrapOfWrap(t.sec, 0);
    WrapOfWrap(t.usec - a, b);
    WrapOfWrap(t.usec - a + b, 0);
  }

  /**
    Getting the time at the tick it was set returns what was set exactly when the two products agree,
    or when the epoch itself was set and the getter's is the smaller.
   */
  lemma SetThenGetIff(t: Timeval, n: Word, rate: Word)
    requires 0 < rate && Normal(t)
    ensures Reading(ResetFor(t, n, rate), n, rate) == t <==>
            SetterPart(n, rate) == GetterPart(n, rate) ||
            (t == Timeval(0, 0) && GetterPart(n, rate) < SetterPart(n, rate))
  {
    ReadBack(t, n, rate);
    var x := t.usec - SetterPart(n, rate) + GetterPart(n, rate);
    if x < 0 {
      D.Unique(x, US, -1, x + US);
    } else if x < US {
      D.Small(x, US);
    } else {
      D.Unique(x, US, 1, x - US);
    }
    WrapOfWrap(t.sec, 0);
  }

  /** After a setting that its own tick reads back, the clock runs on from what was set. */
  lemma TimeRunsOn(t: Timeval, n1: Word, n2: Word, rate: Word)
    requires 0 < rate && US % rate == 0 && Normal(t) && SetterPart(n1, rate) == GetterPart(n1, rate)
    requires Clean(ResetFor(t, n1, rate), n1, rate) && Clean(ResetFor(t, n1, rate), n2, rate)
    ensures Total(Reading(ResetFor(t, n1, rate), n2, rate)) == Total(t) + (n2 - n1) * (US / rate)
  {
    SetThenGetIff(t, n1, rate);
    ReadingsDifferExactly(ResetFor(t, n1, rate), n1, n2, rate);
  }

  /** 2^26 and 5^6 have no common factor, so it is a multiple of 5^6 only with the other factor. */
  lemma CancelPower(h: int)
    ensures 0x400_0000 * h % 15625 == 0 <==> h % 15625 == 0
  {
    var y := 0x400_0000 * h;
    if y % 15625 == 0 {
      var k := y / 15625;
      assert 12659 * y == h + 54369991 * 15625 * h;
      assert h == 15625 * (12659 * k - 54369991 * h);
      D.Unique(h, 15625, 12659 * k - 54369991 * h, 0);
    }
    if h % 15625 == 0 {
      var k := h / 15625;
      D.Unique(y, 15625, 0x400_0000 * k, 0);
    }
  }

  lemma HighPart(h: int)
    ensures WORD * h % US == 0 <==> h % 15625 == 0
  {
    CancelPower(h);
    var y := 0x400_0000 * h;
    assert WORD * h == 64 * y && US == 64 * 15625;
    if y % 15625 == 0 {
      D.Unique(64 * y, US, y / 15625, 0);
    }
    if WORD * h % US == 0 {
      D.Unique(y, 15625, WORD * h / US, 0);
    }
  }

  lemma SameRemainder(m: int, low: int, high: int)
    requires m == high + low
    ensures m % US == low % US <==> high % US == 0
  {
    var k := low / US;
    if high % US == 0 {
      D.AddMultiple(low, US, high / US);
    }
    if m % US == low % US {
      D.Unique(high, US, m / US - k, 0);
    }
  }

  /**
    The two products agree exactly when what the setter's 32-bit product drops is a multiple of 15625
    times 2^32; below 2^32 microseconds it drops nothing.
   */
  lemma ProductsAgreeIff(n: Word, rate: Word)
    requires 0 < rate
    ensures SetterPart(n, rate) == GetterPart(n, rate) <==> n * TickLength(rate) / WORD % 15625 == 0
    ensures n * TickLength(rate) < WORD ==> SetterPart(n, rate) == GetterPart(n, rate)
  {
    var m := n * TickLength(rate);
    var h := m / WORD;
    assert m == WORD * h + m % WORD;
    SameRemainder(m, m % WORD, WORD * h);
    HighPart(h);
    if m < WORD {
      D.Monotone(0, n, TickLength(rate));
      D.Small(m, WORD);
    }
  }

  /** At a thousand ticks per second the setting is lost for the first time after 71 minutes. */
  lemma FirstLoss(t: Timeval)
    requires Normal(t) && t != Timeval(0, 0)
    ensures Reading(ResetFor(t, 4_294_967, 1000), 4_294_967, 1000) == t
    ensures Reading(ResetFor(t, 4_294_968, 1000), 4_294_968, 1000) != t
  {
    assert TickLength(1000) == 1000;
    ProductsAgreeIff(4_294_967, 1000);
    ProductsAgreeIff(4_294_968, 1000);
    SetThenGetIff(t, 4_294_967, 1000);
    SetThenGetIff(t, 4_294_968, 1000);
  }
}
