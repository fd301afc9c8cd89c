/**
  Deadlines of alarms: a 32-bit time and a rollover flag, against the ideal schedule counted in
  ticks that never wrap.
 */
module AlarmTime {
  import opened Powers

  /** The two fields of an alarm that say when it is due. */
  datatype Timer = Timer(time: nat, rollover: bool)

  /** The fields set when an alarm is started while the tick counter reads `nticks`. */
  function Started(nticks: nat, interval: nat): (t: Timer)
    ensures t.time < WORD
  {
    var time := (interval + nticks + 1) % WORD;
    Timer(time, time < nticks)
  }

  /** The flag is cleared when the tick counter has just become zero. */
  function Cleared(t: Timer, nticks: nat): Timer {
    if t.rollover && nticks == 0 then t.(rollover := false) else t
  }

  /** Whether the tick that made the counter `nticks` makes the callback. */
  predicate Fires(t: Timer, nticks: nat) {
    var c := Cleared(t, nticks);
    c.time <= nticks && !c.rollover
  }

  /** The fields after the callback of a timer has asked to be called again in `period` ticks. */
  function Rescheduled(t: Timer, nticks: nat, period: nat): (t': Timer)
    ensures t'.time < WORD
  {
    var time := (t.time + period) % WORD;
    Timer(time, t.rollover || time < nticks)
  }

  /** The fields after one tick in which a callback, if made, returns `period`. */
  function Visited(t: Timer, nticks: nat, period: nat): Timer {
    var c := Cleared(t, nticks);
    if !Fires(t, nticks) || period == 0 then c else Rescheduled(c, nticks, period)
  }

  /** At ideal tick `now` the fields stand for a callback at ideal tick `due`, still to come. */
  ghost predicate Stands(t: Timer, now: nat, due: nat) {
    && now < due < now + WORD
    && t.time == due % WORD
    && t.rollover == (due / WORD > now / WORD)
  }

  lemma SameEpoch(now: nat, due: nat)
    requires now <= due < now + WORD
    ensures due / WORD == now / WORD <==> now % WORD <= due % WORD
    ensures due / WORD == now / WORD || due / WORD == now / WORD + 1
  {
  }

  lemma AddMod(a: nat, b: nat)
    ensures (a % WORD + b) % WORD == (a + b) % WORD
  {
    var q := a / WORD;
    assert a % WORD + b == a + b - q * WORD;
    RemoveMultiples(a + b - q * WORD, q);
  }

  lemma {:induction false} RemoveMultiples(x: nat, q: nat)
    ensures (x + q * WORD) % WORD == x % WORD
  {
    if q == 0 {
    } else {
      RemoveMultiples(x, q - 1);
      assert x + q * WORD == (x + (q - 1) * WORD) + WORD;
    }
  }

  /** Starting an alarm sets the fields for the ideal tick N + interval + 1, for any interval up to 2^32-2. */
  lemma StartStands(now: nat, interval: nat)
    requires interval <= WORD - 2
    ensures Stands(Started(now % WORD, interval), now, now + interval + 1)
  {
    AddMod(now, interval + 1);
    SameEpoch(now, now + interval + 1);
  }

  /** A tick makes the callback exactly when the ideal schedule says so, and otherwise changes nothing. */
  lemma TickIsExact(t: Timer, now: nat, due: nat)
    requires Stands(t, now, due)
    ensures Fires(t, (now + 1) % WORD) <==> due == now + 1
    ensures due != now + 1 ==> Stands(Cleared(t, (now + 1) % WORD), now + 1, due)
  {
    var next := now + 1;
    SameEpoch(next, due);
    SameEpoch(now, next);
  }

  /** Any period up to 2^32-1 that a callback returns puts the next callback exactly that far ahead. */
  lemma RescheduleStands(t: Timer, now: nat, period: nat)
    requires Stands(t, now, now + 1) && 0 < period < WORD
    ensures Stands(Visited(t, (now + 1) % WORD, period), now + 1, now + 1 + period)
  {
    TickIsExact(t, now, now + 1);
    AddMod(now + 1, period);
    SameEpoch(now + 1, now + 1 + period);
  }

  /** One tick of one alarm, whether it fires or not. */
  lemma VisitStands(t: Timer, now: nat, due: nat, period: nat)
    requires Stands(t, now, due) && period < WORD
    ensures Fires(t, (now + 1) % WORD) <==> due == now + 1
    ensures due != now + 1 ==> Stands(Visited(t, (now + 1) % WORD, period), now + 1, due)
    ensures due == now + 1 && period > 0 ==> Stands(Visited(t, (now + 1) % WORD, period), now + 1, due + period)
  {
    TickIsExact(t, now, due);
    if due == now + 1 && period > 0 {
      RescheduleStands(t, now, period);
    }
  }

  /** The number of ticks, at most `horizon`, after which a timer first fires; `horizon` if it does not. */
  function TicksToFire(t: Timer, now: nat, horizon: nat): (k: nat)
    ensures k <= horizon
    decreases horizon
  {
    if horizon == 0 then 0
    else if Fires(t, (now + 1) % WORD) then 0
    else 1 + TicksToFire(Cleared(t, (now + 1) % WORD), now + 1, horizon - 1)
  }

  lemma {:induction false} FirstFiring(t: Timer, now: nat, due: nat, horizon: nat)
    requires Stands(t, now, due)
    ensures TicksToFire(t, now, horizon) == if due - now - 1 < horizon then due - now - 1 else horizon
    decreases horizon
  {
    if horizon == 0 {
    } else {
      TickIsExact(t, now, due);
      if due != now + 1 {
        FirstFiring(Cleared(t, (now + 1) % WORD), now + 1, due, horizon - 1);
      }
    }
  }

  /**
    The ideal ticks in (now, now + horizon] at which the code calls back an alarm whose successive
    callbacks return `periods`, then zero.
   */
  function Firings(t: Timer, now: nat, periods: seq<nat>, horizon: nat): seq<nat>
    decreases horizon
  {
    if horizon == 0 then []
    else
      var nticks := (now + 1) % WORD;
      if !Fires(t, nticks) then Firings(Cleared(t, nticks), now + 1, periods, horizon - 1)
      else if periods == [] || periods[0] == 0 then [now + 1]
      else [now + 1] + Firings(Visited(t, nticks, periods[0]), now + 1, periods[1..], horizon - 1)
  }

  /** The ideal schedule up to tick `last`: the first callback, then one `period` after each. */
  function Schedule(first: nat, periods: seq<nat>, last: nat): seq<nat>
    decreases |periods|
  {
    if first > last then []
    else if periods == [] || periods[0] == 0 then [first]
    else [first] + Schedule(first + periods[0], periods[1..], last)
  }

  lemma {:induction false} FiringsFollowSchedule(t: Timer, now: nat, due: nat, periods: seq<nat>, horizon: nat)
    requires Stands(t, now, due)
    requires forall k :: 0 <= k < |periods| ==> periods[k] < WORD
    ensures Firings(t, now, periods, horizon) == Schedule(due, periods, now + horizon)
    decreases horizon
  {
    if horizon == 0 {
    } else {
      TickIsExact(t, now, due);
      var nticks := (now + 1) % WORD;
      if due != now + 1 {
        FiringsFollowSchedule(Cleared(t, nticks), now + 1, due, periods, horizon - 1);
      } else if periods != [] && periods[0] != 0 {
        RescheduleStands(t, now, periods[0]);
        FiringsFollowSchedule(Visited(t, nticks, periods[0]), now + 1, due + periods[0], periods[1..], horizon - 1);
      }
    }
  }

  /**
    The 32-bit time with its rollover flag refines the unbounded schedule: over any number of
    ticks, and of wraps of the counter, an alarm started at ideal tick N fires at N + interval + 1
    and then exactly `period` ticks after each firing, never early, late or twice.
   */
  lemma AlarmIsExact(now: nat, interval: nat, periods: seq<nat>, horizon: nat)
    requires interval <= WORD - 2
    requires forall k :: 0 <= k < |periods| ==> periods[k] < WORD
    ensures Firings(Started(now % WORD, interval), now, periods, horizon)
         == Schedule(now + interval + 1, periods, now + horizon)
  {
    StartStands(now, interval);
    FiringsFollowSchedule(Started(now % WORD, interval), now, now + interval + 1, periods, horizon);
  }

  /**
    An interval of 2^32-1 is the one exception: its deadline looks like the present, and the
    alarm goes off at the very next tick, 2^32-1 ticks early, unless the counter is about to wrap.
   */
  lemma LongestInterval(now: nat)
    ensures Fires(Started(now % WORD, WORD - 1), (now + 1) % WORD) <==> now % WORD != WORD - 1
  {
    AddMod(now, WORD);
    RemoveMultiples(now, 1);
    if now % WORD != WORD - 1 {
      AddMod(now, 1);
    }
  }

  /** Over all 32-bit intervals: no firing before the deadline exactly when the interval is representable. */
  lemma NeverEarlyIff(now: nat, interval: nat)
    requires interval < WORD
    ensures (interval <= WORD - 2 || now % WORD == WORD - 1)
       <==> TicksToFire(Started(now % WORD, interval), now, WORD + 1) == interval
  {
    if interval <= WORD - 2 {
      StartStands(now, interval);
      FirstFiring(Started(now % WORD, interval), now, now + interval + 1, WORD + 1);
    } else {
      LongestInterval(now);
      if now % WORD == WORD - 1 {
        var t := Started(now % WORD, interval);
        AddMod(now, WORD);
        RemoveMultiples(now, 1);
        RemoveMultiples(now + 1, 1);
        assert t == Timer(WORD - 1, false);
        AddMod(now, 1);
        assert Stands(Cleared(t, 0), now + 1, now + WORD);
        FirstFiring(Cleared(t, 0), now + 1, now + WORD, WORD);
      }
    }
  }
}
