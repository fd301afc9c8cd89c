/**
  Runs of the alarm list on the heap: any number of ticks, with whatever the callbacks do, against the
  ideal schedule of one alarm.
 */
module AlarmRuns {
  import opened AlarmClock
  import opened AlarmTime
  import opened Powers

  /** The deadline after callbacks that returned `periods`. */
  ghost function NextDue(first: nat, periods: seq<nat>): nat
    decreases |periods|
  {
    if periods == [] then first else NextDue(first + periods[0], periods[1..])
  }

  /** At ideal tick `now` exactly the callbacks that returned `periods`, none of them zero, have been made. */
  ghost predicate UpTo(first: nat, periods: seq<nat>, now: nat)
    decreases |periods|
  {
    if periods == [] then now < first
    else first <= now && 0 < periods[0] && UpTo(first + periods[0], periods[1..], now)
  }

  lemma {:induction false} DueAhead(first: nat, periods: seq<nat>, now: nat)
    requires UpTo(first, periods, now)
    ensures now < NextDue(first, periods)
    decreases |periods|
  {
    if periods == [] {
    } else {
      DueAhead(first + periods[0], periods[1..], now);
    }
  }

  /** A tick at which the alarm is not due adds nothing to the schedule. */
  lemma {:induction false} Quiet(first: nat, periods: seq<nat>, now: nat)
    requires UpTo(first, periods, now) && NextDue(first, periods) != now + 1
    ensures UpTo(first, periods, now + 1) && Schedule(first, periods, now + 1) == Schedule(first, periods, now)
    decreases |periods|
  {
    if periods == [] {
    } else {
      Quiet(first + periods[0], periods[1..], now);
    }
  }

  /** The last of the callbacks that returned `periods` is behind `now` and returned zero. */
  ghost predicate Over(first: nat, periods: seq<nat>, now: nat)
    decreases |periods|
  {
    && periods != [] && first <= now
    && if periods[0] == 0 then |periods| == 1 else Over(first + periods[0], periods[1..], now)
  }

  lemma {:induction false} OverIsQuiet(first: nat, periods: seq<nat>, now: nat)
    requires Over(first, periods, now)
    ensures Over(first, periods, now + 1) && Schedule(first, periods, now + 1) == Schedule(first, periods, now)
    decreases |periods|
  {
    if periods[0] == 0 {
    } else {
      OverIsQuiet(first + periods[0], periods[1..], now);
    }
  }

  /** A tick at which it is due adds that tick, and the answer moves the next deadline or ends the schedule. */
  lemma {:induction false} Due(first: nat, periods: seq<nat>, now: nat, period: nat)
    requires UpTo(first, periods, now) && NextDue(first, periods) == now + 1
    ensures Schedule(first, periods + [period], now + 1) == Schedule(first, periods, now) + [now + 1]
    ensures NextDue(first, periods + [period]) == now + 1 + period
    ensures if period == 0 then Over(first, periods + [period], now + 1) else UpTo(first, periods + [period], now + 1)
    decreases |periods|
  {
    var longer := periods + [period];
    if periods == [] {
      assert longer[1..] == [];
    } else {
      assert longer[1..] == periods[1..] + [period];
      Due(first + periods[0], periods[1..], now, period);
    }
  }

  /** The callbacks of `a` since the first `mark` callbacks since reset. */
  ghost function Since(calls: seq<Made>, mark: nat, a: Alarm): seq<Made> {
    if mark <= |calls| then CallsOf(calls[mark..], a) else []
  }

  ghost function Ticks(calls: seq<Made>): (t: seq<nat>)
    ensures |t| == |calls|
  {
    seq(|calls|, i requires 0 <= i < |calls| => calls[i].tick)
  }

  ghost function Periods(calls: seq<Made>): (p: seq<nat>)
    ensures |p| == |calls|
  {
    seq(|calls|, i requires 0 <= i < |calls| => calls[i].period)
  }

  /** The ticks at which `a` has been called back since, and what these callbacks returned. */
  ghost function Calls(calls: seq<Made>, mark: nat, a: Alarm): seq<nat> {
    Ticks(Since(calls, mark, a))
  }

  ghost function Answers(calls: seq<Made>, mark: nat, a: Alarm): seq<nat> {
    Periods(Since(calls, mark, a))
  }

  lemma {:induction false} CallsConcat(s: seq<Made>, t: seq<Made>, a: Alarm)
    ensures CallsOf(s + t, a) == CallsOf(s, a) + CallsOf(t, a)
    decreases |t|
  {
    if t == [] {
      assert s + t == s;
    } else {
      assert (s + t)[..|s + t| - 1] == s + t[..|t| - 1];
      CallsConcat(s, t[..|t| - 1], a);
    }
  }

  /** The callbacks of one more tick, of which `a` had the one in `more` or none. */
  lemma OneMoreTick(before: seq<Made>, calls: seq<Made>, mark: nat, a: Alarm, more: seq<Made>)
    requires mark <= |before| && before <= calls && CallsOf(calls[|before|..], a) == more && |more| <= 1
    ensures Calls(calls, mark, a) == Calls(before, mark, a) + Ticks(more)
    ensures Answers(calls, mark, a) == Answers(before, mark, a) + Periods(more)
  {
    assert calls[mark..] == before[mark..] + calls[|before|..];
    CallsConcat(before[mark..], calls[|before|..], a);
  }

  /** No callback started or stopped `a` in the ticks recorded since `from`. */
  ghost predicate Untouched(log: seq<Record>, from: nat, a: Alarm) {
    forall k {:trigger log[k]} :: from <= k < |log| ==> a !in log[k].touched
  }

  /** Where an alarm that was first due at tick `first` stands after the callbacks made since `mark`. */
  ghost predicate OnTrack(c: Clock, a: Alarm, first: nat, mark: nat)
    reads c, a
  {
    var periods := Answers(c.calls, mark, a);
    && mark <= |c.calls|
    && Calls(c.calls, mark, a) == Schedule(first, periods, c.now)
    && if a in c.members then a.exact && a.due == NextDue(first, periods) && UpTo(first, periods, c.now)
       else Over(first, periods, c.now)
  }

  /** One tick, for an alarm that was on the list, or had ended its own schedule, before. */
  lemma Advance(first: nat, periods: seq<nat>, now: nat, registered: bool, due: nat, more: seq<Made>)
    requires if registered then due == NextDue(first, periods) && UpTo(first, periods, now)
             else Over(first, periods, now)
    requires if registered && due == now + 1 then |more| == 1 && more[0].tick == now + 1 else more == []
    ensures Schedule(first, periods + Periods(more), now + 1) == Schedule(first, periods, now) + Ticks(more)
    ensures NextDue(first, periods + Periods(more)) ==
              NextDue(first, periods) + if more == [] then 0 else more[0].period
    ensures if registered && (more == [] || more[0].period > 0) then UpTo(first, periods + Periods(more), now + 1)
            else Over(first, periods + Periods(more), now + 1)
  {
    if more == [] {
      assert periods + Periods(more) == periods;
      assert Schedule(first, periods, now) + Ticks(more) == Schedule(first, periods, now);
      if registered {
        Quiet(first, periods, now);
      } else {
        OverIsQuiet(first, periods, now);
      }
    } else {
      assert Periods(more) == [more[0].period] && Ticks(more) == [now + 1];
      Due(first, periods, now, more[0].period);
    }
  }

  /** One tick keeps an alarm that no callback touches on track, until its own callback ends it. */
  method OneTick(c: Clock, a: Alarm, ghost first: nat, ghost from: nat, ghost mark: nat)
    requires c.Valid() && c.pending == [] && from <= |c.log| && mark <= |c.calls|
    requires Untouched(c.log, from, a) ==> OnTrack(c, a, first, mark)
    requires a in c.known
    modifies c, Members(c.head, c.items), c.spare
    ensures c.Valid() && c.pending == [] && c.now == old(c.now) + 1
    ensures |c.log| == |old(c.log)| + 1 && old(c.log) <= c.log && old(c.calls) <= c.calls
    ensures old(c.known) <= c.known && fresh(c.known - old(c.known))
    ensures Untouched(c.log, from, a) ==> Untouched(old(c.log), from, a) && OnTrack(c, a, first, mark)
    ensures Answers(old(c.calls), mark, a) <= Answers(c.calls, mark, a)
    ensures a in old(c.members) && Untouched(c.log, from, a) ==>
              |Answers(c.calls, mark, a)| == |Answers(old(c.calls), mark, a)|
                + if Fires(old(a.timer), (old(c.nticks) + 1) % WORD) then 1 else 0
  {
    ghost var before, periods, due, registered := c.log, Answers(c.calls, mark, a), a.due, a in c.members;
    ghost var made := c.calls;
    c.TickOnSchedule();
    ghost var r := c.log[|before|];
    assert c.log == before + [r];
    LastTouches(before, r, from, a);
    ghost var more := NewCalls(c.calls[|made|..], c.fate, c.now, a);
    OneMoreTick(made, c.calls, mark, a, more);
    if Untouched(c.log, from, a) {
      Advance(first, periods, old(c.now), registered, due, more);
    }
  }

  /** The callbacks of `a` among those of one tick. */
  lemma NewCalls(calls: seq<Made>, fate: map<Alarm, Fate>, now: nat, a: Alarm) returns (more: seq<Made>)
    requires Tally(calls, fate, now)
    ensures more == CallsOf(calls, a) && more == if a in fate then CallFor(a, fate[a], now) else []
  {
    more := CallsOf(calls, a);
    if a !in fate {
      NoneOf(calls, a);
    }
  }

  lemma {:induction false} NoneOf(calls: seq<Made>, a: Alarm)
    requires forall i :: 0 <= i < |calls| ==> calls[i].alarm != a
    ensures CallsOf(calls, a) == []
    decreases |calls|
  {
    if calls == [] {
    } else {
      NoneOf(calls[..|calls| - 1], a);
    }
  }

  lemma LastTouches(log: seq<Record>, r: Record, from: nat, a: Alarm)
    requires from <= |log|
    ensures Untouched(log + [r], from, a) <==> Untouched(log, from, a) && a !in r.touched
  {
    var longer := log + [r];
    assert longer[|log|] == r;
    assert forall k :: from <= k < |log| ==> longer[k] == log[k];
  }

  /** An alarm with callbacks still to come has answered no zero; one whose schedule is over has. */
  lemma {:induction false} ZeroEnds(first: nat, periods: seq<nat>, now: nat)
    ensures UpTo(first, periods, now) ==> 0 !in periods
    ensures Over(first, periods, now) ==> 0 in periods
    decreases |periods|
  {
    if periods == [] {
    } else {
      assert periods == [periods[0]] + periods[1..];
      ZeroEnds(first + periods[0], periods[1..], now);
    }
  }

  /**
    A run of `n` ticks. Unless a callback starts or stops the alarm, whatever else callbacks do, its
    callbacks are made at exactly the ticks of the ideal schedule that their own return values give, over
    any number of wraps of the counter. It is on the list for as long as none of them has returned zero,
    and then its next deadline is the first one plus all that they returned.
   */
  method RunTicks(c: Clock, a: Alarm, n: nat)
    requires c.Valid() && c.pending == [] && a in c.members && a.exact
    modifies c, Members(c.head, c.items), c.spare
    ensures c.Valid() && c.pending == [] && c.now == old(c.now) + n
    ensures |c.log| == |old(c.log)| + n && old(c.log) <= c.log && old(c.calls) <= c.calls
    ensures Untouched(c.log, |old(c.log)|, a) ==>
              var periods := Answers(c.calls, |old(c.calls)|, a);
              && Calls(c.calls, |old(c.calls)|, a) == Schedule(old(a.due), periods, c.now)
              && (a in c.members <==> 0 !in periods)
              && (a in c.members ==> a.exact && a.due == NextDue(old(a.due), periods) && c.now < a.due)
  {
    ghost var first, from, mark := a.due, |c.log|, |c.calls|;
    assert c.calls[mark..] == [];
    var i := 0;
    while i < n
      invariant 0 <= i <= n && c.Valid() && c.pending == [] && c.now == old(c.now) + i && a in c.known
      invariant |c.log| == from + i && old(c.log) <= c.log && old(c.calls) <= c.calls
      invariant old(c.known) <= c.known && fresh(c.known - old(c.known))
      invariant Untouched(c.log, from, a) ==> OnTrack(c, a, first, mark)
    {
      OneTick(c, a, first, from, mark);
      i := i + 1;
    }
    ZeroEnds(first, Answers(c.calls, mark, a), c.now);
    if UpTo(first, Answers(c.calls, mark, a), c.now) {
      DueAhead(first, Answers(c.calls, mark, a), c.now);
    }
  }

  /** Ticks before the only alarm is due: no callback is made. */
  method QuietTicks(c: Clock, a: Alarm, n: nat)
    requires c.Valid() && c.pending == [] && c.members == {a} && a.exact && c.now + n < a.due
    modifies c, Members(c.head, c.items), c.spare
    ensures c.Valid() && c.pending == [] && c.members == {a} && a.exact && a.due == old(a.due)
    ensures c.now == old(c.now) + n && c.calls == old(c.calls)
    ensures fresh(c.known - old(c.known))
  {
    var i := 0;
    while i < n
      invariant 0 <= i <= n && c.Valid() && c.pending == [] && c.members == {a} && a.exact && a.due == old(a.due)
      invariant c.now == old(c.now) + i && c.calls == old(c.calls)
      invariant old(c.known) <= c.known && fresh(c.known - old(c.known))
    {
      ghost var made := c.calls;
      c.TickOnSchedule();
      assert a in c.fate && !Called(c.fate[a]);
      assert c.touched == {};
      NobodyCalled(c.calls[|made|..], c.fate, c.now);
      i := i + 1;
    }
  }

  /** When the fates tell of no callback none was made. */
  lemma NobodyCalled(calls: seq<Made>, fate: map<Alarm, Fate>, now: nat)
    requires Tally(calls, fate, now) && forall a :: a in fate ==> !Called(fate[a])
    ensures calls == []
  {
    if calls != [] {
      var last := calls[|calls| - 1];
      assert last.alarm in fate && last in CallsOf(calls, last.alarm);
    }
  }

  /** A clock from reset with one alarm started on it. */
  method OneAlarm(rate: nat, interval: nat) returns (c: Clock, a: Alarm)
    requires 0 < rate && interval <= WORD - 2
    ensures fresh(c) && fresh(a) && c.Valid() && c.pending == [] && c.members == {a} && a.exact
    ensures fresh(c.head) && c.spare == {} && c.items == [a]
    ensures c.now == 0 && c.log == [] && c.calls == [] && a.due == interval + 1
  {
    c := new Clock(rate);
    a := new Alarm();
    var rc := c.Start(a, interval);
  }

  /** The tick at which the only alarm is due calls it back. */
  method DueTick(c: Clock, a: Alarm)
    requires c.Valid() && c.pending == [] && c.members == {a} && a.exact && a.due == c.now + 1 && c.calls == []
    modifies c, Members(c.head, c.items), c.spare
    ensures c.Valid() && c.now == old(c.now) + 1
    ensures |CallsOf(c.calls, a)| == 1 && CallsOf(c.calls, a)[0].tick == c.now
  {
    c.TickOnSchedule();
    assert a in c.fate && Called(c.fate[a]);
    assert c.calls[0..] == c.calls;
  }

  /** From reset, an alarm is called back for the first time at exactly tick `interval` + 1. */
  method FirstCallback(rate: nat, interval: nat) returns (c: Clock, a: Alarm)
    requires 0 < rate && interval <= WORD - 2
    ensures fresh(c) && fresh(a) && c.Valid() && c.now == interval + 1
    ensures |CallsOf(c.calls, a)| == 1 && CallsOf(c.calls, a)[0].tick == interval + 1
  {
    c, a := OneAlarm(rate, interval);
    QuietTicks(c, a, interval);
    DueTick(c, a);
  }

  /** From reset, a run of any length with callbacks that do anything but touch this alarm. */
  method FromReset(rate: nat, interval: nat, n: nat) returns (c: Clock, a: Alarm)
    requires 0 < rate && interval <= WORD - 2
    ensures fresh(c) && fresh(a) && c.Valid() && c.now == |c.log| == n
    ensures Untouched(c.log, 0, a) ==>
              var periods := Answers(c.calls, 0, a);
              && Calls(c.calls, 0, a) == Schedule(interval + 1, periods, n)
              && (a in c.members <==> 0 !in periods)
              && (a in c.members ==> a.exact && a.due == NextDue(interval + 1, periods) && n < a.due)
  {
    c, a := OneAlarm(rate, interval);
    RunTicks(c, a, n);
  }
}
