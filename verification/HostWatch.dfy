/**
  The host-inactivity counter over a whole run: the system tick, the alarm that fires once a
  second, and the driver's callback together.
 */
module HostWatch {
  import opened AlarmClock
  import opened AlarmRuns
  import opened AlarmTime
  import D = Division
  import U = JtagUart
  import opened Powers

  const CAP := U.INT_MAX - 2

  /**
    The counter after `ticks` more ticks. `t` is the alarm's timer at ideal tick `now`, the
    callback always asks for `rate` ticks, and `ac(n)` is whether a callback at tick n finds
    that the host has polled.
   */
  function Counter(t: Timer, now: nat, rate: nat, counter: nat, ac: nat -> bool, ticks: nat): nat
    decreases ticks
  {
    if ticks == 0 then counter
    else
      var nticks := (now + 1) % WORD;
      var counter' := if Fires(t, nticks) then U.Inactivity(counter, ac(now + 1)) else counter;
      Counter(Visited(t, nticks, rate), now + 1, rate, counter', ac, ticks - 1)
  }

  /** How often an alarm next due at `due` fires up to and including tick `last`. */
  function FiringCount(due: nat, rate: nat, last: nat): nat
    requires 0 < rate
  {
    if last < due then 0 else (last - due) / rate + 1
  }

  lemma FiringsAfter(due: nat, rate: nat, last: nat)
    requires 0 < rate && due <= last
    ensures FiringCount(due, rate, last) == 1 + FiringCount(due + rate, rate, last)
  {
    if due + rate <= last {
      D.AddMultiple(last - due - rate, rate, 1);
    } else {
      D.Small(last - due, rate);
    }
  }

  /** An alarm started with the tick rate as its interval and as its period. */
  lemma FirstFirings(start: nat, rate: nat, ticks: nat)
    requires 0 < rate && 0 < ticks
    ensures FiringCount(start + rate + 1, rate, start + ticks) == (ticks - 1) / rate
  {
    if rate < ticks {
      D.AddMultiple(ticks - 1 - rate, rate, 1);
    } else {
      D.Small(ticks - 1, rate);
    }
  }

  /** While the host does not poll, the counter grows by one at each firing, up to its cap. */
  lemma {:induction false} CountsFirings(t: Timer, now: nat, due: nat, rate: nat, counter: nat, ac: nat -> bool,
                                         ticks: nat)
    requires Stands(t, now, due) && 0 < rate < WORD && counter <= CAP
    requires forall n :: now < n <= now + ticks ==> !ac(n)
    ensures Counter(t, now, rate, counter, ac, ticks) == U.Min(CAP, counter + FiringCount(due, rate, now + ticks))
    decreases ticks
  {
    if ticks == 0 {
    } else {
      VisitStands(t, now, due, rate);
      var nticks := (now + 1) % WORD;
      if due == now + 1 {
        FiringsAfter(due, rate, now + ticks);
        CountsFirings(Visited(t, nticks, rate), now + 1, due + rate, rate, U.Inactivity(counter, false), ac, ticks - 1);
      } else {
        CountsFirings(Visited(t, nticks, rate), now + 1, due, rate, counter, ac, ticks - 1);
      }
    }
  }

  /**
    A host that never polls: the alarm is started at tick N0 with the tick rate as its interval
    and as its period, and at any later tick N the counter is (N - N0 - 1) / rate, capped.
   */
  lemma InactivityCounter(start: nat, rate: nat, ac: nat -> bool, ticks: nat)
    requires 0 < rate <= WORD - 2 && 0 < ticks
    requires forall n :: start < n <= start + ticks ==> !ac(n)
    ensures Counter(Started(start % WORD, rate), start, rate, 0, ac, ticks) == U.Min(CAP, (ticks - 1) / rate)
  {
    StartStands(start, rate);
    CountsFirings(Started(start % WORD, rate), start, start + rate + 1, rate, 0, ac, ticks);
    FirstFirings(start, rate, ticks);
  }

  /** A poll seen by a callback restarts the count from that callback. */
  lemma PollRestarts(t: Timer, poll: nat, rate: nat, counter: nat, ac: nat -> bool, ticks: nat)
    requires Stands(t, poll, poll + 1) && 0 < rate < WORD && ac(poll + 1)
    requires forall n :: poll + 1 < n <= poll + 1 + ticks ==> !ac(n)
    ensures Counter(t, poll, rate, counter, ac, 1 + ticks) == U.Min(CAP, ticks / rate)
  {
    VisitStands(t, poll, poll + 1, rate);
    CountsFirings(Visited(t, (poll + 1) % WORD, rate), poll + 1, poll + 1 + rate, rate, 0, ac, ticks);
    if rate <= ticks {
      D.AddMultiple(ticks - rate, rate, 1);
    } else {
      D.Small(ticks, rate);
    }
  }

  /**
    "Not connected", for a timeout as the driver can hold one: reported exactly when the silence
    has lasted `timeout` whole periods, and never for the two largest values.
   */
  lemma NotConnectedIff(start: nat, rate: nat, ac: nat -> bool, ticks: nat, timeout: nat)
    requires 0 < rate <= WORD - 2 && 0 < ticks && timeout <= U.INT_MAX
    requires forall n :: start < n <= start + ticks ==> !ac(n)
    ensures !(Counter(Started(start % WORD, rate), start, rate, 0, ac, ticks) < timeout)
       <==> timeout <= CAP && timeout * rate < ticks
  {
    InactivityCounter(start, rate, ac, ticks);
    D.AtLeast(ticks - 1, rate, timeout);
  }

  /** No request to set the timeout, in any number, replaces "don't know" or makes it. */
  lemma {:induction false} DontKnowIsForever(timeout: nat, values: seq<int>)
    ensures TimeoutAfterAll(timeout, values) == U.INT_MAX <==> timeout == U.INT_MAX
    decreases |values|
  {
    if values == [] {
    } else {
      DontKnowIsForever(U.TimeoutAfter(timeout, values[0]), values[1..]);
    }
  }

  /** The timeout after a series of requests to set it. */
  function TimeoutAfterAll(timeout: nat, values: seq<int>): nat
    decreases |values|
  {
    if values == [] then timeout else TimeoutAfterAll(U.TimeoutAfter(timeout, values[0]), values[1..])
  }

  /** What the first `n` callbacks from tick `due` on find in the AC bit. */
  ghost function PollsFrom(due: nat, rate: nat, ac: nat -> bool, n: nat): seq<bool>
    decreases n
  {
    if n == 0 then [] else [ac(due)] + PollsFrom(due + rate, rate, ac, n - 1)
  }

  /** The counter carried on from `counter` over further callbacks. */
  ghost function Continued(counter: nat, polls: seq<bool>): nat
    decreases |polls|
  {
    if polls == [] then counter else Continued(U.Inactivity(counter, polls[0]), polls[1..])
  }

  lemma {:induction false} ContinuedHistory(before: seq<bool>, polls: seq<bool>)
    ensures Continued(U.CountAfter(before), polls) == U.CountAfter(before + polls)
    decreases |polls|
  {
    if polls == [] {
      assert before + polls == before;
    } else {
      U.CountOneMore(before, polls[0]);
      ContinuedHistory(before + [polls[0]], polls[1..]);
      assert before + [polls[0]] + polls[1..] == before + polls;
    }
  }

  /** For every polling history the callbacks count it as it is, at the ticks when the alarm is due. */
  lemma {:induction false} CounterFollowsPolls(t: Timer, now: nat, due: nat, rate: nat, counter: nat,
                                               ac: nat -> bool, ticks: nat)
    requires Stands(t, now, due) && 0 < rate < WORD
    ensures Counter(t, now, rate, counter, ac, ticks)
         == Continued(counter, PollsFrom(due, rate, ac, FiringCount(due, rate, now + ticks)))
    decreases ticks
  {
    if ticks == 0 {
    } else {
      VisitStands(t, now, due, rate);
      var t' := Visited(t, (now + 1) % WORD, rate);
      if due == now + 1 {
        FiringsAfter(due, rate, now + ticks);
        CounterFollowsPolls(t', now + 1, due + rate, rate, U.Inactivity(counter, ac(due)), ac, ticks - 1);
      } else {
        CounterFollowsPolls(t', now + 1, due, rate, counter, ac, ticks - 1);
      }
    }
  }

  /** "Not connected" for every polling history: exactly when the last `timeout` callbacks saw no poll. */
  lemma NotConnectedIffSilent(start: nat, rate: nat, ac: nat -> bool, ticks: nat, timeout: nat)
    requires 0 < rate <= WORD - 2
    ensures var polls := PollsFrom(start + rate + 1, rate, ac, FiringCount(start + rate + 1, rate, start + ticks));
            !(Counter(Started(start % WORD, rate), start, rate, 0, ac, ticks) < timeout)
            <==> timeout <= CAP && U.SilentFor(polls, timeout)
  {
    var polls := PollsFrom(start + rate + 1, rate, ac, FiringCount(start + rate + 1, rate, start + ticks));
    StartStands(start, rate);
    CounterFollowsPolls(Started(start % WORD, rate), start, start + rate + 1, rate, 0, ac, ticks);
    ContinuedHistory([], polls);
    assert [] + polls == polls;
    U.InactiveIffSilent(polls, timeout);
  }

  ghost predicate AllAre(periods: seq<nat>, rate: nat) {
    forall k :: 0 <= k < |periods| ==> periods[k] == rate
  }

  /** An alarm that always asks for `rate` ticks has been called back as often as that many firings fit. */
  lemma {:induction false} CallsAreFirings(first: nat, periods: seq<nat>, rate: nat, now: nat)
    requires 0 < rate && AllAre(periods, rate) && UpTo(first, periods, now)
    ensures |periods| == FiringCount(first, rate, now)
    decreases |periods|
  {
    if periods == [] {
    } else {
      FiringsAfter(first, rate, now);
      CallsAreFirings(first + rate, periods[1..], rate, now);
    }
  }

  lemma {:induction false} NeverOver(first: nat, periods: seq<nat>, now: nat, rate: nat)
    requires 0 < rate && AllAre(periods, rate)
    ensures !Over(first, periods, now)
    decreases |periods|
  {
    if periods == [] {
    } else {
      NeverOver(first + rate, periods[1..], now, rate);
    }
  }

  /** A tick of the clock; `fires` is whether the alarm's fields said that it would go off. */
  method ClockPart(c: Clock, a: Alarm, ghost first: nat, ghost from: nat, ghost mark: nat) returns (fires: bool)
    requires c.Valid() && c.pending == [] && from <= |c.log| && mark <= |c.calls| && a in c.known
    requires Untouched(c.log, from, a) ==> OnTrack(c, a, first, mark)
    modifies c, Members(c.head, c.items), c.spare
    ensures c.Valid() && c.pending == [] && c.now == old(c.now) + 1
    ensures |c.log| == |old(c.log)| + 1 && old(c.log) <= c.log && old(c.calls) <= c.calls
    ensures old(c.known) <= c.known && fresh(c.known - old(c.known))
    ensures Untouched(c.log, from, a) ==> Untouched(old(c.log), from, a) && OnTrack(c, a, first, mark)
    ensures Answers(old(c.calls), mark, a) <= Answers(c.calls, mark, a)
    ensures Untouched(c.log, from, a) && a in old(c.members) ==>
              |Answers(c.calls, mark, a)| == |Answers(old(c.calls), mark, a)| + if fires then 1 else 0
  {
    fires := Fires(a.timer, (c.nticks + 1) % WORD);
    OneTick(c, a, first, from, mark);
  }

  /** An alarm that always asks for another period stays on the list. */
  lemma StillThere(c: Clock, a: Alarm, rate: nat, first: nat, mark: nat)
    requires OnTrack(c, a, first, mark) && 0 < rate && AllAre(Answers(c.calls, mark, a), rate)
    ensures a in c.members && UpTo(first, Answers(c.calls, mark, a), c.now)
  {
    NeverOver(first, Answers(c.calls, mark, a), c.now, rate);
  }

  lemma Fewer(before: seq<nat>, after: seq<nat>, rate: nat)
    requires before <= after && AllAre(after, rate)
    ensures AllAre(before, rate)
  {
    assert forall k :: 0 <= k < |before| ==> before[k] == after[k];
  }

  /** Meanwhile the handler may run, and the callback is made if the alarm goes off. */
  method DriverPart(u: U.JtagUart, fires: bool)
    requires u.Valid()
    modifies u, u.dev, u.rxBuf
    ensures u.Valid() && old(u.polls) <= u.polls && |u.polls| == |old(u.polls)| + if fires then 1 else 0
    ensures u.timeout == old(u.timeout)
  {
    u.Irq(false);
    if fires {
      u.Timeout();
    }
  }

  /** No callback has started or stopped the alarm since, and its own have always asked for `rate` ticks. */
  ghost predicate LeftAlone(log: seq<Record>, from: nat, calls: seq<Made>, mark: nat, a: Alarm, rate: nat) {
    Untouched(log, from, a) && AllAre(Answers(calls, mark, a), rate)
  }

  /** One tick of both; `start` is how many callbacks the driver had seen when the watch began. */
  method WatchTick(u: U.JtagUart, c: Clock, a: Alarm, rate: nat,
                   ghost first: nat, ghost from: nat, ghost mark: nat, ghost start: nat)
    requires u.Valid() && c.Valid() && c.pending == [] && a in c.known && 0 < rate
    requires from <= |c.log| && mark <= |c.calls|
    requires Untouched(c.log, from, a) ==> OnTrack(c, a, first, mark)
    requires LeftAlone(c.log, from, c.calls, mark, a, rate) ==>
               a in c.members && |u.polls| == start + |Answers(c.calls, mark, a)|
    modifies u, u.dev, u.rxBuf, c, Members(c.head, c.items), c.spare
    ensures u.Valid() && old(u.polls) <= u.polls && u.timeout == old(u.timeout)
    ensures c.Valid() && c.pending == [] && c.now == old(c.now) + 1
    ensures |c.log| == |old(c.log)| + 1 && old(c.log) <= c.log && old(c.calls) <= c.calls
    ensures old(c.known) <= c.known && fresh(c.known - old(c.known))
    ensures Untouched(c.log, from, a) ==> OnTrack(c, a, first, mark)
    ensures LeftAlone(c.log, from, c.calls, mark, a, rate) ==>
              a in c.members && |u.polls| == start + |Answers(c.calls, mark, a)|
  {
    ghost var before := Answers(c.calls, mark, a);
    var fires := ClockPart(c, a, first, from, mark);
    if LeftAlone(c.log, from, c.calls, mark, a, rate) {
      Fewer(before, Answers(c.calls, mark, a), rate);
      StillThere(c, a, rate, first, mark);
    }
    DriverPart(u, fires);
  }

  /** Silent callbacks count one each, up to the cap. */
  lemma {:induction false} SilenceCounts(before: seq<bool>, polls: seq<bool>)
    requires before <= polls && U.SilentFor(polls, |polls| - |before|)
    ensures U.CountAfter(polls) == U.Min(CAP, U.CountAfter(before) + |polls| - |before|)
    decreases |polls|
  {
    if |polls| == |before| {
      assert polls == before;
    } else {
      var front := polls[..|polls| - 1];
      assert !polls[|polls| - 1];
      assert forall i :: 0 <= i < |front| ==> front[i] == polls[i];
      SilenceCounts(before, front);
    }
  }

  /** The ticks, one after another, with the driver's callbacks counted against the alarm's. */
  method WatchTicks(u: U.JtagUart, c: Clock, a: Alarm, rate: nat, n: nat)
    requires u.Valid() && c.Valid() && c.pending == [] && a in c.members && a.exact && 0 < rate
    modifies u, u.dev, u.rxBuf, c, Members(c.head, c.items), c.spare
    ensures u.Valid() && c.Valid() && c.now == old(c.now) + n && |c.log| == |old(c.log)| + n
    ensures old(u.polls) <= u.polls && u.timeout == old(u.timeout)
    ensures Untouched(c.log, |old(c.log)|, a) ==> OnTrack(c, a, old(a.due), |old(c.calls)|)
    ensures LeftAlone(c.log, |old(c.log)|, c.calls, |old(c.calls)|, a, rate) ==>
              |u.polls| == |old(u.polls)| + |Answers(c.calls, |old(c.calls)|, a)|
  {
    ghost var first, from, mark, start := a.due, |c.log|, |c.calls|, |u.polls|;
    assert c.calls[mark..] == [];
    var i := 0;
    while i < n
      invariant 0 <= i <= n && u.Valid() && c.Valid() && c.pending == [] && c.now == old(c.now) + i && a in c.known
      invariant |c.log| == from + i && old(c.log) <= c.log && old(c.calls) <= c.calls
      invariant old(u.polls) <= u.polls && u.timeout == old(u.timeout)
      invariant old(c.known) <= c.known && fresh(c.known - old(c.known))
      invariant Untouched(c.log, from, a) ==> OnTrack(c, a, first, mark)
      invariant LeftAlone(c.log, from, c.calls, mark, a, rate) ==>
                  a in c.members && |u.polls| == start + |Answers(c.calls, mark, a)|
    {
      WatchTick(u, c, a, rate, first, from, mark, start);
      i := i + 1;
    }
  }

  /**
    Scheduler and driver on the heap: `n` ticks in which the driver's callback runs whenever its alarm
    goes off, with the host and the handler acting in between. If the alarm is left alone and always asks
    for `rate` ticks, the driver has counted exactly the firings of the ideal schedule, and if the host
    did not poll its inactivity counter has grown by as many, up to the cap.
   */
  method Watch(u: U.JtagUart, c: Clock, a: Alarm, rate: nat, n: nat)
    requires u.Valid() && c.Valid() && c.pending == [] && a in c.members && a.exact && 0 < rate < WORD
    modifies u, u.dev, u.rxBuf, c, Members(c.head, c.items), c.spare
    ensures u.Valid() && c.Valid() && c.now == old(c.now) + n && |c.log| == |old(c.log)| + n
    ensures old(u.polls) <= u.polls && u.timeout == old(u.timeout)
    ensures LeftAlone(c.log, |old(c.log)|, c.calls, |old(c.calls)|, a, rate) ==>
              |u.polls| == |old(u.polls)| + FiringCount(old(a.due), rate, c.now)
    ensures LeftAlone(c.log, |old(c.log)|, c.calls, |old(c.calls)|, a, rate)
            && U.SilentFor(u.polls, |u.polls| - |old(u.polls)|) ==>
              u.hostInactive == U.Min(CAP, old(u.hostInactive) + FiringCount(old(a.due), rate, c.now))
  {
    WatchTicks(u, c, a, rate, n);
    ghost var from, mark := |old(c.log)|, |old(c.calls)|;
    if LeftAlone(c.log, from, c.calls, mark, a, rate) {
      StillThere(c, a, rate, old(a.due), mark);
      CallsAreFirings(old(a.due), Answers(c.calls, mark, a), rate, c.now);
    }
    if U.SilentFor(u.polls, |u.polls| - |old(u.polls)|) {
      SilenceCounts(old(u.polls), u.polls);
    }
  }

  /**
    The same watch, and then a program asks whether the host is connected. With the alarm just started
    and a silent host the answer is no exactly when `timeout` whole periods have gone by.
   */
  method WatchAndAsk(u: U.JtagUart, c: Clock, a: Alarm, rate: nat, n: nat) returns (rc: int, answer: int)
    requires u.Valid() && c.Valid() && c.pending == [] && a in c.members && a.exact && 0 < rate < WORD
    modifies u, u.dev, u.rxBuf, c, Members(c.head, c.items), c.spare
    ensures old(u.polls) <= u.polls && u.timeout == old(u.timeout)
    ensures rc == if u.timeout == U.INT_MAX then -U.ENOTTY else 0
    ensures rc == 0 ==> (answer == 0 <==> u.timeout <= CAP && U.SilentFor(u.polls, u.timeout)) && 0 <= answer <= 1
    ensures LeftAlone(c.log, |old(c.log)|, c.calls, |old(c.calls)|, a, rate)
            && U.SilentFor(u.polls, |u.polls| - |old(u.polls)|)
            && rc == 0 && 0 < n && old(u.hostInactive == 0 && a.due == c.now + rate + 1) ==>
              (answer == 0 <==> u.timeout <= CAP && u.timeout * rate < n)
  {
    ghost var now := c.now;
    Watch(u, c, a, rate, n);
    rc, answer := u.Ioctl(U.GetConnected);
    U.InactiveIffSilent(u.polls, u.timeout);
    if 0 < n {
      FirstFirings(now, rate, n);
      D.AtLeast(n - 1, rate, u.timeout);
    }
  }
}
