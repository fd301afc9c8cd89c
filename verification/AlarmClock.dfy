/**
  The alarm list: an intrusive circular doubly linked list, and the tick that walks it while
  the callbacks it makes start and stop alarms.
 */
module AlarmClock {
  import opened AlarmTime
  import opened Powers

  const EINVAL := 22
  const ENOTSUP := 134

  /** An alarm structure. The list head is one too, of which only the links are used. */
  class Alarm {
    var next: Alarm
    var previous: Alarm
    var timer: Timer
    ghost var due: nat     // the ideal tick of the next callback
    ghost var exact: bool  // the timer stands for that tick

    constructor ()
      ensures next == this && previous == this
    {
      next, previous := this, this;
      timer, due, exact := Timer(0, false), 0, false;
    }
  }

  /** The node at place `i`. */
  ghost function At(s: seq<Alarm>, i: nat): Alarm
    requires i < |s|
  {
    s[i]
  }

  ghost predicate NoDuplicates(s: seq<Alarm>) {
    forall i, j {:trigger At(s, i), At(s, j)} :: 0 <= i < j < |s| ==> At(s, i) != At(s, j)
  }

  /** The sequence without its element at `k`; all of it when `k` is negative. */
  ghost function Drop(s: seq<Alarm>, k: int): (r: seq<Alarm>)
    requires k < |s|
  {
    if k < 0 then s else s[..k] + s[k + 1..]
  }

  /** `tail` is what remains of `s` after some first part of it. */
  ghost predicate IsTail(tail: seq<Alarm>, s: seq<Alarm>) {
    |tail| <= |s| && s[|s| - |tail|..] == tail
  }

  /** What becomes of the tail of `s` when the element of `s` at `k` goes. */
  ghost function DropFromTail(tail: seq<Alarm>, s: seq<Alarm>, k: int): seq<Alarm>
    requires IsTail(tail, s) && k < |s|
  {
    var d := |s| - |tail|;
    if k < d then tail else Drop(tail, k - d)
  }

  ghost function Elements(s: seq<Alarm>): set<Alarm> {
    set a | a in s
  }

  lemma DropFacts(s: seq<Alarm>, k: int, a: Alarm)
    requires NoDuplicates(s) && k < |s| && if k < 0 then a !in s else s[k] == a
    ensures NoDuplicates(Drop(s, k)) && Elements(Drop(s, k)) == Elements(s) - {a}
  {
    if k >= 0 {
      var r := Drop(s, k);
      forall i, j | 0 <= i < j < |r| ensures At(r, i) != At(r, j) {
        assert At(r, i) == At(s, if i < k then i else i + 1) && At(r, j) == At(s, if j < k then j else j + 1);
      }
      forall x ensures x in r <==> x in s && x != a {
        if x in s && x != a {
          var i :| 0 <= i < |s| && s[i] == x;
          assert r[if i < k then i else i - 1] == x;
        }
        if x in r {
          var i :| 0 <= i < |r| && r[i] == x;
          assert At(s, if i < k then i else i + 1) == x && At(s, k) == a;
        }
      }
    }
  }

  lemma TailDistinct(tail: seq<Alarm>, s: seq<Alarm>)
    requires NoDuplicates(s) && IsTail(tail, s)
    ensures NoDuplicates(tail)
  {
    var d := |s| - |tail|;
    forall i, j | 0 <= i < j < |tail| ensures At(tail, i) != At(tail, j) {
      assert At(tail, i) == At(s, d + i) && At(tail, j) == At(s, d + j);
    }
  }

  lemma DropBefore(s: seq<Alarm>, k: nat, d: nat)
    requires k < d <= |s|
    ensures Drop(s, k)[d - 1..] == s[d..]
  {
  }

  lemma DropAfter(s: seq<Alarm>, k: nat, d: nat)
    requires d <= k < |s|
    ensures Drop(s, k)[d..] == Drop(s[d..], k - d)
  {
    assert s[d..][..k - d] == s[d..k];
    assert s[d..][k - d + 1..] == s[k + 1..];
    assert Drop(s, k)[d..] == s[d..k] + s[k + 1..];
  }

  lemma TailAfterDrop(tail: seq<Alarm>, s: seq<Alarm>, k: int)
    requires IsTail(tail, s) && k < |s|
    ensures IsTail(DropFromTail(tail, s, k), Drop(s, k))
  {
    var d := |s| - |tail|;
    if 0 <= k < d {
      DropBefore(s, k, d);
      assert |Drop(s, k)| - |tail| == d - 1;
    } else if k >= d {
      DropAfter(s, k, d);
      assert |Drop(s, k)| - |Drop(tail, k - d)| == d && tail == s[d..];
    }
  }

  lemma NotInTail(tail: seq<Alarm>, s: seq<Alarm>, k: int, a: Alarm)
    requires NoDuplicates(s) && IsTail(tail, s) && k < |s| - |tail|
    requires if k < 0 then a !in s else s[k] == a
    ensures a !in tail
  {
    forall i | 0 <= i < |tail| ensures tail[i] != a {
      assert tail[i] == At(s, |s| - |tail| + i);
      assert k >= 0 ==> At(s, k) == a;
    }
  }

  /** Taking an alarm out of the whole list takes it out of any tail of it. */
  lemma TailFacts(tail: seq<Alarm>, s: seq<Alarm>, k: int, a: Alarm)
    requires NoDuplicates(s) && IsTail(tail, s) && k < |s|
    requires if k < 0 then a !in s else s[k] == a
    ensures var r := DropFromTail(tail, s, k);
            && |r| <= |tail| && Elements(r) == Elements(tail) - {a}
            && (tail != [] && tail[0] != a ==> r != [] && r[0] == tail[0])
            && (tail == [] ==> r == [])
  {
    var d := |s| - |tail|;
    if k >= d {
      TailDistinct(tail, s);
      assert tail[k - d] == a;
      DropFacts(tail, k - d, a);
    } else {
      NotInTail(tail, s, k, a);
    }
  }

  /** Each node's `next` is the one after it, the last one's the first, and `previous` undoes `next`. */
  ghost predicate Ring(nodes: seq<Alarm>)
    reads nodes`next, nodes`previous
  {
    forall i {:trigger At(nodes, i)} :: 0 <= i < |nodes| ==>
      && At(nodes, i).next == nodes[if i + 1 == |nodes| then 0 else i + 1]
      && At(nodes, i).previous == nodes[if i == 0 then |nodes| - 1 else i - 1]
  }

  /** The list from `head` goes through exactly `items`, each once, in both directions. */
  ghost predicate Linked(head: Alarm, items: seq<Alarm>)
    reads head`next, head`previous, items`next, items`previous
  {
    && head !in items
    && NoDuplicates([head] + items)
    && Ring([head] + items)
  }

  lemma ItemsDistinct(head: Alarm, items: seq<Alarm>)
    requires NoDuplicates([head] + items)
    ensures NoDuplicates(items)
  {
    forall i, j | 0 <= i < j < |items| ensures At(items, i) != At(items, j) {
      var nodes := [head] + items;
      assert At(nodes, i + 1) == items[i] && At(nodes, j + 1) == items[j];
    }
  }

  lemma DropInRing(head: Alarm, items: seq<Alarm>, k: nat)
    requires head !in items && k < |items|
    ensures Drop([head] + items, k + 1) == [head] + Drop(items, k)
    ensures head !in Drop(items, k)
  {
    assert ([head] + items)[..k + 1] == [head] + items[..k];
    assert ([head] + items)[k + 2..] == items[k + 1..];
  }

  /** The nodes of the ring. */
  ghost function Members(head: Alarm, items: seq<Alarm>): set<Alarm> {
    set a | a in [head] + items
  }

  /** The four stores that link `entry` in behind the head, wherever it was linked before. */
  method LinkIn(head: Alarm, entry: Alarm)
    requires entry != head
    modifies head`next, head.next`previous, entry`next, entry`previous
    ensures head.next == entry && entry.next == old(head.next)
    ensures old(head.next) != head ==> head.previous == old(head.previous)
    ensures old(head.next).previous == entry && (old(head.next) != entry ==> entry.previous == head)
  {
    entry.previous := head;
    entry.next := head.next;
    head.next.previous := entry;
    head.next := entry;
  }

  /** Adds `entry` as the first entry of the list. */
  method Insert(head: Alarm, entry: Alarm, ghost items: seq<Alarm>)
    requires Linked(head, items) && entry != head && entry !in items
    modifies Members(head, items)`next, Members(head, items)`previous, entry`next, entry`previous
    ensures Linked(head, [entry] + items)
  {
    ghost var nodes := [head] + items;
    ghost var second := if items == [] then 0 else 1;
    assert At(nodes, 0) == head && At(nodes, second) == head.next;
    LinkIn(head, entry);
    ghost var nodes' := [head] + ([entry] + items);
    forall i | 0 <= i < |nodes'| ensures
      && At(nodes', i).next == nodes'[if i + 1 == |nodes'| then 0 else i + 1]
      && At(nodes', i).previous == nodes'[if i == 0 then |nodes'| - 1 else i - 1]
    {
      if i != 1 {
        assert At(nodes', i) == At(nodes, if i == 0 then 0 else i - 1);
      }
    }
    forall i, j | 0 <= i < j < |nodes'| ensures At(nodes', i) != At(nodes', j) {
      if i != 1 && j != 1 {
        assert At(nodes', i) == At(nodes, if i == 0 then 0 else i - 1) && At(nodes', j) == At(nodes, j - 1);
      }
    }
  }

  /**
    Takes `entry` out of the ring it is in and links it to itself. Removing it again, when it
    is a ring of its own, changes nothing.
   */
  method Remove(entry: Alarm, ghost nodes: seq<Alarm>, ghost j: nat)
    requires Ring(nodes) && NoDuplicates(nodes) && j < |nodes| && nodes[j] == entry
    modifies (set a | a in nodes)`next, (set a | a in nodes)`previous
    ensures Ring(Drop(nodes, j)) && NoDuplicates(Drop(nodes, j))
    ensures entry.next == entry && entry.previous == entry
  {
    ghost var nodes' := Drop(nodes, j);
    DropFacts(nodes, j, entry);
    assert At(nodes, j) == entry;
    assert At(nodes, if j == 0 then |nodes| - 1 else j - 1) == entry.previous;
    assert At(nodes, if j + 1 == |nodes| then 0 else j + 1) == entry.next;
    entry.next.previous := entry.previous;
    entry.previous.next := entry.next;
    entry.previous := entry;
    entry.next := entry;
    forall i | 0 <= i < |nodes'| ensures
      && At(nodes', i).next == nodes'[if i + 1 == |nodes'| then 0 else i + 1]
      && At(nodes', i).previous == nodes'[if i == 0 then |nodes'| - 1 else i - 1]
    {
      assert At(nodes', i) == At(nodes, if i < j then i else i + 1);
    }
  }

  lemma OneMore(items: seq<Alarm>, pending: seq<Alarm>, alarm: Alarm)
    requires IsTail(pending, items)
    ensures IsTail(pending, [alarm] + items) && Elements([alarm] + items) == Elements(items) + {alarm}
  {
  }

  /** How an alarm was at some moment. */
  datatype Snapshot = Snapshot(timer: Timer, due: nat, exact: bool)

  ghost predicate Same(a: Alarm, timer: Timer, due: nat, exact: bool)
    reads a
  {
    a.timer == timer && a.due == due && a.exact == exact
  }

  ghost function Just(a: Alarm?): set<Alarm> {
    if a == null then {} else {a}
  }

  /** What a callback answered in a tick, if it was made at all. */
  datatype Answer = NotCalled | Returned(period: nat)

  /** What has become, in one tick, of an alarm that was registered when it began. */
  datatype Fate = Waiting | Skipped | Reached(answer: Answer)

  /** One tick: the fates of the alarms registered when it began, and what callbacks started or stopped. */
  datatype Record = Record(fate: map<Alarm, Fate>, touched: set<Alarm>)

  predicate Called(f: Fate) {
    f.Reached? && f.answer.Returned?
  }

  /** A callback that was made: of which alarm, at which ideal tick, and what it returned. */
  datatype Made = Made(alarm: Alarm, tick: nat, period: nat)

  /** The callbacks of one alarm among all that were made. */
  ghost function CallsOf(calls: seq<Made>, a: Alarm): seq<Made> {
    if calls == [] then [] else
      var last := calls[|calls| - 1];
      CallsOf(calls[..|calls| - 1], a) + if last.alarm == a then [last] else []
  }

  /** The callback that goes with a fate. */
  ghost function CallFor(a: Alarm, f: Fate, now: nat): seq<Made> {
    if Called(f) then [Made(a, now, f.answer.period)] else []
  }

  /** The callbacks made in a tick are exactly those that the fates tell of, at most one an alarm. */
  ghost predicate Tally(calls: seq<Made>, fate: map<Alarm, Fate>, now: nat) {
    && (forall i :: 0 <= i < |calls| ==> calls[i].alarm in fate)
    && forall a {:trigger CallsOf(calls, a)} :: a in fate ==> CallsOf(calls, a) == CallFor(a, fate[a], now)
  }

  lemma TallyStep(calls: seq<Made>, fate: map<Alarm, Fate>, fate': map<Alarm, Fate>, now: nat, alarm: Alarm)
    requires Tally(calls, fate, now) && fate'.Keys == fate.Keys && alarm in fate && !Called(fate[alarm])
    requires forall a :: a in fate && a != alarm ==>
               fate'[a] == fate[a] || (fate[a] == Waiting && fate'[a] == Skipped)
    ensures Tally(calls + CallFor(alarm, fate'[alarm], now), fate', now)
  {
    var more := CallFor(alarm, fate'[alarm], now);
    assert more == [] ==> calls + more == calls;
    assert more != [] ==> (calls + more)[..|calls|] == calls;
    forall a | a in fate'
      ensures CallsOf(calls + more, a) == CallFor(a, fate'[a], now)
    {
      assert CallsOf(calls, a) == CallFor(a, fate[a], now);
    }
  }

  /** The alarms that wait to be reached are the pending ones, and no callback has touched them. */
  ghost predicate Tracks(pending: seq<Alarm>, fate: map<Alarm, Fate>, touched: set<Alarm>) {
    && (forall a {:trigger a in pending} :: a in pending ==> a in fate && fate[a].Waiting?)
    && (forall a {:trigger fate[a]} :: a in fate && fate[a].Waiting? ==> a in pending && a !in touched)
  }

  /** An alarm that is stopped before the walk gets to it is skipped. */
  ghost function Stopped(fate: map<Alarm, Fate>, alarm: Alarm): map<Alarm, Fate> {
    if alarm in fate && fate[alarm].Waiting? then fate[alarm := Skipped] else fate
  }

  /** What stopping an alarm does to the list, to the pending part of it and to the fates. */
  lemma SequencesAfter(items: seq<Alarm>, pending: seq<Alarm>, fate: map<Alarm, Fate>, touched: set<Alarm>,
                       k: int, a: Alarm)
    requires NoDuplicates(items) && IsTail(pending, items) && Tracks(pending, fate, touched)
    requires k < |items| && if k < 0 then a !in items else items[k] == a
    ensures Elements(Drop(items, k)) == Elements(items) - {a}
    ensures var pending' := DropFromTail(pending, items, k);
            && IsTail(pending', Drop(items, k)) && |pending'| <= |pending|
            && Tracks(pending', Stopped(fate, a), touched)
            && (pending != [] && pending[0] != a ==> pending' != [] && pending'[0] == pending[0])
            && (pending == [] ==> pending' == [])
            && forall x :: x != a ==> (x in pending' <==> x in pending)
  {
    DropFacts(items, k, a);
    TailAfterDrop(pending, items, k);
    TailFacts(pending, items, k, a);
    var pending' := DropFromTail(pending, items, k);
    StoppedTracks(pending, pending', fate, touched, a);
    forall x ensures x != a ==> (x in pending' <==> x in pending) {
      assert x in Elements(pending') <==> x in Elements(pending) - {a};
    }
  }

  lemma StoppedTracks(pending: seq<Alarm>, pending': seq<Alarm>, fate: map<Alarm, Fate>, touched: set<Alarm>,
                      a: Alarm)
    requires Tracks(pending, fate, touched) && Elements(pending') == Elements(pending) - {a}
    ensures Tracks(pending', Stopped(fate, a), touched)
  {
    forall x ensures x in pending' <==> x in pending && x != a {
      assert x in Elements(pending') <==> x in Elements(pending) - {a};
    }
  }

  lemma TouchedGrows(pending: seq<Alarm>, fate: map<Alarm, Fate>, touched: set<Alarm>, a: Alarm)
    requires Tracks(pending, fate, touched) && (a in fate ==> !fate[a].Waiting?)
    ensures Tracks(pending, fate, touched + {a})
  {
  }

  /** Alarms that are not registered are rings of their own. */
  ghost predicate SelfLinked(spare: set<Alarm>)
    reads spare`next, spare`previous
  {
    forall a {:trigger a in spare} :: a in spare ==> a.next == a && a.previous == a
  }

  /** The bookkeeping about the list and the tick in progress agrees with itself. */
  ghost predicate Books(items: seq<Alarm>, members: set<Alarm>, spare: set<Alarm>, known: set<Alarm>,
                        pending: seq<Alarm>, fate: map<Alarm, Fate>, touched: set<Alarm>)
  {
    && members == Elements(items) && spare !! members && known == members + spare
    && IsTail(pending, items) && Tracks(pending, fate, touched)
  }

  lemma BooksAfterStop(items: seq<Alarm>, members: set<Alarm>, spare: set<Alarm>, known: set<Alarm>,
                       pending: seq<Alarm>, fate: map<Alarm, Fate>, touched: set<Alarm>, k: int, a: Alarm)
    returns (items': seq<Alarm>, pending': seq<Alarm>)
    requires Books(items, members, spare, known, pending, fate, touched) && NoDuplicates(items)
    requires k < |items| && (if k < 0 then a !in items else items[k] == a)
    ensures items' == Drop(items, k) && |pending'| <= |pending|
    ensures Books(items', members - {a}, spare + {a}, known + {a}, pending', Stopped(fate, a), touched)
    ensures pending != [] && pending[0] != a ==> pending' != [] && pending'[0] == pending[0]
    ensures pending == [] ==> pending' == []
    ensures forall x :: x != a ==> (x in pending' <==> x in pending)
  {
    items', pending' := Drop(items, k), DropFromTail(pending, items, k);
    SequencesAfter(items, pending, fate, touched, k, a);
  }

  lemma PendingAreMembers(items: seq<Alarm>, members: set<Alarm>, spare: set<Alarm>, known: set<Alarm>,
                          pending: seq<Alarm>, fate: map<Alarm, Fate>, touched: set<Alarm>)
    requires Books(items, members, spare, known, pending, fate, touched)
    ensures forall a :: a in pending ==> a in members
  {
    forall a | a in pending ensures a in members {
      assert a in items[|items| - |pending|..];
    }
  }

  lemma BooksAfterStart(items: seq<Alarm>, members: set<Alarm>, spare: set<Alarm>, known: set<Alarm>,
                        pending: seq<Alarm>, fate: map<Alarm, Fate>, touched: set<Alarm>, a: Alarm)
    requires Books(items, members, spare, known, pending, fate, touched) && a !in members
    ensures Books([a] + items, members + {a}, spare - {a}, known + {a}, pending, fate, touched + {a})
  {
    PendingAreMembers(items, members, spare, known, pending, fate, touched);
    OneMore(items, pending, a);
    TouchedGrows(pending, fate, touched, a);
  }

  function PeriodOf(answer: Answer): nat {
    if answer.Returned? then answer.period else 0
  }

  /** An alarm that the walk has yet to reach still stands as it did one tick ago. */
  ghost predicate OnTime(t: Timer, now: nat, due: nat, waiting: bool) {
    Stands(t, if waiting && now > 0 then now - 1 else now, due)
  }

  /** Every alarm of the set whose timer is exact stands for its ideal deadline. */
  ghost predicate AllOnTime(members: set<Alarm>, now: nat, pending: seq<Alarm>)
    reads members`timer, members`due, members`exact
  {
    forall a {:trigger a in members} :: a in members && a.exact ==> OnTime(a.timer, now, a.due, a in pending)
  }

  lemma FewerOnTime(members: set<Alarm>, now: nat, pending: seq<Alarm>, alarm: Alarm, pending': seq<Alarm>)
    requires AllOnTime(members, now, pending)
    requires forall x :: x != alarm ==> (x in pending' <==> x in pending)
    ensures AllOnTime(members - {alarm}, now, pending')
  {
  }

  lemma HeadLink(head: Alarm, items: seq<Alarm>)
    requires Linked(head, items)
    ensures head.next == if items == [] then head else items[0]
  {
    assert At([head] + items, 0) == head;
  }

  /** When a tick begins every registered alarm is pending. */
  lemma AllWaiting(items: seq<Alarm>, members: set<Alarm>, spare: set<Alarm>, known: set<Alarm>, now: nat)
    requires AllOnTime(members, now, []) && members == Elements(items)
    requires spare !! members && known == members + spare
    ensures AllOnTime(members, now + 1, items)
    ensures Books(items, members, spare, known, items, map a | a in members :: Waiting, {})
  {
    assert items[0..] == items;
  }

  class Clock {
    const head: Alarm
    const tickRate: nat
    var nticks: nat
    var spare: set<Alarm>                  // alarms that were registered and are not any more

    ghost var now: nat                     // ticks since reset, never wrapping
    ghost var items: seq<Alarm>            // the registered alarms, in list order
    ghost var members: set<Alarm>          // the same, as a set
    ghost var known: set<Alarm>            // registered now or at some time before

    // About the tick in progress, or the last one.
    ghost var pending: seq<Alarm>          // registered when it began, not reached yet
    ghost var fate: map<Alarm, Fate>       // what became of those registered when it began
    ghost var touched: set<Alarm>          // started or stopped by a callback
    ghost var log: seq<Record>             // what happened in each tick that is over
    ghost var calls: seq<Made>             // the callbacks made since reset

    ghost predicate Valid()
      reads this, head, items, spare
    {
      && Linked(head, items) && head !in spare && SelfLinked(spare) && nticks == now % WORD
      && Books(items, members, spare, known, pending, fate, touched)
      && (pending != [] ==> now > 0) && AllOnTime(members, now, pending)
    }

    /** Where the walk goes next: the first pending alarm, or the head when none is left. */
    ghost function First(): Alarm
      reads this
    {
      if pending == [] then head else pending[0]
    }

    /** The reset state: no alarms, counter zero, no system clock unless `tickRate` is positive. */
    constructor (tickRate: nat)
      ensures Valid() && items == [] && known == {} && nticks == 0 && now == 0 && pending == []
      ensures this.tickRate == tickRate && fresh(head) && log == [] && calls == []
    {
      head := new Alarm();
      this.tickRate, nticks, spare := tickRate, 0, {};
      now, items, members, known := 0, [], {}, {};
      pending, fate, touched, log, calls := [], map[], {}, [], [];
    }

    /**
      Registers an alarm to go off in `interval` ticks. Any structure will do, used before or not and
      whatever it contains, if it is not on the list.
     */
    method Start(alarm: Alarm?, interval: nat) returns (rc: int)
      requires Valid() && interval < WORD && (alarm != null ==> alarm != head && alarm !in members)
      modifies this`items, this`members, this`spare, this`known, this`touched
      modifies Members(head, items)`next, Members(head, items)`previous
      modifies Just(alarm)`next, Just(alarm)`previous, Just(alarm)`timer, Just(alarm)`due, Just(alarm)`exact
      ensures Valid()
      ensures rc == if tickRate == 0 then -ENOTSUP else if alarm == null then -EINVAL else 0
      ensures rc == 0 ==> items == [alarm] + old(items) && members == old(members) + {alarm}
      ensures rc == 0 ==> spare == old(spare) - {alarm} && touched == old(touched) + {alarm}
      ensures rc == 0 ==> known == old(known) + {alarm}
      ensures rc == 0 ==> alarm.timer == Started(nticks, interval) && alarm.due == now + interval + 1
      ensures rc == 0 ==> (alarm.exact <==> interval <= WORD - 2)
      ensures rc != 0 && alarm != null ==> unchanged(alarm)
      ensures rc != 0 ==> unchanged(this)
    {
      if tickRate != 0 {
        if alarm != null {
          Register(alarm, interval);
          rc := 0;
        } else {
          rc := -EINVAL;
        }
      } else {
        rc := -ENOTSUP;
      }
    }

    /** Sets the deadline and links the alarm in, with interrupts disabled. */
    method Register(alarm: Alarm, interval: nat)
      requires Valid() && interval < WORD && alarm != head && alarm !in members
      modifies this`items, this`members, this`spare, this`known, this`touched
      modifies Members(head, items)`next, Members(head, items)`previous
      modifies alarm`next, alarm`previous, alarm`timer, alarm`due, alarm`exact
      ensures Valid()
      ensures items == [alarm] + old(items) && members == old(members) + {alarm}
      ensures spare == old(spare) - {alarm} && touched == old(touched) + {alarm} && known == old(known) + {alarm}
      ensures alarm.timer == Started(nticks, interval) && alarm.due == now + interval + 1
      ensures alarm.exact <==> interval <= WORD - 2
    {
      var time := (interval + nticks + 1) % WORD;
      alarm.timer := Timer(time, time < nticks);
      alarm.due, alarm.exact := now + interval + 1, interval <= WORD - 2;
      Insert(head, alarm, items);
      if interval <= WORD - 2 {
        StartStands(now, interval);
      }
      OneMoreOnTime(alarm);
      Enrol(alarm);
    }

    /** The bookkeeping for an alarm that has just been linked in. */
    method Enrol(alarm: Alarm)
      requires Linked(head, [alarm] + items) && nticks == now % WORD && head !in spare && SelfLinked(spare - {alarm})
      requires Books(items, members, spare, known, pending, fate, touched) && alarm !in members
      requires (pending != [] ==> now > 0) && AllOnTime(members + {alarm}, now, pending)
      modifies this`items, this`members, this`spare, this`known, this`touched
      ensures Valid()
      ensures items == [alarm] + old(items) && members == old(members) + {alarm}
      ensures spare == old(spare) - {alarm} && touched == old(touched) + {alarm} && known == old(known) + {alarm}
    {
      BooksAfterStart(items, members, spare, known, pending, fate, touched, alarm);
      items, members, spare, touched := [alarm] + items, members + {alarm}, spare - {alarm}, touched + {alarm};
      known := known + {alarm};
    }

    lemma OneMoreOnTime(alarm: Alarm)
      requires AllOnTime(members, now, pending) && alarm !in members
      requires Books(items, members, spare, known, pending, fate, touched)
      requires alarm.exact ==> Stands(alarm.timer, now, alarm.due)
      ensures AllOnTime(members + {alarm}, now, pending)
    {
      PendingAreMembers(items, members, spare, known, pending, fate, touched);
    }

    /**
      Unregisters an alarm, which must be on the list or linked to itself. Its place in the list was `k`,
      negative when it was not registered.
     */
    method Stop(alarm: Alarm) returns (ghost k: int)
      requires Valid() && alarm != head && (alarm !in members ==> SelfLinked({alarm}))
      modifies this`items, this`members, this`spare, this`known, this`pending, this`fate
      modifies Members(head, items)`next, Members(head, items)`previous, alarm`next, alarm`previous
      ensures Valid()
      ensures k < |old(items)| && if k < 0 then alarm !in old(members) else old(items)[k] == alarm
      ensures items == Drop(old(items), k) && members == old(members) - {alarm} && spare == old(spare) + {alarm}
      ensures known == old(known) + {alarm}
      ensures fate == Stopped(old(fate), alarm)
      ensures |pending| <= old(|pending|) && (old(First()) != alarm ==> First() == old(First()))
    {
      k := -1;
      if alarm in items {
        k :| 0 <= k < |items| && items[k] == alarm;
      }
      Unlink(alarm, k);
      ItemsDistinct(head, items);
      Forget(alarm, k);
    }

    /** Takes the node out of its ring. */
    method Unlink(alarm: Alarm, ghost k: int)
      requires Valid() && alarm != head && k < |items| && if k < 0 then SelfLinked({alarm}) else items[k] == alarm
      modifies Members(head, items)`next, Members(head, items)`previous, alarm`next, alarm`previous
      ensures NoDuplicates([head] + items) && Linked(head, Drop(items, k)) && SelfLinked(spare + {alarm})
    {
      ghost var nodes, j := RingOf(alarm, k);
      Remove(alarm, nodes, j);
    }

    /** The ring that a registered alarm, or a spare one, is in. */
    lemma RingOf(alarm: Alarm, k: int) returns (nodes: seq<Alarm>, j: nat)
      requires Valid() && k < |items| && if k < 0 then SelfLinked({alarm}) else items[k] == alarm
      ensures Ring(nodes) && NoDuplicates(nodes) && j < |nodes| && nodes[j] == alarm
      ensures k < 0 ==> nodes == [alarm]
      ensures forall x :: x in spare && x != alarm ==> x !in nodes
      ensures k >= 0 ==> nodes == [head] + items && Drop(nodes, j) == [head] + Drop(items, k) && head !in Drop(items, k)
    {
      if k < 0 {
        nodes, j := [alarm], 0;
      } else {
        nodes, j := [head] + items, k + 1;
        DropInRing(head, items, k);
        assert forall x :: x in items ==> x in members;
      }
    }

    /** The bookkeeping for an alarm that has just been taken out of the list. */
    method Forget(alarm: Alarm, ghost k: int)
      requires alarm != head && head !in spare && SelfLinked(spare + {alarm})
      requires k < |items| && (if k < 0 then alarm !in items else items[k] == alarm)
      requires NoDuplicates(items) && nticks == now % WORD && Linked(head, Drop(items, k))
      requires Books(items, members, spare, known, pending, fate, touched)
      requires (pending != [] ==> now > 0) && AllOnTime(members, now, pending)
      modifies this`items, this`members, this`spare, this`known, this`pending, this`fate
      ensures Valid()
      ensures items == Drop(old(items), k) && members == old(members) - {alarm} && spare == old(spare) + {alarm}
      ensures known == old(known) + {alarm}
      ensures fate == Stopped(old(fate), alarm)
      ensures |pending| <= old(|pending|) && (old(First()) != alarm ==> First() == old(First()))
    {
      ghost var items', pending' := BooksAfterStop(items, members, spare, known, pending, fate, touched, k, alarm);
      FewerOnTime(members, now, pending, alarm, pending');
      items, members, spare, pending := items', members - {alarm}, spare + {alarm}, pending';
      fate, known := Stopped(fate, alarm), known + {alarm};
    }

    /** Any member of the list, or its head: the node some number of links along. */
    method Walk() returns (a: Alarm)
      requires Valid()
      ensures a == head || a in members
    {
      ghost var nodes := [head] + items;
      assert At(nodes, 0) == head;
      a := head.next;
      var steps: int := *;
      while steps > 0
        invariant a in nodes
        decreases steps
      {
        ghost var i :| 0 <= i < |nodes| && nodes[i] == a;
        assert At(nodes, i) == a;
        a := a.next;
        steps := steps - 1;
      }
    }

    /** Names an alarm that callbacks may start although the program has not started it yet. */
    method Admit(alarm: Alarm)
      requires Valid() && alarm != head && alarm !in members && SelfLinked({alarm})
      modifies this`spare, this`known
      ensures Valid() && spare == old(spare) + {alarm} && known == old(known) + {alarm}
    {
      spare, known := spare + {alarm}, known + {alarm};
    }

    /** A callback starts an alarm that is not registered. */
    method CallbackStart(a: Alarm, interval: nat)
      requires Valid() && a != head && a !in members && interval < WORD
      modifies this`items, this`members, this`spare, this`known, this`touched
      modifies Members(head, items)`next, Members(head, items)`previous, a
      ensures Valid() && old(known) <= known <= old(known) + {a}
      ensures forall x :: x in members && x != a ==> x in old(members)
      ensures forall x :: x in old(members) ==> x in members
      ensures old(touched) <= touched && (a in touched || (unchanged(a) && members == old(members)))
    {
      var rc := Start(a, interval);
    }

    /** A callback stops a registered alarm other than the one the walk goes to next. */
    method CallbackStop(a: Alarm)
      requires Valid() && a in members && a != First()
      modifies this`items, this`members, this`spare, this`known, this`pending, this`fate, this`touched
      modifies Members(head, items)`next, Members(head, items)`previous, a`next, a`previous
      ensures Valid() && First() == old(First()) && |pending| <= old(|pending|)
      ensures fate == Stopped(old(fate), a) && touched == old(touched) + {a} && members == old(members) - {a}
      ensures known == old(known)
    {
      ghost var k := Stop(a);
      TouchedGrows(pending, fate, touched, a);
      touched := touched + {a};
    }

    /**
      One thing a callback may do: start an unregistered alarm, an old one or a new one, or stop a registered one other
      than `saved`, the one the walk goes to next.
     */
    method CallbackAction(saved: Alarm)
      requires Valid() && saved == First()
      modifies this`items, this`members, this`spare, this`known, this`pending, this`fate, this`touched
      modifies Members(head, items), spare
      ensures Valid() && First() == old(First()) && |pending| <= old(|pending|)
      ensures fate.Keys == old(fate).Keys && old(touched) <= touched
      ensures forall a :: a in members && a !in touched ==> a in old(members)
      ensures old(known) <= known && fresh(known - old(known))
      ensures forall a :: a in fate ==>
                fate[a] == old(fate)[a] || (old(fate)[a] == Waiting && fate[a] == Skipped && a in touched)
      ensures forall a :: a in old(known) && a !in touched ==>
                Same(a, old(a.timer), old(a.due), old(a.exact)) && (a in members <==> a in old(members))
    {
      var starts: bool := *;
      if starts {
        var interval: int := *;
        var again: bool := *;
        if 0 <= interval < WORD {
          if again && spare != {} {
            var a :| a in spare;
            CallbackStart(a, interval);
          } else {
            var a := new Alarm();
            CallbackStart(a, interval);
          }
        }
      } else {
        var a := Walk();
        if a != head && a != saved {
          CallbackStop(a);
        }
      }
    }

    /** A callback: any number of such actions, then the next period, or zero. */
    method RunCallback(alarm: Alarm, saved: Alarm) returns (period: nat)
      requires Valid() && saved == First()
      modifies this`items, this`members, this`spare, this`known, this`pending, this`fate, this`touched
      modifies this`calls
      modifies Members(head, items), spare
      ensures Valid() && First() == old(First()) && |pending| <= old(|pending|) && period < WORD
      ensures calls == old(calls) + [Made(alarm, now, period)]
      ensures fate.Keys == old(fate).Keys && old(touched) <= touched
      ensures forall a :: a in members && a !in touched ==> a in old(members)
      ensures old(known) <= known && fresh(known - old(known))
      ensures forall a :: a in fate ==>
                fate[a] == old(fate)[a] || (old(fate)[a] == Waiting && fate[a] == Skipped && a in touched)
      ensures forall a :: a in old(known) && a !in touched ==>
                Same(a, old(a.timer), old(a.due), old(a.exact)) && (a in members <==> a in old(members))
    {
      var actions: int := *;
      while actions > 0
        invariant calls == old(calls) && Valid() && First() == old(First()) && |pending| <= old(|pending|)
        invariant fate.Keys == old(fate).Keys && old(touched) <= touched
        invariant forall a :: a in members && a !in touched ==> a in old(members)
        invariant old(known) <= known && fresh(known - old(known))
        invariant forall a :: a in fate ==>
                    fate[a] == old(fate)[a] || (old(fate)[a] == Waiting && fate[a] == Skipped && a in touched)
        invariant forall a :: a in old(known) && a !in touched ==>
                    Same(a, old(a.timer), old(a.due), old(a.exact)) && (a in members <==> a in old(members))
        decreases actions
      {
        CallbackAction(saved);
        actions := actions - 1;
      }
      var p: int := *;
      period := if 0 <= p < WORD then p else 0;
      calls := calls + [Made(alarm, now, period)];
    }

    lemma FirstIsWaiting()
      requires Valid()
      ensures pending != [] ==> First() in fate && fate[First()] == Waiting && First() in members
      ensures head !in known && (First() == head <==> pending == [])
    {
      if pending != [] {
        assert pending[0] == items[|items| - |pending|] && pending[0] in pending;
      }
    }

    lemma HeadIsLast()
      requires Valid()
      ensures First() == head <==> pending == []
    {
      FirstIsWaiting();
    }

    /** Acts on what a callback returned: zero retires the alarm, anything else reschedules it. */
    method Conclude(alarm: Alarm, period: nat)
      requires Valid() && alarm in known && alarm in fate && fate[alarm].Reached?
      modifies this`items, this`members, this`spare, this`known, this`pending, this`fate
      modifies Members(head, items), alarm
      ensures Valid() && First() == old(First()) && |pending| <= old(|pending|)
      ensures fate == old(fate)[alarm := Reached(Returned(period))]
      ensures members == if period == 0 then old(members) - {alarm} else old(members)
      ensures known == old(known)
      ensures alarm.timer == if period == 0 then old(alarm.timer) else Rescheduled(old(alarm.timer), nticks, period)
      ensures alarm.due == old(alarm.due) + period && (alarm.exact ==> old(alarm.exact))
      ensures forall a :: a in old(known) && a != alarm ==> Same(a, old(a.timer), old(a.due), old(a.exact))
    {
      fate := fate[alarm := Reached(Returned(period))];
      if period == 0 {
        Retire(alarm);
      } else {
        Reschedule(alarm, period);
      }
    }

    /** Takes an alarm that the walk has reached off the list. */
    method Retire(alarm: Alarm)
      requires Valid() && alarm in known && alarm in fate && fate[alarm].Reached?
      modifies this`items, this`members, this`spare, this`known, this`pending, this`fate
      modifies Members(head, items)`next, Members(head, items)`previous, alarm`next, alarm`previous
      ensures Valid() && First() == old(First()) && |pending| <= old(|pending|) && fate == old(fate)
      ensures members == old(members) - {alarm} && known == old(known)
    {
      FirstIsWaiting();
      ghost var k := Stop(alarm);
    }

    /** Moves the deadline of an alarm by what its callback returned. */
    method Reschedule(alarm: Alarm, period: nat)
      requires Valid()
      modifies alarm`timer, alarm`due, alarm`exact
      ensures Valid() && !alarm.exact
      ensures alarm.timer == Rescheduled(old(alarm.timer), nticks, period) && alarm.due == old(alarm.due) + period
    {
      var time := (alarm.timer.time + period) % WORD;
      alarm.timer := Timer(time, alarm.timer.rollover || time < nticks);
      alarm.due, alarm.exact := alarm.due + period, false;
    }

    /** Makes the callback of an alarm that is due and acts on its answer. */
    method CallBack(alarm: Alarm, next: Alarm)
      requires Valid() && next == First() && alarm in members && alarm in fate && fate[alarm] == Reached(NotCalled)
      requires !alarm.exact
      modifies this`items, this`members, this`spare, this`known, this`pending, this`fate, this`touched, this`calls
      modifies Members(head, items), spare
      ensures Valid() && First() == old(First()) && |pending| <= old(|pending|)
      ensures fate.Keys == old(fate).Keys && old(touched) <= touched
      ensures calls == old(calls) + CallFor(alarm, fate[alarm], now) && Called(fate[alarm])
      ensures forall a :: a in members && a !in touched ==> a in old(members)
      ensures old(known) <= known && fresh(known - old(known))
      ensures forall a :: a in fate && a != alarm ==>
                fate[a] == old(fate)[a] || (old(fate)[a] == Waiting && fate[a] == Skipped && a in touched)
      ensures forall a :: a in old(known) && a !in touched && a != alarm ==>
                Same(a, old(a.timer), old(a.due), old(a.exact)) && (a in members <==> a in old(members))
      ensures fate[alarm].Reached? && fate[alarm].answer.Returned? && fate[alarm].answer.period < WORD
      ensures var period := fate[alarm].answer.period;
              && (period == 0 ==> alarm !in members)
              && (alarm !in touched ==>
                    && (period > 0 ==> alarm in members) && !alarm.exact
                    && alarm.due == old(alarm.due) + period
                    && alarm.timer == if period == 0 then old(alarm.timer)
                                      else Rescheduled(old(alarm.timer), nticks, period))
    {
      var period := RunCallback(alarm, next);
      Conclude(alarm, period);
    }

    /** The link of the first pending alarm leads to the next one, or back to the head. */
    lemma AfterFirst()
      requires Valid() && pending != []
      ensures pending[0] in pending && IsTail(pending[1..], items)
      ensures pending[0].next == if |pending| == 1 then head else pending[1]
      ensures forall a :: a in pending[1..] <==> a in pending && a != pending[0]
    {
      var nodes, i := [head] + items, |items| - |pending| + 1;
      assert At(nodes, i) == items[i - 1] == items[i - 1..][0] == pending[0];
      ItemsDistinct(head, items);
      TailDistinct(pending, items);
      DropFacts(pending, 0, pending[0]);
      var rest := pending[1..];
      assert Drop(pending, 0) == rest == items[i..];
      forall a ensures a in rest <==> a in pending && a != pending[0] {
        assert a in Elements(rest) <==> a in Elements(pending) - {pending[0]};
      }
    }

    /** The walk reaches the first pending alarm. Until the step is over its timer is in between two ticks. */
    method Reach(alarm: Alarm) returns (next: Alarm)
      requires Valid() && pending != [] && alarm == First()
      modifies this`pending, this`fate, alarm`exact
      ensures Valid() && next == First() && |pending| == old(|pending|) - 1 && !alarm.exact
      ensures alarm in old(fate) && old(fate)[alarm] == Waiting && fate == old(fate)[alarm := Reached(NotCalled)]
    {
      AfterFirst();
      next := alarm.next;
      alarm.exact := false;
      pending, fate := pending[1..], fate[alarm := Reached(NotCalled)];
    }

    /** One tick's effect on an alarm that was as `was` says when the tick began. */
    ghost predicate Settled(a: Alarm, f: Fate, was: Snapshot)
      reads this, a
    {
      match f
      case Waiting => a in members && a !in touched && Same(a, was.timer, was.due, was.exact)
      case Skipped => a in touched
      case Reached(answer) =>
        && (answer.Returned? <==> Fires(was.timer, nticks)) && PeriodOf(answer) < WORD
        && (a !in touched ==>
              && a.timer == Visited(was.timer, nticks, PeriodOf(answer)) && a.due == was.due + PeriodOf(answer)
              && (a in members <==> answer != Returned(0))
              && (a in members ==> a.exact == was.exact))
    }

    /** One step of the walk: reach an alarm, clear its flag at a wrap, call back if it is due. */
    method VisitOne(alarm: Alarm) returns (next: Alarm)
      requires Valid() && pending != [] && alarm == First()
      modifies this`items, this`members, this`spare, this`known, this`pending, this`fate, this`touched, this`calls
      modifies Members(head, items), spare
      ensures Valid() && next == First() && |pending| < old(|pending|)
      ensures fate.Keys == old(fate).Keys && old(touched) <= touched && alarm in fate
      ensures forall a :: a in members && a !in touched ==> a in old(members)
      ensures old(known) <= known && fresh(known - old(known))
      ensures forall a :: a in fate && a != alarm ==>
                fate[a] == old(fate)[a] || (old(fate)[a] == Waiting && fate[a] == Skipped && a in touched)
      ensures forall a :: a in old(known) && a !in touched && a != alarm ==>
                Same(a, old(a.timer), old(a.due), old(a.exact)) && (a in members <==> a in old(members))
      ensures old(fate)[alarm] == Waiting && fate[alarm].Reached?
      ensures Settled(alarm, fate[alarm], Snapshot(old(alarm.timer), old(alarm.due), old(alarm.exact)))
      ensures !Called(fate[alarm]) ==> touched == old(touched)
      ensures calls == old(calls) + CallFor(alarm, fate[alarm], now)
    {
      FirstIsWaiting();
      ghost var was := Snapshot(alarm.timer, alarm.due, alarm.exact);
      next := Reach(alarm);
      Serve(alarm, next);
      Restore(alarm, was);
    }

    /** Clears the flag of the alarm reached at a wrap, and calls back if it is due. */
    method Serve(alarm: Alarm, next: Alarm)
      requires Valid() && next == First() && alarm in members && alarm in fate && fate[alarm] == Reached(NotCalled)
      requires !alarm.exact
      modifies this`items, this`members, this`spare, this`known, this`pending, this`fate, this`touched, this`calls
      modifies Members(head, items), spare
      ensures Valid() && First() == old(First()) && |pending| <= old(|pending|)
      ensures fate.Keys == old(fate).Keys && old(touched) <= touched
      ensures calls == old(calls) + CallFor(alarm, fate[alarm], now)
      ensures forall a :: a in members && a !in touched ==> a in old(members)
      ensures old(known) <= known && fresh(known - old(known))
      ensures forall a :: a in fate && a != alarm ==>
                fate[a] == old(fate)[a] || (old(fate)[a] == Waiting && fate[a] == Skipped && a in touched)
      ensures forall a :: a in old(known) && a !in touched && a != alarm ==>
                Same(a, old(a.timer), old(a.due), old(a.exact)) && (a in members <==> a in old(members))
      ensures fate[alarm].Reached? && PeriodOf(fate[alarm].answer) < WORD
      ensures fate[alarm].answer.Returned? <==> Fires(old(alarm.timer), nticks)
      ensures !Called(fate[alarm]) ==> touched == old(touched)
      ensures alarm !in touched ==>
                && alarm.timer == Visited(old(alarm.timer), nticks, PeriodOf(fate[alarm].answer))
                && alarm.due == old(alarm.due) + PeriodOf(fate[alarm].answer)
                && (alarm in members <==> fate[alarm].answer != Returned(0))
                && !alarm.exact
    {
      if alarm.timer.rollover && nticks == 0 {
        alarm.timer := alarm.timer.(rollover := false);
      }
      if alarm.timer.time <= nticks && !alarm.timer.rollover {
        CallBack(alarm, next);
      }
    }

    /** At the end of the step an alarm that no callback touched stands for its next deadline. */
    ghost method Restore(alarm: Alarm, was: Snapshot)
      requires Valid() && now > 0 && alarm in fate && fate[alarm].Reached? && PeriodOf(fate[alarm].answer) < WORD
      requires alarm !in pending
      requires was.exact ==> Stands(was.timer, now - 1, was.due)
      requires fate[alarm].answer.Returned? <==> Fires(was.timer, nticks)
      requires alarm !in touched ==>
                 && alarm.timer == Visited(was.timer, nticks, PeriodOf(fate[alarm].answer))
                 && alarm.due == was.due + PeriodOf(fate[alarm].answer)
                 && (alarm in members <==> fate[alarm].answer != Returned(0))
                 && !alarm.exact
      modifies alarm`exact
      ensures Valid()
      ensures alarm !in touched && alarm in members ==> alarm.exact == was.exact
    {
      if was.exact && alarm !in touched && alarm in members {
        VisitStands(was.timer, now - 1, was.due, PeriodOf(fate[alarm].answer));
        alarm.exact := true;
      }
    }

    /** The walk so far, given how the alarms were and which callbacks had been made when the tick began. */
    ghost predicate Progress(was: map<Alarm, Snapshot>, begun: seq<Made>)
      reads this, was.Keys
    {
      && fate.Keys == was.Keys && fate.Keys <= known
      && begun <= calls && Tally(calls[|begun|..], fate, now)
      && (touched == {} || exists a :: a in fate && Called(fate[a]))
      && (forall a :: a in members && a !in touched ==> a in was)
      && forall a {:trigger was[a]} :: a in was ==> Settled(a, fate[a], was[a])
    }

    /** Each step of the walk settles one more alarm and disturbs no settled one. */
    method Step(alarm: Alarm, ghost was: map<Alarm, Snapshot>, ghost begun: seq<Made>) returns (next: Alarm)
      requires Valid() && Progress(was, begun) && alarm == First() && alarm != head
      modifies this`items, this`members, this`spare, this`known, this`pending, this`fate, this`touched, this`calls
      modifies Members(head, items), spare
      ensures Valid() && Progress(was, begun) && next == First() && |pending| < old(|pending|)
      ensures next == head <==> pending == []
      ensures old(known) <= known && fresh(known - old(known))
    {
      FirstIsWaiting();
      assert alarm in fate && was[alarm] == Snapshot(alarm.timer, alarm.due, alarm.exact);
      ghost var before, made := fate, calls[|begun|..];
      next := VisitOne(alarm);
      TallyStep(made, before, fate, now, alarm);
      assert calls[|begun|..] == made + CallFor(alarm, fate[alarm], now);
      HeadIsLast();
      forall a | a in was ensures Settled(a, fate[a], was[a]) {
        if a != alarm {
          assert old(Settled(a, fate[a], was[a]));
        }
      }
    }

    /** The counter advances and every registered alarm is pending; nothing else has happened yet. */
    method BeginWalk()
      requires Valid() && pending == []
      modifies this`now, this`nticks, this`pending, this`fate, this`touched
      ensures Valid() && now == old(now) + 1 && nticks == (old(nticks) + 1) % WORD
      ensures pending == items && head.next == First()
      ensures fate == (map a | a in members :: Waiting) && touched == {}
    {
      HeadLink(head, items);
      AllWaiting(items, members, spare, known, now);
      pending, fate, touched := items, map a | a in members :: Waiting, {};
      now, nticks := now + 1, (nticks + 1) % WORD;
    }

    /** The walk begins with no alarm reached. */
    method BeginTick() returns (ghost was: map<Alarm, Snapshot>)
      requires Valid() && pending == []
      modifies this`now, this`nticks, this`pending, this`fate, this`touched
      ensures Valid() && now == old(now) + 1 && nticks == (old(nticks) + 1) % WORD
      ensures head.next == First() && fate.Keys == members
      ensures Progress(was, calls)
      ensures forall a :: a in members ==> was[a] == Snapshot(a.timer, a.due, a.exact)
    {
      was := map a | a in members :: Snapshot(a.timer, a.due, a.exact);
      BeginWalk();
    }

    /** The walk over the list, from the head round to the head again. */
    method WalkList(ghost was: map<Alarm, Snapshot>, ghost begun: seq<Made>)
      requires Valid() && Progress(was, begun) && head.next == First() && (First() == head <==> pending == [])
      modifies this`items, this`members, this`spare, this`known, this`pending, this`fate, this`touched, this`calls
      modifies Members(head, items), spare
      ensures Valid() && Progress(was, begun) && pending == []
      ensures old(known) <= known && fresh(known - old(known))
    {
      var alarm := head.next;
      while alarm != head
        invariant Valid() && Progress(was, begun) && alarm == First() && (alarm == head <==> pending == [])
        invariant old(known) <= known && fresh(known - old(known))
        decreases |pending|
      {
        alarm := Step(alarm, was, begun);
      }
    }

    /** Records the tick. */
    ghost method WriteLog()
      requires Valid()
      modifies this`log
      ensures Valid() && log == old(log) + [Record(fate, touched)]
    {
      log := log + [Record(fate, touched)];
    }

    /**
      The system clock tick. Every alarm registered when it begins is reached, and has exactly one
      tick's effect, unless an earlier callback of the same tick stopped it, and then it is skipped.
      Alarms started meanwhile are left alone. The list stays a well-formed ring whatever the
      callbacks do, and every registered alarm with an exact timer stands for its ideal deadline.
     */
    method Tick()
      requires Valid() && pending == []
      modifies this, Members(head, items), spare
      ensures Valid() && pending == [] && now == old(now) + 1 && nticks == (old(nticks) + 1) % WORD
      ensures old(known) <= known && fresh(known - old(known))
      ensures fate.Keys == old(members) && log == old(log) + [Record(fate, touched)]
      ensures old(calls) <= calls && Tally(calls[|old(calls)|..], fate, now)
      ensures touched == {} || exists a :: a in fate && Called(fate[a])
      ensures forall a :: a in members && a !in touched ==> a in old(members)
      ensures forall a :: a in old(members) ==> !fate[a].Waiting?
      ensures forall a :: a in old(members) ==>
                Settled(a, fate[a], Snapshot(old(a.timer), old(a.due), old(a.exact)))
    {
      ghost var was := BeginTick();
      HeadIsLast();
      WalkList(was, old(calls));
      WriteLog();
      forall a | a in old(members)
        ensures !fate[a].Waiting? && Settled(a, fate[a], Snapshot(old(a.timer), old(a.due), old(a.exact)))
      {
        assert was[a] == Snapshot(old(a.timer), old(a.due), old(a.exact));
      }
    }

    /**
      The same tick against the ideal schedule. An alarm with an exact timer is called back exactly when
      its ideal deadline is now. Unless a callback starts or stops it, or its own callback ends it, its
      timer stays exact and the next deadline is the period later. Every exact timer, those of alarms
      started during the tick included, stands for a deadline still to come.
     */
    method TickOnSchedule()
      requires Valid() && pending == []
      modifies this, Members(head, items), spare
      ensures Valid() && pending == [] && now == old(now) + 1 && nticks == (old(nticks) + 1) % WORD
      ensures fate.Keys == old(members)
      ensures log == old(log) + [Record(fate, touched)]
      ensures old(calls) <= calls && Tally(calls[|old(calls)|..], fate, now)
      ensures old(known) <= known && fresh(known - old(known))
      ensures touched == {} || exists a :: a in fate && Called(fate[a])
      ensures forall a :: a in members && a !in touched ==> a in old(members)
      ensures forall a :: a in old(members) && a !in touched ==>
                fate[a].Reached? && (Called(fate[a]) <==> Fires(old(a.timer), nticks))
      ensures forall a :: a in old(members) && fate[a].Reached? && old(a.exact) ==>
                var answer := fate[a].answer;
                && (answer.Returned? <==> old(a.due) == now)
                && (a !in touched ==> (a in members <==> answer != Returned(0)))
                && (a !in touched && a in members ==>
                      a.exact && a.due == if old(a.due) == now then now + answer.period else old(a.due))
      ensures forall a :: a in members && a.exact ==> Stands(a.timer, now, a.due)
    {
      Tick();
      forall a | a in old(members) && fate[a].Reached? && old(a.exact) ensures
        var answer := fate[a].answer;
        && (answer.Returned? <==> old(a.due) == now)
        && (a !in touched ==> (a in members <==> answer != Returned(0)))
        && (a !in touched && a in members ==>
              a.exact && a.due == if old(a.due) == now then now + answer.period else old(a.due))
      {
        VisitStands(old(a.timer), old(now), old(a.due), PeriodOf(fate[a].answer));
      }
    }
  }
}
