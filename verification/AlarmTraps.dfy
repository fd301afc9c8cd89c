/**
  Two calls that nothing in the scheduler rules out and after which the tick never ends: stopping,
  in a callback, the alarm the walk goes to next, and starting an alarm that is on the list.
 */
module AlarmTraps {
  import opened AlarmClock
  import opened AlarmTime
  import opened Powers

  /** A closed chain of links that leaves out the head. */
  ghost predicate Trap(head: Alarm, chain: seq<Alarm>)
    reads chain`next
  {
    && chain != [] && head !in chain
    && forall i {:trigger At(chain, i)} :: 0 <= i < |chain| ==>
         At(chain, i).next == chain[if i + 1 == |chain| then 0 else i + 1]
  }

  /** A walk that has come into such a chain is still in it after any number of links. */
  method Follow(head: Alarm, start: Alarm, n: nat, ghost chain: seq<Alarm>) returns (alarm: Alarm)
    requires Trap(head, chain) && start in chain
    ensures alarm in chain && alarm != head
  {
    alarm := start;
    var i := 0;
    while i < n
      invariant 0 <= i <= n && alarm in chain
    {
      ghost var k :| 0 <= k < |chain| && chain[k] == alarm;
      assert At(chain, k) == alarm;
      alarm := alarm.next;
      i := i + 1;
    }
  }

  /** Linking an entry in again closes a chain from the head's successor back to itself. */
  method InsertAgain(head: Alarm, entry: Alarm, ghost items: seq<Alarm>, ghost k: nat)
    requires Linked(head, items) && k < |items| && items[k] == entry
    modifies Members(head, items)`next, Members(head, items)`previous
    ensures head.next == entry && Trap(head, [entry] + items[..k])
  {
    ghost var nodes, chain := [head] + items, [entry] + items[..k];
    assert At(nodes, 0) == head && At(nodes, k + 1) == entry;
    LinkIn(head, entry);
    forall i | 0 <= i < |chain| ensures At(chain, i).next == chain[if i + 1 == |chain| then 0 else i + 1] {
      if i > 0 {
        assert At(chain, i) == At(nodes, i);
      }
    }
  }

  /** Starting an alarm that is on the list: no walk over it, however long, comes back to the head. */
  method StartAgain(c: Clock, alarm: Alarm, interval: nat, n: nat) returns (reached: Alarm)
    requires c.Valid() && alarm in c.members && interval < WORD
    modifies Members(c.head, c.items)`next, Members(c.head, c.items)`previous, alarm`timer
    ensures c.head.next == alarm && alarm.timer == Started(c.nticks, interval)
    ensures reached != c.head
  {
    ghost var k :| 0 <= k < |c.items| && c.items[k] == alarm;
    var time := (interval + c.nticks + 1) % WORD;
    alarm.timer := Timer(time, time < c.nticks);
    InsertAgain(c.head, alarm, c.items, k);
    reached := Follow(c.head, c.head.next, n, [alarm] + c.items[..k]);
  }

  /** Something a callback does, except to start `stuck`. */
  method ActionBeside(c: Clock, stuck: Alarm)
    requires c.Valid() && stuck in c.spare
    modifies c`items, c`members, c`spare, c`known, c`pending, c`fate, c`touched
    modifies Members(c.head, c.items), c.spare
    ensures c.Valid() && stuck in c.spare
    ensures old(c.known) <= c.known && fresh(c.known - old(c.known))
  {
    var starts: bool := *;
    if starts {
      var interval: int := *;
      var a := new Alarm();
      if c.spare != {stuck} {
        a :| a in c.spare && a != stuck;
      }
      if 0 <= interval < WORD {
        c.CallbackStart(a, interval);
      }
    } else {
      var a := c.Walk();
      if a != c.head {
        ghost var k := c.Stop(a);
      }
    }
  }

  /** A callback made while the walk is at `stuck`. */
  method CallbackBeside(c: Clock, stuck: Alarm) returns (period: nat)
    requires c.Valid() && stuck in c.spare
    modifies c`items, c`members, c`spare, c`known, c`pending, c`fate, c`touched
    modifies Members(c.head, c.items), c.spare
    ensures c.Valid() && stuck in c.spare && period < WORD
    ensures old(c.known) <= c.known && fresh(c.known - old(c.known))
  {
    var actions: int := *;
    while actions > 0
      invariant c.Valid() && stuck in c.spare
      invariant old(c.known) <= c.known && fresh(c.known - old(c.known))
      decreases actions
    {
      ActionBeside(c, stuck);
      actions := actions - 1;
    }
    var p: int := *;
    period := if 0 <= p < WORD then p else 0;
  }

  /** The loop body of the walk at an alarm that is not on the list. */
  method BodyBeside(c: Clock, stuck: Alarm) returns (next: Alarm)
    requires c.Valid() && stuck in c.spare
    modifies c`items, c`members, c`spare, c`known, c`pending, c`fate, c`touched
    modifies Members(c.head, c.items), c.spare
    ensures c.Valid() && stuck in c.spare && next == stuck
    ensures old(c.known) <= c.known && fresh(c.known - old(c.known))
  {
    next := stuck.next;
    if stuck.timer.rollover && c.nticks == 0 {
      stuck.timer := stuck.timer.(rollover := false);
    }
    if stuck.timer.time <= c.nticks && !stuck.timer.rollover {
      var period := CallbackBeside(c, stuck);
      if period == 0 {
        ghost var k := c.Stop(stuck);
      } else {
        c.Reschedule(stuck, period);
      }
    }
  }

  /**
    A callback stops the alarm the walk goes to next. As long as no later callback starts that alarm
    again, the walk is still at it after any number of rounds, and so the tick never ends.
   */
  method StopNext(c: Clock, next: Alarm, n: nat) returns (alarm: Alarm)
    requires c.Valid() && c.pending != [] && next == c.First()
    modifies c`items, c`members, c`spare, c`known, c`pending, c`fate, c`touched
    modifies Members(c.head, c.items), c.spare
    ensures c.Valid() && alarm == next && alarm != c.head && alarm !in c.members
  {
    c.FirstIsWaiting();
    ghost var k := c.Stop(next);
    alarm := next;
    var i := 0;
    while i < n
      invariant 0 <= i <= n && c.Valid() && alarm == next && next in c.spare
      invariant old(c.known) <= c.known && fresh(c.known - old(c.known))
    {
      alarm := BodyBeside(c, alarm);
      i := i + 1;
    }
  }

  /** From a registered alarm the links lead to the head, past the alarms behind it. */
  method Home(c: Clock, start: Alarm, ghost k: nat) returns (links: nat)
    requires c.Valid() && k < |c.items| && c.items[k] == start
    ensures links == |c.items| - k
  {
    var alarm := start;
    links := 0;
    while alarm != c.head
      invariant k + links <= |c.items|
      invariant alarm == if k + links == |c.items| then c.head else c.items[k + links]
      decreases |c.items| - k - links
    {
      assert At([c.head] + c.items, k + links + 1) == alarm;
      alarm := alarm.next;
      links := links + 1;
    }
  }

  /** Starting the alarm again is what lets the walk out: its links then lead past every alarm to the head. */
  method StartFrees(c: Clock, stuck: Alarm, interval: nat) returns (links: nat)
    requires c.Valid() && stuck in c.spare && 0 < c.tickRate && interval < WORD
    modifies c`items, c`members, c`spare, c`known, c`touched, Members(c.head, c.items), stuck
    ensures c.Valid() && stuck in c.members && links == |c.items|
  {
    var rc := c.Start(stuck, interval);
    links := Home(c, stuck, 0);
  }
}
