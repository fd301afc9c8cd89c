/**
  Whole runs: any sequence of driver calls under any interference, and the polled "small"
  driver that the interrupt-driven one has to agree with.
 */
module JtagSessions {
  import opened JtagDevice
  import opened JtagUart

  datatype Call =
    | WriteCall(bytes: seq<Byte>, count: int, writeNonblock: bool)
    | ReadCall(space: int, readNonblock: bool)
    | CloseCall(closeNonblock: bool)
    | IoctlCall(request: IoctlRequest)

  /** A call a program can make: the counts do not exceed the caller's own buffers. */
  predicate WellFormed(c: Call) {
    c.WriteCall? ==> c.count <= |c.bytes|
  }

  /** The prefixes the write calls of a run report as taken, one after another. */
  ghost function AcceptedPrefixes(calls: seq<Call>, results: seq<CallResult>): (s: seq<Byte>)
    requires |results| <= |calls|
  {
    if results == [] then []
    else
      var k := |results| - 1;
      AcceptedPrefixes(calls, results[..k])
      + if calls[k].WriteCall? && Taken(results[k]) <= |calls[k].bytes| then calls[k].bytes[..Taken(results[k])] else []
  }

  ghost function Concat(parts: seq<seq<Byte>>): (s: seq<Byte>) {
    if parts == [] then [] else Concat(parts[..|parts| - 1]) + parts[|parts| - 1]
  }

  /** Carries out one call; what a read returns comes back in `got`. */
  method Perform(u: JtagUart, c: Call, spins: nat, helpFrom: nat) returns (r: CallResult, got: seq<Byte>)
    requires u.Valid() && !u.txWindow && !u.rxWindow && WellFormed(c)
    modifies u, u.dev, u.rxBuf, u.txBuf
    ensures u.Valid() && !u.txWindow && !u.rxWindow
    ensures u.accepted == old(u.accepted) + if c.WriteCall? && Taken(r) <= |c.bytes| then c.bytes[..Taken(r)] else []
    ensures c.WriteCall? ==> Taken(r) <= |c.bytes|
    ensures u.delivered == old(u.delivered) + got
    ensures c.ReadCall? ==> |got| == Taken(r)
    ensures r.Spinning? ==> spins < helpFrom + u.bufLen
  {
    got := [];
    match c
    case WriteCall(bytes, count, nonblock) =>
      r := u.Write(bytes, count, nonblock, spins, helpFrom);
    case ReadCall(space, nonblock) =>
      var buffer := new Byte[if space > 0 then space else 0];
      r := u.Read(buffer, space, nonblock, spins, helpFrom);
      got := buffer[..Taken(r)];
    case CloseCall(nonblock) =>
      r := u.Close(nonblock, spins, helpFrom);
    case IoctlCall(request) =>
      var rc, answer := u.Ioctl(request);
      r := Returned(rc);
  }

  /**
    Any sequence of calls, up to a call cut off while it waits. At the end the bytes the handler
    has put in the data register followed by the transmit ring are the accepted prefixes of all
    write calls, and what the readers got followed by the receive ring is what was popped. No call is
    cut off when help keeps coming for as many looks as the ring has places.
   */
  method Session(u: JtagUart, calls: seq<Call>, spins: nat, helpFrom: nat)
    returns (results: seq<CallResult>, got: seq<seq<Byte>>)
    requires u.Valid() && !u.txWindow && !u.rxWindow
    requires forall k :: 0 <= k < |calls| ==> WellFormed(calls[k])
    modifies u, u.dev, u.rxBuf, u.txBuf
    ensures u.Valid() && !u.txWindow && !u.rxWindow
    ensures |results| <= |calls| && (|results| < |calls| ==> results != [] && results[|results| - 1].Spinning?)
    ensures helpFrom + u.bufLen <= spins ==> |results| == |calls|
    ensures u.dev.written + u.txRing == old(u.accepted) + AcceptedPrefixes(calls, results)
    ensures u.dev.hostGot + u.dev.writeFifo + u.txRing == old(u.accepted) + AcceptedPrefixes(calls, results)
    ensures u.dev.popped == old(u.delivered) + Concat(got) + u.rxRing
    ensures u.dev.hostSent == old(u.delivered) + Concat(got) + u.rxRing + u.dev.readFifo
  {
    results, got := [], [];
    while |results| < |calls|
      invariant u.Valid() && !u.txWindow && !u.rxWindow && |results| <= |calls|
      invariant u.accepted == old(u.accepted) + AcceptedPrefixes(calls, results)
      invariant u.delivered == old(u.delivered) + Concat(got)
    {
      var r, bytes := Perform(u, calls[|results|], spins, helpFrom);
      assert (results + [r])[..|results|] == results;
      assert (got + [bytes])[..|got|] == got;
      results, got := results + [r], got + [bytes];
      if r.Spinning? {
        break;
      }
    }
    u.EndToEnd();
  }

  /**
    The polled write. `polls` bounds the looks at the control register; when the host collects before
    each of them, as many as there are bytes suffice.
   */
  method SmallWrite(dev: Device, ptr: seq<Byte>, count: int, polls: nat, helped: bool) returns (r: CallResult)
    requires dev.Valid() && count <= |ptr|
    modifies dev
    ensures dev.Valid() && 0 <= Taken(r) <= |ptr| && (Taken(r) == 0 || Taken(r) <= count)
    ensures dev.written == old(dev.written) + ptr[..Taken(r)]
    ensures r.Returned? ==> r.rc == count
    ensures helped && count <= polls ==> r.Returned?
  {
    var sent := 0;
    var left := polls;
    while sent < count
      invariant dev.Valid() && 0 <= sent <= |ptr| && (sent == 0 || sent <= count)
      invariant dev.written == old(dev.written) + ptr[..sent]
      invariant helped ==> sent + left >= polls
      decreases left
    {
      if left == 0 {
        return Spinning(sent);
      }
      left := left - 1;
      dev.Host();
      if helped {
        dev.Collect();
      }
      var control := dev.ReadControl(true);
      if control.wspace != 0 {
        dev.Host();
        dev.WriteData(ptr[sent]);
        sent := sent + 1;
      }
    }
    r := Returned(count);
  }

  /** The polled read: waits for a first byte, then takes what is there. */
  method SmallRead(dev: Device, buffer: array<Byte>, space: int, nonblock: bool, polls: nat) returns (r: CallResult)
    requires dev.Valid() && space <= buffer.Length
    modifies dev, buffer
    ensures dev.Valid() && 0 <= Taken(r) <= buffer.Length && (Taken(r) == 0 || Taken(r) <= space)
    ensures dev.popped == old(dev.popped) + buffer[..Taken(r)] && buffer[Taken(r)..] == old(buffer[Taken(r)..])
    ensures Taken(r) >= Min(Min(space, |old(dev.readFifo)|), polls)
    ensures r.Returned? && r.rc <= 0 ==> r.rc == if nonblock then -EWOULDBLOCK else -EIO
    ensures r.Returned? && r.rc == -EIO ==> space <= 0
    ensures r.Spinning? && nonblock ==> r.taken == polls && polls < space
  {
    var got := 0;
    var left := polls;
    while got < space
      invariant dev.Valid() && 0 <= got <= buffer.Length && (got == 0 || got <= space)
      invariant dev.popped == old(dev.popped) + buffer[..got] && buffer[got..] == old(buffer[got..])
      invariant got + |dev.readFifo| >= |old(dev.readFifo)|
      invariant got >= Min(Min(space, |old(dev.readFifo)|), polls - left)
      invariant nonblock ==> got + left == polls
      decreases left
    {
      if left == 0 {
        return Spinning(got);
      }
      left := left - 1;
      dev.Host();
      var data := dev.ReadData();
      if data.rvalid {
        ghost var before := buffer[..];
        buffer[got] := data.data;
        assert buffer[..got + 1] == before[..got] + [data.data];
        assert buffer[got + 1..] == before[got..][1..];
        got := got + 1;
      } else if got > 0 {
        break;
      } else if nonblock {
        break;
      }
    }
    r := Report(got, nonblock);
  }

  /**
    The handler on a prompt device whose host keeps collecting. Outside the writer's window every run
    of it sends something, so as many runs as bytes were unsent send everything that was accepted.
   */
  method RunHandler(u: JtagUart, runs: nat)
    requires u.Valid() && !u.txWindow
    modifies u, u.dev, u.rxBuf
    ensures u.Valid() && u.accepted == old(u.accepted) && old(u.dev.written) <= u.dev.written
    ensures |u.txRing| + runs <= old(|u.txRing|) || u.txRing == []
    ensures old(|u.txRing|) <= runs ==> u.txRing == [] && u.dev.written == u.accepted
  {
    var i := 0;
    while i < runs
      invariant 0 <= i <= runs && u.Valid() && !u.txWindow
      invariant u.accepted == old(u.accepted) && old(u.dev.written) <= u.dev.written
      invariant |u.txRing| + i <= old(|u.txRing|) || u.txRing == []
    {
      u.dev.Collect();
      u.Irq(true);
      i := i + 1;
    }
  }

  /** A blocking write followed by the draining close: what is on the far side afterwards. */
  method WriteAndClose(fast: JtagUart, ptr: seq<Byte>, count: int, spins: nat, helpFrom: nat)
    returns (written: CallResult, closed: CallResult)
    requires fast.Valid() && !fast.txWindow && !fast.rxWindow && fast.txRing == []
    requires 0 < count <= |ptr|
    modifies fast, fast.dev, fast.rxBuf, fast.txBuf
    ensures fast.Valid() && fast.timeout == old(fast.timeout) && old(fast.dev.written) <= fast.dev.written
    ensures Min(count, fast.bufLen - 1) <= Taken(written) <= count
    ensures fast.dev.written + fast.txRing == old(fast.dev.written) + ptr[..Taken(written)]
    ensures written.Returned? && closed.Returned?
            && !SeenInactive(fast.polls, |old(fast.polls)|, fast.timeout) ==>
              written.rc == count && closed.rc == 0 && fast.txRing == []
    ensures SeenInactive(fast.polls, |old(fast.polls)|, fast.timeout) ==> fast.timeout <= INT_MAX - 2
    ensures helpFrom + fast.bufLen <= spins ==> written.Returned? && closed.Returned?
    ensures helpFrom == 0 ==> written == Returned(count)
  {
    closed := Spinning(0);
    written := fast.Write(ptr, count, false, spins, helpFrom);
    ghost var seen := fast.polls;
    if written.Returned? {
      closed := fast.Close(false, spins, helpFrom);
    }
    SeenOnTheWay(seen, fast.polls, |old(fast.polls)|, fast.timeout);
  }

  /**
    The fast driver refines the small one. At every end the two data-register streams are prefixes of
    the same stream, and so agree as far as both have come. When no call is cut off and the host is not
    seen inactive on the way, a blocking write followed by the draining close leaves exactly the stream
    of the polled write; with the two largest timeouts it cannot be seen inactive. With a host that helps
    from the first look on and waits long enough for a full ring, no call is cut off.
   */
  method FastRefinesSmall(fast: JtagUart, small: Device, ptr: seq<Byte>, count: int, spins: nat, helpFrom: nat,
                          polls: nat)
    returns (written: CallResult, closed: CallResult, polled: CallResult)
    requires fast.Valid() && !fast.txWindow && !fast.rxWindow && fast.txRing == []
    requires small.Valid() && small != fast.dev && small.written == fast.dev.written
    requires 0 < count <= |ptr|
    modifies fast, fast.dev, fast.rxBuf, fast.txBuf, small
    ensures fast.Valid() && small.Valid() && fast.timeout == old(fast.timeout)
    ensures Taken(written) <= count
    ensures var whole := old(small.written) + ptr[..count];
            && old(small.written) <= fast.dev.written <= whole && old(small.written) <= small.written <= whole
            && fast.dev.written + fast.txRing == old(small.written) + ptr[..Taken(written)]
            && Taken(written) >= Min(count, fast.bufLen - 1)
    ensures written.Returned? && closed.Returned? && polled.Returned?
            && !SeenInactive(fast.polls, |old(fast.polls)|, fast.timeout) ==>
              && written.rc == polled.rc == count && closed.rc == 0
              && fast.dev.written == small.written == old(small.written) + ptr[..count]
    ensures helpFrom + fast.bufLen <= spins ==> written.Returned? && closed.Returned?
    ensures helpFrom == 0 ==> written == Returned(count) && (count <= polls ==> polled == Returned(count))
    ensures written.Returned? && closed.Returned? && polled.Returned? && fast.timeout >= INT_MAX - 1 ==>
              fast.dev.written == small.written == old(small.written) + ptr[..count]
  {
    polled := SmallWrite(small, ptr, count, polls, helpFrom == 0);
    written, closed := WriteAndClose(fast, ptr, count, spins, helpFrom);
    ghost var sent := old(small.written);
    Prefix(fast.dev.written, fast.txRing, sent, ptr, Taken(written), count);
    Prefix(small.written, [], sent, ptr, Taken(polled), count);
  }

  /** The host seen inactive by either of two calls was seen inactive in the run of both. */
  lemma SeenOnTheWay(seen: seq<bool>, later: seq<bool>, from: nat, timeout: nat)
    requires from <= |seen| && seen <= later
    ensures SeenInactive(seen, from, timeout) || SeenInactive(later, |seen|, timeout) ==>
              SeenInactive(later, from, timeout)
    ensures SeenInactive(later, from, timeout) ==> timeout <= INT_MAX - 2
  {
    if SeenInactive(seen, from, timeout) {
      StaysSeen(seen, later, from, timeout);
    } else if SeenInactive(later, |seen|, timeout) {
      var k :| |seen| <= k <= |later| && CountAfter(later[..k]) >= timeout;
      assert from <= k;
    }
    if SeenInactive(later, from, timeout) {
      var k := SeenMeansSilent(later, from, timeout);
    }
  }

  lemma Prefix(a: seq<Byte>, rest: seq<Byte>, sent: seq<Byte>, ptr: seq<Byte>, taken: nat, count: nat)
    requires taken <= count <= |ptr| && a + rest == sent + ptr[..taken]
    ensures a <= sent + ptr[..count]
  {
    assert a <= sent + ptr[..taken];
    assert sent + ptr[..count] == sent + ptr[..taken] + ptr[taken..count];
  }
}
