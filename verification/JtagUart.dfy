/**
  The interrupt-driven JTAG UART driver: two ring buffers shared, without locks, between
  foreground `Read`/`Write` calls and an interrupt handler.

  Everything that can happen between two foreground accesses to shared state is collected in
  `Interfere`: the host acts, the interrupt handler runs, the timer callback runs, any number
  of times and in any order. A property proved here therefore holds under every interleaving.
  Inside the interrupt handler only the host can interfere, and it does so before every
  register access.
 */
module JtagUart {
  import opened JtagDevice
  import R = Ring

  const INT_MAX := 0x7fff_ffff
  const EIO := 5
  const EWOULDBLOCK := 11
  const ENOTTY := 25

  /**
    How a blocking call ends. A busy-wait loop need not terminate, so a call is given the
    number of times it may go round; `Spinning` is the state of a call cut off while it waits.
   */
  datatype CallResult = Returned(rc: int) | Spinning(taken: nat)

  /** What a loop does next: go round again, finish, or stop where it waits because it is cut off. */
  datatype Next = Again | Finish | Cut

  /** How many bytes a call moved. */
  function Taken(r: CallResult): (n: nat)
    ensures r.Returned? && r.rc > 0 ==> n == r.rc
  {
    match r
    case Returned(rc) => if rc > 0 then rc else 0
    case Spinning(taken) => taken
  }

  /** The value a finished call returns: what it moved, or an error when it moved nothing. */
  function Report(moved: nat, nonblock: bool): (r: CallResult)
    ensures r.Returned? && Taken(r) == moved
    ensures r.rc > 0 <==> moved > 0
  {
    if moved > 0 then Returned(moved) else if nonblock then Returned(-EWOULDBLOCK) else Returned(-EIO)
  }

  datatype IoctlRequest = SetTimeout(value: int) | GetConnected | OtherRequest

  function Min(a: int, b: int): (m: int)
    ensures m <= a && m <= b && (m == a || m == b)
  {
    if a <= b then a else b
  }

  function CountBit(b: bool): nat {
    if b then 1 else 0
  }

  /** The inactivity counter after one run of the timer callback. */
  function Inactivity(counter: nat, ac: bool): (c: nat)
    ensures counter <= INT_MAX - 2 ==> c <= INT_MAX - 2
  {
    if ac then 0 else if counter < INT_MAX - 2 then counter + 1 else counter
  }

  /** The timeout after a request to set it: INT_MAX, "don't know", is never replaced. */
  function TimeoutAfter(timeout: nat, value: int): (t: nat)
    ensures t == INT_MAX <==> timeout == INT_MAX
    ensures timeout != INT_MAX ==> 2 <= t < INT_MAX
  {
    if timeout == INT_MAX then INT_MAX else if 2 <= value < INT_MAX then value else INT_MAX - 1
  }

  /** Every request from 2 up to INT_MAX - 1 is granted as it is, any other means the longest known timeout. */
  lemma RequestedTimeout(timeout: nat, value: int)
    requires timeout != INT_MAX
    ensures TimeoutAfter(timeout, value) == if 2 <= value <= 0x7fff_fffe then value else 0x7fff_fffe
  {
  }

  lemma NextChunk(base: seq<Byte>, ptr: seq<Byte>, taken: nat, n: nat)
    requires taken + n <= |ptr|
    ensures base + ptr[..taken] + ptr[taken..][..n] == base + ptr[..taken + n]
  {
  }

  /** The inactivity counter after timer callbacks that found the AC bit as `polls` says. */
  ghost function CountAfter(polls: seq<bool>): (c: nat)
    ensures c <= INT_MAX - 2 && c <= |polls|
  {
    if polls == [] then 0 else Inactivity(CountAfter(polls[..|polls| - 1]), polls[|polls| - 1])
  }

  lemma CountOneMore(polls: seq<bool>, ac: bool)
    ensures CountAfter(polls + [ac]) == Inactivity(CountAfter(polls), ac)
  {
    assert (polls + [ac])[..|polls|] == polls;
  }

  /** The host has not polled at any of the last `n` callbacks. */
  ghost predicate SilentFor(polls: seq<bool>, n: nat) {
    n <= |polls| && forall i :: |polls| - n <= i < |polls| ==> !polls[i]
  }

  /** The counter has reached a timeout exactly when the host was silent for that many callbacks running. */
  lemma {:induction false} InactiveIffSilent(polls: seq<bool>, timeout: nat)
    ensures CountAfter(polls) >= timeout <==> timeout <= INT_MAX - 2 && SilentFor(polls, timeout)
    decreases |polls|
  {
    if polls == [] || timeout == 0 {
    } else {
      var front, last := polls[..|polls| - 1], polls[|polls| - 1];
      assert polls == front + [last];
      InactiveIffSilent(front, timeout - 1);
      if SilentFor(polls, timeout) {
        assert !polls[|polls| - 1];
      }
      if !last && SilentFor(front, timeout - 1) {
        forall i | |polls| - timeout <= i < |polls| ensures !polls[i] {
          assert i < |front| ==> !front[i];
        }
      }
      if SilentFor(polls, timeout) {
        forall i | |front| - (timeout - 1) <= i < |front| ensures !front[i] {
          assert !polls[i];
        }
      }
    }
  }

  /** At some moment since the first `from` callbacks the host counted as inactive. */
  ghost predicate SeenInactive(polls: seq<bool>, from: nat, timeout: nat) {
    exists k {:trigger polls[..k]} :: from <= k <= |polls| && CountAfter(polls[..k]) >= timeout
  }

  lemma InactiveNow(polls: seq<bool>, from: nat, timeout: nat)
    requires from <= |polls| && CountAfter(polls) >= timeout
    ensures SeenInactive(polls, from, timeout)
  {
    assert polls[..|polls|] == polls;
  }

  lemma StaysSeen(polls: seq<bool>, later: seq<bool>, from: nat, timeout: nat)
    requires polls <= later && SeenInactive(polls, from, timeout)
    ensures SeenInactive(later, from, timeout)
  {
    var k :| from <= k <= |polls| && CountAfter(polls[..k]) >= timeout;
    assert later[..k] == polls[..k];
  }

  /** A host is seen inactive only after `timeout` silent callbacks, and never with the two largest timeouts. */
  lemma SeenMeansSilent(polls: seq<bool>, from: nat, timeout: nat) returns (k: nat)
    requires SeenInactive(polls, from, timeout)
    ensures from <= k <= |polls| && SilentFor(polls[..k], timeout) && timeout <= INT_MAX - 2
  {
    k :| from <= k <= |polls| && CountAfter(polls[..k]) >= timeout;
    InactiveIffSilent(polls[..k], timeout);
  }

  class JtagUart {
    const bufLen: nat
    const dev: Device
    const rxBuf: array<Byte>
    const txBuf: array<Byte>
    var timeout: nat
    var irqEnable: Enables
    var hostInactive: nat
    var rxIn: nat
    var rxOut: nat
    var txIn: nat
    var txOut: nat

    ghost var accepted: seq<Byte>   // taken from the callers of Write, in order
    ghost var delivered: seq<Byte>  // handed to the callers of Read, in order
    ghost var txRing: seq<Byte>     // accepted and not yet sent
    ghost var rxRing: seq<Byte>     // received and not yet delivered
    ghost var txWindow: bool        // a writer has published bytes and not yet kicked the handler
    ghost var rxWindow: bool        // a reader has consumed bytes and not yet re-enabled the handler
    ghost var polls: seq<bool>      // what every timer callback so far found in the AC bit

    ghost predicate InRange()
      reads this
    {
      && 2 <= bufLen == rxBuf.Length == txBuf.Length
      && rxIn < bufLen && rxOut < bufLen && txIn < bufLen && txOut < bufLen
    }

    ghost function RxFree(): int
      reads this
    {
      bufLen - 1 - |rxRing|
    }

    ghost function TxFree(): int
      reads this
    {
      bufLen - 1 - |txRing|
    }

    /** The two ghost sequences are what lies between the ring indices. */
    ghost predicate Rings()
      reads this, rxBuf, txBuf
    {
      && InRange() && rxBuf != txBuf
      && R.Holds(txBuf[..], txOut, txIn, txRing)
      && R.Holds(rxBuf[..], rxOut, rxIn, rxRing)
    }

    /** Holds whenever any code of the driver, or of the host, can look at the state. */
    ghost predicate Valid()
      reads this, dev, rxBuf, txBuf
    {
      && Rings() && dev.Valid()
      && dev.enables == irqEnable
      && dev.written + txRing == accepted
      && dev.popped == delivered + rxRing
      && hostInactive == CountAfter(polls)
      && (!txWindow && txRing != [] ==> irqEnable.we)
      && (!rxWindow && !irqEnable.re ==> RxFree() == 0)
    }

    /** Bytes the host sent are delivered, in the ring, or in the read FIFO: none is lost or moved. */
    lemma EndToEnd()
      requires Valid()
      ensures dev.hostGot + dev.writeFifo + txRing == accepted
      ensures delivered + rxRing + dev.readFifo == dev.hostSent
    {
    }

    /** A reader that finds the ring empty will be woken; a writer that finds it full likewise. */
    lemma WaitersAreArmed()
      requires Valid() && !txWindow && !rxWindow
      ensures rxIn == rxOut ==> dev.enables.re
      ensures R.Wrap(txIn + 1, bufLen) == txOut ==> dev.enables.we
    {
    }

    /** The tests the spin loops make say exactly whether the ring is still full, or still empty. */
    lemma SpinTestsAreExact()
      requires Valid()
      ensures txOut == R.Wrap(txIn + 1, bufLen) <==> TxFree() == 0
      ensures rxIn == rxOut <==> rxRing == []
    {
    }

    /** No call can be left waiting for a host that has been silent for `timeout` callbacks running. */
    lemma NotGivenUpIff()
      requires Valid()
      ensures hostInactive < timeout <==> timeout > INT_MAX - 2 || !SilentFor(polls, timeout)
    {
      InactiveIffSilent(polls, timeout);
    }

    /** Initialisation. `alarmStarted` is whether the system timer accepted the inactivity alarm. */
    constructor (bufLen: nat, dev: Device, timeout: nat, alarmStarted: bool)
      requires 2 <= bufLen && dev.Valid() && dev.popped == [] && dev.written == []
      modifies dev
      ensures Valid() && !txWindow && !rxWindow && fresh(rxBuf) && fresh(txBuf)
      ensures this.bufLen == bufLen && this.dev == dev
      ensures irqEnable == Enables(true, false) && hostInactive == 0 && polls == []
      ensures accepted == [] && delivered == [] && txRing == [] && rxRing == []
      ensures this.timeout == if alarmStarted then timeout else INT_MAX
    {
      this.bufLen, this.dev := bufLen, dev;
      rxBuf, txBuf := new Byte[bufLen], new Byte[bufLen];
      rxIn, rxOut, txIn, txOut := 0, 0, 0, 0;
      irqEnable := Enables(true, false);
      hostInactive := 0;
      this.timeout := if alarmStarted then timeout else INT_MAX;
      accepted, delivered, txRing, rxRing := [], [], [], [];
      txWindow, rxWindow, polls := false, false, [];
      new;
      dev.WriteControl(irqEnable, false);
    }

    /** Stores one received byte and advances `rxIn`. */
    method Store(b: Byte)
      requires Rings() && R.Wrap(rxIn + 1, bufLen) != rxOut
      modifies this`rxIn, this`rxRing, rxBuf
      ensures Rings() && rxRing == old(rxRing) + [b]
    {
      R.Push(rxBuf[..], rxOut, rxIn, rxRing, b);
      ghost var buf := rxBuf[..];
      rxBuf[rxIn] := b;
      assert rxBuf[..] == buf[rxIn := b];
      rxIn := R.Wrap(rxIn + 1, bufLen);
      rxRing := rxRing + [b];
    }

    /** Takes one byte from the read FIFO into the ring; false when there was none. */
    method ReceiveByte() returns (data: Data)
      requires Valid() && R.Wrap(rxIn + 1, bufLen) != rxOut
      modifies this`rxIn, this`rxRing, dev, rxBuf
      ensures Valid() && dev.written == old(dev.written) && old(dev.Space()) <= dev.Space()
      ensures old(dev.readFifo) != [] ==> data.rvalid
      ensures data.rvalid ==> rxRing == old(rxRing) + [data.data]
      ensures !data.rvalid ==> rxRing == old(rxRing) && dev.readFifo == []
      ensures data.ravail > 0 ==> dev.readFifo != []
      ensures data.ravail > 0 ==> data.rvalid
    {
      dev.Host();
      data := dev.ReadData();
      if data.rvalid {
        Store(data.data);
      }
    }

    /** Advances `txOut` past the oldest unsent byte. */
    method Drop()
      requires Rings() && txOut != txIn
      modifies this`txOut, this`txRing
      ensures Rings() && txRing == old(txRing)[1..]
    {
      R.Pop(txBuf[..], txOut, txIn, txRing);
      txOut := R.Wrap(txOut + 1, bufLen);
      txRing := txRing[1..];
    }

    /** Sends the oldest unsent byte and advances `txOut`. */
    method TransmitByte()
      requires Valid() && txOut != txIn && dev.Space() > 0
      modifies this`txOut, this`txRing, dev
      ensures Valid() && dev.popped == old(dev.popped) && old(dev.readFifo) <= dev.readFifo
      ensures old(dev.Space()) <= dev.Space() + 1
      ensures dev.written == old(dev.written) + [old(txRing[0])]
      ensures txRing == old(txRing)[1..]
    {
      R.Pop(txBuf[..], txOut, txIn, txRing);
      R.Shift(dev.written, txRing);
      dev.Host();
      dev.WriteData(txBuf[txOut]);
      Drop();
    }

    /** Turns enable bits off, or on, in the shadow word and in the device. */
    method SetEnables(e: Enables)
      requires Valid()
      requires !txWindow && txRing != [] ==> e.we
      requires !rxWindow && !e.re ==> RxFree() == 0
      modifies this`irqEnable, dev
      ensures Valid() && irqEnable == e
      ensures dev.written == old(dev.written) && dev.popped == old(dev.popped)
      ensures old(dev.readFifo) <= dev.readFifo && old(dev.Space()) <= dev.Space()
    {
      irqEnable := e;
      dev.Host();
      dev.WriteControl(irqEnable, false);
    }

    /** The handler's receive branch: empty the read FIFO into the ring while both allow. */
    method Receive()
      requires Valid() && irqEnable.re && dev.readFifo != []
      modifies this`rxIn, this`rxRing, this`irqEnable, dev, rxBuf
      ensures Valid() && irqEnable.we == old(irqEnable.we)
      ensures old(rxRing) <= rxRing
      ensures dev.written == old(dev.written) && old(dev.Space()) <= dev.Space()
      ensures irqEnable.re || (RxFree() == 0 && dev.readFifo != [])
      ensures RxFree() == 0 || dev.readFifo == []
      ensures old(RxFree()) > 0 ==> RxFree() < old(RxFree())
      ensures old(RxFree()) == 0 ==> !irqEnable.re
    {
      var data := Data(0, false, 1);
      while true
        invariant Valid() && irqEnable == old(irqEnable)
        invariant old(rxRing) <= rxRing
        invariant dev.written == old(dev.written) && old(dev.Space()) <= dev.Space()
        invariant data.ravail > 0 ==> dev.readFifo != []
        invariant rxRing == old(rxRing) ==> data.ravail > 0
        decreases RxFree()
      {
        var next := R.Wrap(rxIn + 1, bufLen);
        if next == rxOut {
          break;
        }
        data := ReceiveByte();
        if !data.rvalid {
          break;
        }
      }
      if data.ravail > 0 {
        SetEnables(irqEnable.(re := false));
      }
    }

    /** The handler's transmit branch, with the space the control register reported. */
    method Transmit(wspace: nat)
      requires Valid() && irqEnable.we && 0 < wspace <= dev.Space()
      modifies this`txOut, this`txRing, this`irqEnable, dev
      ensures Valid() && irqEnable.re == old(irqEnable.re)
      ensures old(dev.written) <= dev.written && dev.popped == old(dev.popped)
      ensures old(dev.readFifo) <= dev.readFifo
      ensures |txRing| == |old(txRing)| - Min(wspace, |old(txRing)|)
      ensures irqEnable.we <==> wspace <= |old(txRing)|
    {
      var space := wspace;
      while space > 0 && txOut != txIn
        invariant Valid() && irqEnable == old(irqEnable)
        invariant old(dev.written) <= dev.written && dev.popped == old(dev.popped)
        invariant old(dev.readFifo) <= dev.readFifo
        invariant 0 <= space <= dev.Space()
        invariant |txRing| + wspace == |old(txRing)| + space
        decreases space
      {
        TransmitByte();
        space := space - 1;
      }
      if space > 0 {
        SetEnables(irqEnable.(we := false));
      }
    }

    /** What the handler can still do: enable bits to clear, space to fill, bytes to send. */
    ghost function Work(): nat
      requires |rxRing| < bufLen
      reads this
    {
      CountBit(irqEnable.re) + CountBit(irqEnable.we) + RxFree() + |txRing|
    }

    /** Neither direction has anything that the enable bits and the device would let it move. */
    ghost predicate Idle()
      requires dev.Valid()
      reads this, dev
    {
      (irqEnable.re ==> dev.readFifo == []) && (irqEnable.we ==> dev.Space() == 0)
    }

    /** Outside the windows a handler that has come to rest has no room to receive or nothing to send. */
    lemma AtRest()
      requires Valid() && !txWindow && !rxWindow && Idle()
      ensures (dev.readFifo == [] || RxFree() == 0) && (txRing == [] || dev.Space() == 0)
    {
    }

    /** One pass of the handler's loop; not `busy` when the control register shows no request. */
    method Pass(prompt: bool) returns (busy: bool)
      requires Valid()
      modifies this`rxIn, this`rxRing, this`txOut, this`txRing, this`irqEnable, dev, rxBuf
      ensures Valid()
      ensures old(rxRing) <= rxRing && old(dev.written) <= dev.written
      ensures busy ==> Work() < old(Work())
      ensures prompt && !busy ==> Idle()
      ensures prompt && old(irqEnable.we && txRing != [] && dev.Space() > 0) ==> |txRing| < |old(txRing)|
      ensures prompt && old(irqEnable.re && dev.readFifo != [] && RxFree() > 0) ==> RxFree() < old(RxFree())
    {
      dev.Host();
      var control := dev.ReadControl(prompt);
      if control.ri {
        Receive();
      }
      if control.wi {
        Transmit(control.wspace);
      }
      busy := control.ri || control.wi;
    }

    /**
      The interrupt handler. It ends although the host may refill the read FIFO and empty the
      write FIFO throughout; every pass uses up receive space, unsent bytes or an enable bit.
      On a `prompt` device it moves at least one byte in each direction that can move, and ends only
      when nothing more can.
     */
    method Irq(prompt: bool)
      requires Valid()
      modifies this`rxIn, this`rxRing, this`txOut, this`txRing, this`irqEnable, dev, rxBuf
      ensures Valid()
      ensures old(rxRing) <= rxRing && old(dev.written) <= dev.written
      ensures prompt && old(irqEnable.we && txRing != [] && dev.Space() > 0) ==> |txRing| < |old(txRing)|
      ensures prompt && old(irqEnable.re && dev.readFifo != [] && RxFree() > 0) ==> RxFree() < old(RxFree())
      ensures prompt ==> Idle()
    {
      var busy := Pass(prompt);
      while busy
        invariant Valid()
        invariant old(rxRing) <= rxRing && old(dev.written) <= dev.written
        invariant prompt && !busy ==> Idle()
        invariant prompt && old(irqEnable.we && txRing != [] && dev.Space() > 0) ==> |txRing| < |old(txRing)|
        invariant prompt && old(irqEnable.re && dev.readFifo != [] && RxFree() > 0) ==> RxFree() < old(RxFree())
        decreases busy, Work()
      {
        busy := Pass(prompt);
      }
    }

    /**
      The timer callback, called once a second while the inactivity alarm is running. The host may
      poll again between the read that finds the AC bit and the write that clears it.
     */
    method Timeout()
      requires Valid()
      modifies this`hostInactive, this`polls, dev
      ensures Valid() && irqEnable == old(irqEnable)
      ensures polls == old(polls) + [old(dev.ac)] && hostInactive == Inactivity(old(hostInactive), old(dev.ac))
      ensures old(dev.ac) ==> !dev.ac
      ensures dev.written == old(dev.written) && dev.popped == old(dev.popped)
    {
      var polled := AnswerPoll();
      Count(polled);
    }

    /** Counts one second, or starts again. */
    method Count(polled: bool)
      requires Valid()
      modifies this`hostInactive, this`polls
      ensures Valid()
      ensures polls == old(polls) + [polled] && hostInactive == Inactivity(old(hostInactive), polled)
    {
      var counter := hostInactive;
      if polled {
        counter := 0;
      } else if counter < INT_MAX - 2 {
        counter := counter + 1;
      }
      CountOneMore(polls, polled);
      hostInactive, polls := counter, polls + [polled];
    }

    /** Reads the AC bit and clears it if it is set; the shadow word goes back to the enable bits. */
    method AnswerPoll() returns (polled: bool)
      requires Valid()
      modifies dev
      ensures Valid() && polled == old(dev.ac) && (polled ==> !dev.ac)
      ensures dev.written == old(dev.written) && dev.popped == old(dev.popped)
    {
      var control := dev.ReadControl(false);
      polled := control.ac;
      dev.Host();
      if polled {
        dev.WriteControl(irqEnable, true);
      }
    }

    /** Anything that can happen between two accesses of the foreground to shared state. */
    method Interfere()
      requires Valid()
      modifies this`rxIn, this`rxRing, this`txOut, this`txRing, this`irqEnable, this`hostInactive, this`polls
      modifies dev, rxBuf
      ensures Valid()
      ensures old(rxRing) <= rxRing && old(dev.written) <= dev.written
      ensures old(polls) <= polls
    {
      var steps: int := *;
      while steps > 0
        invariant Valid()
        invariant old(rxRing) <= rxRing && old(dev.written) <= dev.written
        invariant old(polls) <= polls
        decreases steps
      {
        if {
          case true => dev.Host();
          case true => Irq(false);
          case true => Timeout();
        }
        steps := steps - 1;
      }
    }

    /** Whether a waiting loop gives up the host. */
    method GiveUp(ghost from: nat) returns (inactive: bool)
      requires Valid() && from <= |polls|
      modifies this`rxIn, this`rxRing, this`txOut, this`txRing, this`irqEnable, this`hostInactive, this`polls
      modifies dev, rxBuf
      ensures Valid() && old(rxRing) <= rxRing && old(dev.written) <= dev.written && old(polls) <= polls
      ensures |txRing| <= |old(txRing)|
      ensures inactive <==> hostInactive >= timeout
      ensures inactive ==> SeenInactive(polls, from, timeout)
    {
      Interfere();
      inactive := hostInactive >= timeout;
      if inactive {
        InactiveNow(polls, from, timeout);
      }
    }

    /** Interference after the loop: what was seen of the host stays seen. */
    method InterfereLate(ghost from: nat)
      requires Valid()
      modifies this`rxIn, this`rxRing, this`txOut, this`txRing, this`irqEnable, this`hostInactive, this`polls
      modifies dev, rxBuf
      ensures Valid()
      ensures old(rxRing) <= rxRing && old(dev.written) <= dev.written
      ensures old(polls) <= polls
      ensures old(SeenInactive(polls, from, timeout)) ==> SeenInactive(polls, from, timeout)
      ensures |txRing| <= |old(txRing)|
    {
      Interfere();
      if old(SeenInactive(polls, from, timeout)) {
        StaysSeen(old(polls), polls, from, timeout);
      }
    }

    /** The host collects and sends, and a prompt device interrupts: whatever is stuck moves. */
    method Assist()
      requires Valid()
      modifies this`rxIn, this`rxRing, this`txOut, this`txRing, this`irqEnable, dev, rxBuf
      ensures Valid() && old(rxRing) <= rxRing && old(dev.written) <= dev.written
      ensures old(!txWindow && txRing != []) ==> |txRing| < |old(txRing)|
      ensures old(!rxWindow && rxRing == []) ==> rxRing != []
    {
      dev.Collect();
      dev.Supply();
      Irq(true);
    }

    /** What happens before a waiting loop looks again; `helped` when that includes some assistance. */
    method BeforeLook(helped: bool)
      requires Valid()
      modifies this`rxIn, this`rxRing, this`txOut, this`txRing, this`irqEnable, this`hostInactive, this`polls
      modifies dev, rxBuf
      ensures Valid() && old(rxRing) <= rxRing && old(dev.written) <= dev.written && old(polls) <= polls
      ensures |txRing| <= |old(txRing)|
      ensures helped && old(!txWindow && txRing != []) ==> |txRing| < |old(txRing)|
      ensures helped && old(!rxWindow && rxRing == []) ==> rxRing != []
    {
      Interfere();
      if helped {
        Assist();
        Interfere();
      }
    }

    /** The copy into free slots: no unsent byte is touched, whatever the handler does meanwhile. */
    method CopyIn(ptr: seq<Byte>, n: nat)
      requires Valid() && n <= |ptr| && n <= TxFree() && txIn + n <= bufLen
      modifies this`rxIn, this`rxRing, this`txOut, this`txRing, this`irqEnable, this`hostInactive, this`polls
      modifies dev, rxBuf, txBuf
      ensures Valid()
      ensures old(dev.written) <= dev.written
      ensures n <= TxFree() && txBuf[txIn..txIn + n] == ptr[..n]
      ensures old(polls) <= polls
    {
      var i := 0;
      while i < n
        invariant 0 <= i <= n
        invariant Valid()
        invariant old(dev.written) <= dev.written
        invariant n <= TxFree() && txBuf[txIn..txIn + i] == ptr[..i]
        invariant old(polls) <= polls
      {
        Interfere();
        PutByte(i, ptr[i]);
        i := i + 1;
      }
      Interfere();
    }

    /** Stores into the slot `i` places past `txIn`, which must be free. */
    method PutByte(i: nat, b: Byte)
      requires Valid() && i < TxFree() && txIn + i < bufLen
      modifies txBuf
      ensures Valid() && txRing == old(txRing)
      ensures txBuf[..] == old(txBuf[..])[txIn + i := b]
    {
      R.FreeSlot(txBuf[..], txOut, txIn, txRing, i, b);
      ghost var buf := txBuf[..];
      txBuf[txIn + i] := b;
      assert txBuf[..] == buf[txIn + i := b];
    }

    /** Makes the copied chunk visible to the handler with a single store to `txIn`. */
    method Publish(ghost chunk: seq<Byte>, n: nat)
      requires Valid() && |chunk| == n <= TxFree() && txIn + n <= bufLen
      requires txBuf[txIn..txIn + n] == chunk
      modifies this`txIn, this`txRing, this`txWindow, this`accepted
      ensures Valid() && txWindow && accepted == old(accepted) + chunk
    {
      assert txBuf[..][txIn..txIn + n] == chunk;
      R.Publish(txBuf[..], txOut, txIn, txRing, chunk);
      txIn := R.Wrap(txIn + n, bufLen);
      txRing, accepted, txWindow := txRing + chunk, accepted + chunk, true;
    }

    /** The free run starting at `txIn` as the writer computes it from its two index reads. */
    function FreeRun(in0: nat, out0: nat): (n: nat)
      requires in0 < bufLen && out0 < bufLen
      ensures in0 + n <= bufLen && n + R.Distance(out0, in0, bufLen) < bufLen
      ensures n == 0 <==> out0 == R.Wrap(in0 + 1, bufLen)
    {
      if in0 < out0 then out0 - 1 - in0 else if out0 > 0 then bufLen - in0 else bufLen - 1 - in0
    }

    /** Reads both transmit indices, in that order, and works out how much may be copied. */
    method MeasureFree() returns (n: nat, out: nat)
      requires Valid()
      modifies this`rxIn, this`rxRing, this`txOut, this`txRing, this`irqEnable, this`hostInactive, this`polls
      modifies dev, rxBuf
      ensures Valid()
      ensures old(dev.written) <= dev.written
      ensures n <= TxFree() && txIn + n <= bufLen
      ensures n == 0 ==> TxFree() == 0 && out == R.Wrap(txIn + 1, bufLen)
      ensures old(polls) <= polls
    {
      Interfere();
      var in0 := txIn;
      Interfere();
      out := txOut;
      n := FreeRun(in0, out);
    }

    /** One round of the writer's inner loop: measure, copy a chunk, publish it. */
    method FillOnce(ptr: seq<Byte>, taken: nat, want: nat, ghost base: seq<Byte>) returns (n: nat, out: nat)
      requires Valid() && 0 < want && taken + want <= |ptr| && accepted == base + ptr[..taken]
      modifies this`rxIn, this`rxRing, this`txIn, this`txOut, this`txRing, this`irqEnable, this`hostInactive
      modifies this`polls
      modifies this`txWindow, this`accepted, dev, rxBuf, txBuf
      ensures Valid()
      ensures n <= want && accepted == base + ptr[..taken + n]
      ensures n == 0 ==> TxFree() == 0 && out == R.Wrap(txIn + 1, bufLen)
      ensures old(dev.written) <= dev.written
      ensures old(polls) <= polls
    {
      n, out := MeasureFree();
      if n > 0 {
        n := Min(n, want);
        CopyIn(ptr[taken..], n);
        Publish(ptr[taken..][..n], n);
        NextChunk(base, ptr, taken, n);
      }
    }

    /** The writer's inner loop: copy and publish until everything is taken or the ring was seen full. */
    method Fill(ptr: seq<Byte>, start: nat, count: nat, ghost base: seq<Byte>) returns (taken: nat, out: nat)
      requires Valid() && start <= count <= |ptr| && accepted == base + ptr[..start]
      modifies this`rxIn, this`rxRing, this`txIn, this`txOut, this`txRing, this`irqEnable, this`hostInactive
      modifies this`polls, this`txWindow, this`accepted
      modifies dev, rxBuf, txBuf
      ensures Valid()
      ensures start <= taken <= count && accepted == base + ptr[..taken]
      ensures taken - start >= Min(count - start, old(TxFree()))
      ensures taken < count ==> out == R.Wrap(txIn + 1, bufLen)
      ensures old(dev.written) <= dev.written
      ensures old(polls) <= polls
    {
      taken, out := start, 0;
      while taken < count
        invariant Valid()
        invariant start <= taken <= count && accepted == base + ptr[..taken]
        invariant old(dev.written) <= dev.written
        invariant old(polls) <= polls
        decreases count - taken
      {
        var n;
        n, out := FillOnce(ptr, taken, count - taken, base);
        if n == 0 {
          break;
        }
        taken := taken + n;
      }
    }

    /** One look of a waiting writer: `moved` when there is room, as there is if it was helped. */
    method SpaceLook(out: nat, helped: bool) returns (moved: bool)
      requires Valid() && out == R.Wrap(txIn + 1, bufLen)
      modifies this`rxIn, this`rxRing, this`txOut, this`txRing, this`irqEnable, this`hostInactive, this`polls
      modifies dev, rxBuf
      ensures Valid() && old(dev.written) <= dev.written && old(polls) <= polls
      ensures moved <==> TxFree() > 0
      ensures helped && !txWindow ==> moved
    {
      BeforeLook(helped);
      SpinTestsAreExact();
      moved := out != txOut;
    }

    /** The look after the loop. */
    method LastSpaceLook(out: nat, ghost from: nat) returns (moved: bool)
      requires Valid() && out == R.Wrap(txIn + 1, bufLen)
      modifies this`rxIn, this`rxRing, this`txOut, this`txRing, this`irqEnable, this`hostInactive, this`polls
      modifies dev, rxBuf
      ensures Valid() && old(dev.written) <= dev.written && old(polls) <= polls
      ensures moved <==> TxFree() > 0
      ensures old(TxFree()) > 0 ==> moved
      ensures old(SeenInactive(polls, from, timeout)) ==> SeenInactive(polls, from, timeout)
    {
      InterfereLate(from);
      SpinTestsAreExact();
      moved := out != txOut;
    }

    /**
      Waits, at most `spins` times round, until `txOut` has left `out` or the host is given up. It is
      not cut off if help comes before the last look, and sees room at once if it comes before the first.
     */
    method AwaitSpace(out: nat, spins: nat, helpFrom: nat, ghost from: nat) returns (moved: bool, cut: bool)
      requires Valid() && !txWindow && out == R.Wrap(txIn + 1, bufLen) && from <= |polls|
      modifies this`rxIn, this`rxRing, this`txOut, this`txRing, this`irqEnable, this`hostInactive, this`polls
      modifies dev, rxBuf
      ensures Valid() && old(dev.written) <= dev.written
      ensures old(polls) <= polls
      ensures !cut && !moved ==> SeenInactive(polls, from, timeout)
      ensures moved ==> TxFree() > 0
      ensures !cut && !moved ==> TxFree() == 0
      ensures (cut ==> spins < helpFrom && hostInactive < timeout && !moved) && (helpFrom == 0 ==> moved)
    {
      moved, cut := false, false;
      var left := spins;
      while true
        invariant Valid() && old(dev.written) <= dev.written && 0 <= left <= spins
        invariant old(polls) <= polls
        decreases left
      {
        var seen := SpaceLook(out, helpFrom <= spins - left);
        if seen {
          break;
        }
        var inactive := GiveUp(from);
        if inactive {
          break;
        }
        if left == 0 {
          cut := true;
          return;
        }
        left := left - 1;
      }
      moved := LastSpaceLook(out, from);
    }

    /** Turns transmit interrupts on, with interrupts disabled meanwhile. */
    method Kick()
      requires Valid()
      modifies this`irqEnable, this`txWindow, dev
      ensures Valid() && !txWindow && irqEnable.we
      ensures dev.written == old(dev.written)
    {
      SetEnables(irqEnable.(we := true));
      txWindow := false;
    }

    /** Copies and publishes what fits, then kicks the handler. */
    method WriteRound(ptr: seq<Byte>, start: nat, count: int, ghost base: seq<Byte>) returns (taken: nat, out: nat)
      requires Valid() && start <= |ptr| && count <= |ptr| && (start == 0 || start <= count)
      requires accepted == base + ptr[..start]
      modifies this`rxIn, this`rxRing, this`txIn, this`txOut, this`txRing, this`irqEnable, this`hostInactive
      modifies this`polls
      modifies this`txWindow, this`accepted, dev, rxBuf, txBuf
      ensures Valid() && !txWindow && irqEnable.we
      ensures start <= taken <= |ptr| && (taken == start || taken <= count)
      ensures accepted == base + ptr[..taken]
      ensures taken - start >= Min(count - start, old(TxFree()))
      ensures taken < count ==> out == R.Wrap(txIn + 1, bufLen)
      ensures old(polls) <= polls && old(dev.written) <= dev.written
    {
      taken, out := start, 0;
      if taken < count {
        taken, out := Fill(ptr, taken, count, base);
      }
      Interfere();
      Kick();
    }

    /**
      One time round the writer's outer loop. It goes on only with something left to write and
      room to write it; a blocking writer with something left finishes only when the host is
      given up.
     */
    method WriteStep(ptr: seq<Byte>, start: nat, count: int, nonblock: bool, spins: nat, helpFrom: nat,
                     ghost base: seq<Byte>, ghost from: nat)
      returns (taken: nat, next: Next)
      requires from <= |polls|
      requires Valid() && start <= |ptr| && count <= |ptr| && (start == 0 || start <= count)
      requires accepted == base + ptr[..start]
      modifies this`rxIn, this`rxRing, this`txIn, this`txOut, this`txRing, this`irqEnable, this`hostInactive
      modifies this`polls
      modifies this`txWindow, this`accepted, dev, rxBuf, txBuf
      ensures Valid() && !txWindow
      ensures start <= taken <= |ptr| && (taken == start || taken <= count)
      ensures accepted == base + ptr[..taken]
      ensures taken - start >= Min(count - start, old(TxFree()))
      ensures old(polls) <= polls && old(dev.written) <= dev.written
      ensures next == Again ==> taken < count && TxFree() > 0
      ensures next == Cut ==> taken < count && !nonblock && spins < helpFrom && hostInactive < timeout
      ensures next == Finish ==> count <= taken || nonblock || (TxFree() == 0 && SeenInactive(polls, from, timeout))
      ensures next == Finish && helpFrom == 0 ==> count <= taken || nonblock
      ensures nonblock ==> next == Finish
    {
      var out;
      taken, out := WriteRound(ptr, start, count, base);
      next := Finish;
      if taken < count && !nonblock {
        var moved, cut := AwaitSpace(out, spins, helpFrom, from);
        next := if cut then Cut else if moved then Again else Finish;
      }
    }

    /**
      The foreground write. Whatever prefix it reports, exactly that prefix has joined the
      accepted stream; it takes at least what was free at entry. A blocking write of something
      comes back short, or empty-handed, only when the host was seen to be inactive. In each wait
      help comes before every look from number `helpFrom` on: a call allowed that many looks is not
      cut off, and one helped from the first look on writes everything.
     */
    method Write(ptr: seq<Byte>, count: int, nonblock: bool, spins: nat, helpFrom: nat) returns (r: CallResult)
      requires Valid() && !txWindow && !rxWindow && count <= |ptr|
      modifies this`rxIn, this`rxRing, this`txIn, this`txOut, this`txRing, this`irqEnable, this`hostInactive
      modifies this`polls
      modifies this`txWindow, this`accepted, dev, rxBuf, txBuf
      ensures Valid() && !txWindow
      ensures nonblock ==> r.Returned?
      ensures Taken(r) == 0 || Taken(r) <= count
      ensures accepted == old(accepted) + ptr[..Taken(r)]
      ensures Taken(r) >= Min(count, old(TxFree()))
      ensures r.Spinning? ==> !nonblock && r.taken < count && spins < helpFrom && hostInactive < timeout
      ensures r.Spinning? ==> timeout > INT_MAX - 2 || !SilentFor(polls, timeout)
      ensures helpFrom == 0 && !nonblock && 0 < count ==> r == Returned(count)
      ensures r.Returned? && r.rc <= 0 ==> r.rc == if nonblock then -EWOULDBLOCK else -EIO
      ensures old(polls) <= polls && old(dev.written) <= dev.written
      ensures r.Returned? && !nonblock && Taken(r) < count ==>
                TxFree() == 0 && SeenInactive(polls, |old(polls)|, timeout)
      ensures r.Returned? && !nonblock && timeout >= INT_MAX - 1 ==> Taken(r) >= count
    {
      var taken: nat := 0;
      ghost var first := true;
      while true
        invariant Valid() && !txWindow
        invariant taken == 0 || taken <= count
        invariant accepted == old(accepted) + ptr[..taken]
        invariant first ==> taken == 0 && TxFree() == old(TxFree())
        invariant !first ==> taken < count && TxFree() > 0 && taken >= Min(count, old(TxFree()))
        invariant old(polls) <= polls && old(dev.written) <= dev.written
        decreases count - taken, first
      {
        var next;
        taken, next := WriteStep(ptr, taken, count, nonblock, spins, helpFrom, old(accepted), |old(polls)|);
        first := false;
        if next == Cut {
          NotGivenUpIff();
          return Spinning(taken);
        }
        if next == Finish {
          break;
        }
      }
      r := Report(taken, nonblock);
    }

    /** The run of received bytes starting at `rxOut` as the reader computes it from its two index reads. */
    function DataRun(in0: nat, out0: nat): (n: nat)
      requires in0 < bufLen && out0 < bufLen
      ensures out0 + n <= bufLen && n <= R.Distance(out0, in0, bufLen)
      ensures n == 0 <==> in0 == out0
    {
      if in0 >= out0 then in0 - out0 else bufLen - out0
    }

    /** The copy out of the ring: the bytes copied stay put, whatever the handler adds meanwhile. */
    method CopyOut(buffer: array<Byte>, at: nat, n: nat)
      requires Valid() && n <= |rxRing| && rxOut + n <= bufLen && at + n <= buffer.Length
      requires buffer != rxBuf && buffer != txBuf
      modifies this`rxIn, this`rxRing, this`txOut, this`txRing, this`irqEnable, this`hostInactive, this`polls
      modifies dev, rxBuf, buffer
      ensures Valid() && old(rxRing) <= rxRing
      ensures buffer[..at] == old(buffer[..at]) && buffer[at + n..] == old(buffer[at + n..])
      ensures buffer[at..at + n] == rxRing[..n]
      ensures old(polls) <= polls
    {
      var i := 0;
      while i < n
        invariant 0 <= i <= n
        invariant Valid() && old(rxRing) <= rxRing
        invariant buffer[..at] == old(buffer[..at]) && buffer[at + n..] == old(buffer[at + n..])
        invariant buffer[at..at + i] == old(rxRing)[..i]
        invariant old(polls) <= polls
      {
        Interfere();
        GetByte(i, buffer, at + i);
        i := i + 1;
      }
      ghost var chunk := rxRing[..n];
      assert chunk == old(rxRing)[..n];
      Interfere();
      assert rxRing[..n] == chunk;
    }

    /** Copies the byte `i` places past `rxOut`. */
    method GetByte(i: nat, buffer: array<Byte>, at: nat)
      requires Valid() && i < |rxRing| && rxOut + i < bufLen && at < buffer.Length
      requires buffer != rxBuf && buffer != txBuf
      modifies buffer
      ensures Valid() && buffer[..] == old(buffer[..])[at := rxRing[i]]
    {
      assert rxRing[i] == rxBuf[..][R.Slot(rxOut, i, bufLen)];
      buffer[at] := rxBuf[rxOut + i];
    }

    /** Frees the copied chunk with a single store to `rxOut`. */
    method Release(n: nat)
      requires Valid() && 0 < n <= |rxRing| && rxOut + n <= bufLen
      modifies this`rxOut, this`rxRing, this`rxWindow, this`delivered
      ensures Valid() && rxWindow
      ensures delivered == old(delivered) + old(rxRing)[..n] && rxRing == old(rxRing)[n..]
    {
      R.Consume(rxBuf[..], rxOut, rxIn, rxRing, n);
      rxOut := R.Wrap(rxOut + n, bufLen);
      delivered := delivered + rxRing[..n];
      rxRing, rxWindow := rxRing[n..], true;
    }

    /** Reads both receive indices, in that order; the snapshot may be stale but never too large. */
    method MeasureData() returns (n: nat, in0: nat)
      requires Valid()
      modifies this`rxIn, this`rxRing, this`txOut, this`txRing, this`irqEnable, this`hostInactive, this`polls
      modifies dev, rxBuf
      ensures Valid() && old(rxRing) <= rxRing
      ensures n <= |rxRing| && rxOut + n <= bufLen
      ensures n == 0 ==> in0 == rxOut && old(rxRing) == []
      ensures old(polls) <= polls
    {
      Interfere();
      in0 := rxIn;
      Interfere();
      var out0 := rxOut;
      n := DataRun(in0, out0);
    }

    /** One round of the reader's inner loop: measure, copy a chunk out, free it. */
    method DrainOnce(buffer: array<Byte>, at: nat, want: nat) returns (n: nat, in0: nat)
      requires Valid() && 0 < want && at + want <= buffer.Length
      requires buffer != rxBuf && buffer != txBuf
      modifies this`rxIn, this`rxOut, this`rxRing, this`txOut, this`txRing, this`irqEnable, this`hostInactive
      modifies this`polls
      modifies this`rxWindow, this`delivered, dev, rxBuf, buffer
      ensures Valid() && n <= want
      ensures n == 0 ==> in0 == rxOut && rxWindow == old(rxWindow) && delivered == old(delivered) && old(rxRing) == []
      ensures n == 0 ==> buffer[..] == old(buffer[..])
      ensures n > 0 ==> rxWindow && delivered == old(delivered) + buffer[at..at + n]
      ensures buffer[..at] == old(buffer[..at]) && buffer[at + n..] == old(buffer[at + n..])
      ensures |delivered| + |rxRing| >= old(|delivered| + |rxRing|)
      ensures old(polls) <= polls
    {
      n, in0 := MeasureData();
      if n > 0 {
        n := Min(n, want);
        CopyOut(buffer, at, n);
        Release(n);
      }
    }

    /** The reader's inner loop: take bytes until the buffer is full or the ring was seen empty. */
    method Drain(buffer: array<Byte>, space: nat) returns (got: nat, in0: nat)
      requires Valid() && !rxWindow && 0 < space <= buffer.Length
      requires buffer != rxBuf && buffer != txBuf
      modifies this`rxIn, this`rxOut, this`rxRing, this`txOut, this`txRing, this`irqEnable, this`hostInactive
      modifies this`polls
      modifies this`rxWindow, this`delivered, dev, rxBuf, buffer
      ensures Valid() && got <= space
      ensures delivered == old(delivered) + buffer[..got] && buffer[got..] == old(buffer[got..])
      ensures got == 0 ==> !rxWindow && in0 == rxOut
      ensures got >= Min(space, old(|rxRing|))
      ensures old(polls) <= polls
    {
      got, in0 := 0, 0;
      while got < space
        invariant Valid() && 0 <= got <= space
        invariant delivered == old(delivered) + buffer[..got] && buffer[got..] == old(buffer[got..])
        invariant got == 0 ==> !rxWindow
        invariant |delivered| + |rxRing| >= old(|delivered| + |rxRing|)
        invariant old(polls) <= polls
        decreases space - got
      {
        var n;
        ghost var before := buffer[..];
        n, in0 := DrainOnce(buffer, got, space - got);
        if n == 0 {
          break;
        }
        assert buffer[..got + n] == before[..got] + buffer[got..got + n];
        assert buffer[got + n..] == before[got..][n..];
        got := got + n;
      }
    }

    /** Waits in the same way until `rxIn` has left `in0` or the host is given up. */
    method AwaitData(in0: nat, spins: nat, helpFrom: nat, ghost from: nat) returns (moved: bool, cut: bool)
      requires from <= |polls|
      requires Valid() && !rxWindow && in0 == rxOut
      modifies this`rxIn, this`rxRing, this`txOut, this`txRing, this`irqEnable, this`hostInactive, this`polls
      modifies dev, rxBuf
      ensures Valid() && old(rxRing) <= rxRing
      ensures old(polls) <= polls
      ensures !cut && !moved ==> SeenInactive(polls, from, timeout)
      ensures moved ==> rxRing != []
      ensures !cut && !moved ==> rxRing == []
      ensures (cut ==> spins < helpFrom && hostInactive < timeout && !moved) && (helpFrom == 0 ==> moved)
    {
      moved, cut := false, false;
      var left := spins;
      while true
        invariant Valid() && old(rxRing) <= rxRing && 0 <= left <= spins
        invariant old(polls) <= polls
        decreases left
      {
        BeforeLook(helpFrom <= spins - left);
        if in0 != rxIn {
          break;
        }
        var inactive := GiveUp(from);
        if inactive {
          break;
        }
        if left == 0 {
          cut := true;
          return;
        }
        left := left - 1;
      }
      InterfereLate(from);
      moved := in0 != rxIn;
    }

    /** One time round the reader's outer loop. It goes on only when it got nothing and data has come. */
    method ReadStep(buffer: array<Byte>, space: nat, nonblock: bool, spins: nat, helpFrom: nat, ghost from: nat)
      returns (got: nat, next: Next)
      requires from <= |polls|
      requires Valid() && !rxWindow && 0 < space <= buffer.Length
      requires buffer != rxBuf && buffer != txBuf
      modifies this`rxIn, this`rxOut, this`rxRing, this`txOut, this`txRing, this`irqEnable, this`hostInactive
      modifies this`polls
      modifies this`rxWindow, this`delivered, dev, rxBuf, buffer
      ensures Valid() && got <= space && (got == 0 ==> !rxWindow)
      ensures delivered == old(delivered) + buffer[..got] && buffer[got..] == old(buffer[got..])
      ensures got >= Min(space, old(|rxRing|))
      ensures next != Finish ==> got == 0 && !nonblock
      ensures next == Again ==> rxRing != []
      ensures old(polls) <= polls
      ensures next == Finish && got == 0 ==> nonblock || (rxRing == [] && SeenInactive(polls, from, timeout))
      ensures next == Cut ==> spins < helpFrom && hostInactive < timeout
      ensures next == Finish && helpFrom == 0 ==> got > 0 || nonblock
    {
      var in0;
      got, in0 := Drain(buffer, space);
      next := Finish;
      if got == 0 && !nonblock {
        var moved, cut := AwaitData(in0, spins, helpFrom, from);
        next := if cut then Cut else if moved then Again else Finish;
      }
    }

    /** The reader's outer loop, `cut` when it is left waiting. */
    method Gather(buffer: array<Byte>, space: int, nonblock: bool, spins: nat, helpFrom: nat)
      returns (got: nat, cut: bool)
      requires Valid() && !rxWindow && space <= buffer.Length && buffer != rxBuf && buffer != txBuf
      modifies this`rxIn, this`rxOut, this`rxRing, this`txOut, this`txRing, this`irqEnable, this`hostInactive
      modifies this`polls
      modifies this`rxWindow, this`delivered, dev, rxBuf, buffer
      ensures Valid() && (got == 0 || got <= space) && (got == 0 ==> !rxWindow)
      ensures delivered == old(delivered) + buffer[..got] && buffer[got..] == old(buffer[got..])
      ensures got >= Min(space, old(|rxRing|))
      ensures cut ==> got == 0 && !nonblock && 0 < space && spins < helpFrom && hostInactive < timeout
      ensures helpFrom == 0 && !nonblock && 0 < space ==> got > 0
      ensures old(polls) <= polls
      ensures got == 0 && 0 < space ==> nonblock || cut || (rxRing == [] && SeenInactive(polls, |old(polls)|, timeout))
    {
      got, cut := 0, false;
      ghost var first := true;
      while space > 0
        invariant Valid() && !rxWindow && got == 0 && old(polls) <= polls
        invariant delivered == old(delivered) && buffer[..] == old(buffer[..])
        invariant first ==> rxRing == old(rxRing)
        invariant !first ==> rxRing != [] && old(rxRing) == []
        decreases first
      {
        var next;
        got, next := ReadStep(buffer, space, nonblock, spins, helpFrom, |old(polls)|);
        first := false;
        if next != Again {
          cut := next == Cut;
          break;
        }
        assert buffer[..] == buffer[0..];
      }
    }

    /** Turns receive interrupts back on, with interrupts disabled meanwhile. */
    method Reopen()
      requires Valid()
      modifies this`irqEnable, this`rxWindow, dev
      ensures Valid() && !rxWindow && irqEnable.re
    {
      SetEnables(irqEnable.(re := true));
      rxWindow := false;
    }

    /**
      The foreground read. The bytes it returns are the next ones of the received stream; it
      returns at least what was in the ring at entry. A blocking read with room comes back
      empty-handed only when the host was seen to be inactive, and not if it was helped from the
      first look on.
     */
    method Read(buffer: array<Byte>, space: int, nonblock: bool, spins: nat, helpFrom: nat)
      returns (r: CallResult)
      requires Valid() && !txWindow && !rxWindow && space <= buffer.Length
      requires buffer != rxBuf && buffer != txBuf
      modifies this`rxIn, this`rxOut, this`rxRing, this`txOut, this`txRing, this`irqEnable, this`hostInactive
      modifies this`polls
      modifies this`rxWindow, this`delivered, dev, rxBuf, buffer
      ensures Valid() && !rxWindow
      ensures nonblock ==> r.Returned?
      ensures Taken(r) == 0 || Taken(r) <= space
      ensures delivered == old(delivered) + buffer[..Taken(r)] && buffer[Taken(r)..] == old(buffer[Taken(r)..])
      ensures Taken(r) >= Min(space, old(|rxRing|))
      ensures r.Returned? && r.rc <= 0 ==> r.rc == if nonblock then -EWOULDBLOCK else -EIO
      ensures old(polls) <= polls
      ensures r.Returned? && !nonblock && 0 < space && Taken(r) == 0 ==>
                rxRing == [] && SeenInactive(polls, |old(polls)|, timeout)
      ensures r.Returned? && !nonblock && 0 < space && timeout >= INT_MAX - 1 ==> Taken(r) > 0
      ensures r.Spinning? ==> r.taken == 0 && 0 < space && spins < helpFrom && hostInactive < timeout
      ensures r.Spinning? ==> timeout > INT_MAX - 2 || !SilentFor(polls, timeout)
      ensures helpFrom == 0 && !nonblock && 0 < space ==> r.Returned? && r.rc > 0
    {
      var got, cut := Gather(buffer, space, nonblock, spins, helpFrom);
      if cut {
        NotGivenUpIff();
        return Spinning(0);
      }
      if got != 0 {
        Interfere();
        Reopen();
      }
      r := Report(got, nonblock);
    }

    /**
      Waits for the transmit ring to drain, unless non-blocking or the host is given up. Every look
      that is helped finds at least one byte fewer, so as many of them as bytes were unsent suffice.
     */
    method Close(nonblock: bool, spins: nat, helpFrom: nat) returns (r: CallResult)
      requires Valid() && !txWindow && !rxWindow
      modifies this`rxIn, this`rxRing, this`txOut, this`txRing, this`irqEnable, this`hostInactive, this`polls
      modifies dev, rxBuf
      ensures Valid()
      ensures nonblock ==> r.Returned?
      ensures r.Returned? ==> r.rc == 0 || (r.rc == -EWOULDBLOCK && nonblock)
      ensures old(polls) <= polls && old(dev.written) <= dev.written
      ensures r == Returned(0) ==> dev.written == accepted || SeenInactive(polls, |old(polls)|, timeout)
      ensures r == Returned(0) && timeout >= INT_MAX - 1 ==> dev.written == accepted
      ensures old(txRing) == [] ==> r == Returned(0)
      ensures r.Spinning? ==> spins + 1 < helpFrom + |old(txRing)|
      ensures r.Spinning? || r == Returned(-EWOULDBLOCK) ==> hostInactive < timeout
      ensures r.Spinning? ==> timeout > INT_MAX - 2 || !SilentFor(polls, timeout)
    {
      var left := spins;
      while true
        invariant Valid() && 0 <= left <= spins
        invariant old(txRing) == [] ==> txRing == []
        invariant txRing == [] || |txRing| + spins <= |old(txRing)| + helpFrom + left
        invariant old(polls) <= polls && old(dev.written) <= dev.written
        decreases left
      {
        BeforeLook(helpFrom <= spins - left);
        var out0 := txOut;
        if out0 == txIn {
          break;
        }
        var inactive := GiveUp(|old(polls)|);
        if inactive {
          break;
        }
        if nonblock {
          return Returned(-EWOULDBLOCK);
        }
        if left == 0 {
          NotGivenUpIff();
          return Spinning(0);
        }
        left := left - 1;
      }
      r := Returned(0);
    }

    /** The driver's ioctl. `answer` is what is stored through the argument pointer, if anything. */
    method Ioctl(req: IoctlRequest) returns (rc: int, answer: int)
      requires Valid()
      modifies this`timeout
      ensures Valid()
      ensures timeout == if req.SetTimeout? then TimeoutAfter(old(timeout), req.value) else old(timeout)
      ensures rc == if req.OtherRequest? || old(timeout) == INT_MAX then -ENOTTY else 0
      ensures req.GetConnected? && rc == 0 ==> (answer == 1 <==> hostInactive < timeout) && 0 <= answer <= 1
    {
      rc, answer := -ENOTTY, 0;
      match req
      case SetTimeout(value) =>
        if timeout != INT_MAX {
          timeout := if value >= 2 && value < INT_MAX then value else INT_MAX - 1;
          rc := 0;
        }
      case GetConnected =>
        if timeout != INT_MAX {
          answer := if hostInactive < timeout then 1 else 0;
          rc := 0;
        }
      case OtherRequest =>
    }
  }
}
