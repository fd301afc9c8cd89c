/**
  The JTAG UART as the processor sees it: two hardware FIFOs, a control register and a
  data register, with the host computer on the far side. The host may act at any time.
 */
module JtagDevice {

  type Byte = bv8

  /** The interrupt-enable bits of the control register (RE and WE). */
  datatype Enables = Enables(re: bool, we: bool)

  /** What a read of the control register returns: RI, WI, AC and WSPACE. */
  datatype Control = Control(ri: bool, wi: bool, ac: bool, wspace: nat)

  /** What a read of the data register returns: DATA, RVALID and RAVAIL. */
  datatype Data = Data(data: Byte, rvalid: bool, ravail: nat)

  class Device {
    const readDepth: nat
    const writeDepth: nat
    var enables: Enables
    var ac: bool
    var readFifo: seq<Byte>
    var writeFifo: seq<Byte>

    // Histories: what the host has sent and received, what the processor has taken out of
    // the read FIFO, and what it has put in the data register without loss.
    ghost var hostSent: seq<Byte>
    ghost var hostGot: seq<Byte>
    ghost var popped: seq<Byte>
    ghost var written: seq<Byte>

    ghost predicate Valid()
      reads this
    {
      && 0 < readDepth < 0x1_0000 && 0 < writeDepth < 0x1_0000
      && |readFifo| <= readDepth && |writeFifo| <= writeDepth
      && hostSent == popped + readFifo
      && written == hostGot + writeFifo
    }

    constructor (readDepth: nat, writeDepth: nat)
      requires 0 < readDepth < 0x1_0000 && 0 < writeDepth < 0x1_0000
      ensures Valid() && this.readDepth == readDepth && this.writeDepth == writeDepth
      ensures readFifo == [] && writeFifo == [] && popped == [] && written == []
      ensures hostSent == [] && hostGot == []
      ensures enables == Enables(false, false) && !ac
    {
      this.readDepth, this.writeDepth := readDepth, writeDepth;
      enables, ac := Enables(false, false), false;
      readFifo, writeFifo := [], [];
      hostSent, hostGot, popped, written := [], [], [], [];
    }

    /** The free places in the write FIFO. */
    function Space(): (n: nat)
      requires Valid()
      reads this
      ensures n + |writeFifo| == writeDepth
    {
      writeDepth - |writeFifo|
    }

    /**
      Reads the control register. RI is set only when RE is set and there is something to
      read, WI only when WE is set and there is space. A `prompt` device sets them
      whenever that is so; any other may hold them back.
     */
    method ReadControl(prompt: bool) returns (c: Control)
      requires Valid()
      ensures c.ri ==> enables.re && readFifo != []
      ensures c.wi ==> enables.we && Space() > 0
      ensures prompt && enables.re && readFifo != [] ==> c.ri
      ensures prompt && enables.we && Space() > 0 ==> c.wi
      ensures c.ac == ac && c.wspace == Space()
    {
      var ri: bool := *;
      var wi: bool := *;
      c := Control((prompt || ri) && enables.re && |readFifo| > 0,
                   (prompt || wi) && enables.we && writeDepth > |writeFifo|, ac, writeDepth - |writeFifo|);
    }

    /** Writes the control register. Writing a one to AC clears it. */
    method WriteControl(e: Enables, clearAc: bool)
      requires Valid()
      modifies this`enables, this`ac
      ensures Valid() && enables == e && ac == (old(ac) && !clearAc)
    {
      enables := e;
      if clearAc {
        ac := false;
      }
    }

    /** Reads the data register, taking one byte out of the read FIFO if there is one. */
    method ReadData() returns (d: Data)
      requires Valid()
      modifies this`readFifo, this`popped
      ensures Valid() && d.rvalid == (old(readFifo) != [])
      ensures d.rvalid ==> readFifo == old(readFifo)[1..] && d.data == old(readFifo)[0] && d.ravail == |readFifo|
      ensures d.rvalid ==> popped == old(popped) + [d.data]
      ensures !d.rvalid ==> unchanged(this) && d.ravail == 0
    {
      if readFifo == [] {
        d := Data(0, false, 0);
      } else {
        d := Data(readFifo[0], true, |readFifo| - 1);
        popped := popped + [readFifo[0]];
        readFifo := readFifo[1..];
      }
    }

    /** Writes the data register. The byte is lost when the write FIFO is full. */
    method WriteData(b: Byte)
      requires Valid()
      modifies this`writeFifo, this`written
      ensures Valid()
      ensures old(Space()) > 0 ==> writeFifo == old(writeFifo) + [b] && written == old(written) + [b]
      ensures old(Space()) == 0 ==> unchanged(this)
    {
      if |writeFifo| < writeDepth {
        writeFifo := writeFifo + [b];
        written := written + [b];
      }
    }

    /** The host does anything it can: sends bytes that fit, collects bytes, sets AC. */
    method Host()
      requires Valid()
      modifies this`readFifo, this`writeFifo, this`ac, this`hostSent, this`hostGot
      ensures Valid()
      ensures old(hostSent) <= hostSent && old(hostGot) <= hostGot
      ensures old(readFifo) <= readFifo && old(Space()) <= Space()
    {
      var collected: int := *;
      if 0 <= collected <= |writeFifo| {
        hostGot := hostGot + writeFifo[..collected];
        writeFifo := writeFifo[collected..];
      }
      var arriving: seq<Byte> := *;
      if |readFifo| + |arriving| <= readDepth {
        hostSent := hostSent + arriving;
        readFifo := readFifo + arriving;
      }
      var polled: bool := *;
      ac := ac || polled;
    }

    /** The host sends a byte if the processor has none to read. */
    method Supply()
      requires Valid()
      modifies this`readFifo, this`hostSent
      ensures Valid() && readFifo != [] && old(readFifo) <= readFifo
    {
      if readFifo == [] {
        var b: Byte := *;
        hostSent, readFifo := hostSent + [b], [b];
      }
    }

    /** The host collects everything that was sent to it. */
    method Collect()
      requires Valid()
      modifies this`writeFifo, this`hostGot
      ensures Valid() && writeFifo == [] && hostGot == written
    {
      hostGot := hostGot + writeFifo;
      writeFifo := [];
    }
  }
}
