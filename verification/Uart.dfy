/** A 16550 UART, as the driver sees it: registers, a transmit FIFO with its shift
    register, a receive FIFO and a peer. Time passes at every register access.
    Offsets and bits are those of the device; the driver has its own names. */
module Uart {
  import opened Memory

  datatype Registers = Registers(ier: Byte, fcr: Byte, lcr: Byte, mcr: Byte, dll: Byte, dlm: Byte) {
    /** The divisor latch stands in for offsets 0 and 1. */
    predicate Dlab() {
      Bit(lcr, 0x80)
    }

    predicate Rts() {
      Bit(mcr, 0x02)
    }

    function Divisor(): nat {
      var high: int := dlm;
      dll + 0x100 * high
    }

    /** The registers after a write; the transmitter is none of them. */
    function Write(offset: nat, v: Byte): (r: Registers)
      ensures offset == 0 && !Dlab() ==> r == this
    {
      if offset == 0 && Dlab() then this.(dll := v)
      else if offset == 1 then if Dlab() then this.(dlm := v) else this.(ier := v)
      else if offset == 2 then this.(fcr := v)
      else if offset == 3 then this.(lcr := v)
      else if offset == 4 then this.(mcr := v)
      else this
    }
  }

  /** What an observer of the register accesses sees. */
  datatype Event =
    | LineStatus(v: Byte)         // line status read
    | ModemStatus(v: Byte)        // modem status read
    | Transmit(b: Byte)           // byte written to the transmitter
    | Receive(b: Byte, rts: bool) // byte read from the receiver, and RTS then

  /** s is what is left of t. */
  predicate Suffix(s: seq<Byte>, t: seq<Byte>) {
    |s| <= |t| && s == t[|t| - |s|..]
  }

  lemma SuffixTransitive(s: seq<Byte>, t: seq<Byte>, u: seq<Byte>)
    requires Suffix(s, t) && Suffix(t, u)
    ensures Suffix(s, u)
  {
  }

  class Device {
    const depth: nat              // slots of the transmit FIFO
    const flow: bool              // the peer need not send unless RTS invites it
    var regs: Registers
    var fifo: seq<Byte>           // transmit FIFO, oldest first
    var shift: Option<Byte>       // transmit shift register
    var line: seq<Byte>           // bytes that have left on the line
    var received: seq<Byte>       // receive FIFO, oldest first
    var coming: seq<Byte>         // bytes the peer has yet to send
    var overrun: bool             // a byte was written to a full FIFO and lost
    var patience: nat             // how long nothing may move
    var reluctance: nat           // how often modem status may refuse
    ghost var log: seq<Event>

    /** Everything handed to the transmitter, in order: on the line, in the shift
        register, in the FIFO. */
    function Wire(): seq<Byte>
      reads this
    {
      line + (if shift.Some? then [shift.value] else []) + fifo
    }

    /** Everything the peer sends, in order, that has not been read. */
    function Inbound(): seq<Byte>
      reads this
    {
      received + coming
    }

    /** How many moves are left. */
    function Work(): nat
      reads this
    {
      2 * |fifo| + (if shift.Some? then 1 else 0) + |coming|
    }

    /** Nothing has to move any more. */
    predicate Settled()
      reads this
    {
      fifo == [] && shift.None? && (coming == [] || (flow && !regs.Rts()))
    }

    /** Bytes advance and stay in order. */
    twostate predicate Flows()
      reads this
    {
      && Wire() == old(Wire()) && old(line) <= line && |fifo| <= |old(fifo)|
      && Inbound() == old(Inbound()) && |received| >= |old(received)|
      && Work() <= old(Work()) && overrun == old(overrun)
    }

    /** Something moved, or patience is running out, or nothing has to move. */
    twostate predicate Advances()
      reads this
    {
      Work() == old(Work()) ==> patience < old(patience) || (patience == old(patience) && Settled())
    }

    /** One move at most; bytes may arrive uninvited, but only invited ones must. */
    method Move()
      modifies `fifo, `shift, `line, `received, `coming, `patience
      ensures Flows() && Advances()
    {
      var choice: nat, refill: nat :| choice < 4;
      var mayWait := patience > 0;
      if choice == 0 && mayWait {
        patience := patience - 1;
      } else if shift.Some? && (choice == 1 || !mayWait) {
        line, shift, patience := line + [shift.value], None, refill;
      } else if shift.None? && fifo != [] && (choice == 2 || !mayWait) {
        shift, fifo, patience := Some(fifo[0]), fifo[1..], refill;
      } else if coming != [] && (choice == 3 || (!mayWait && (!flow || regs.Rts()))) {
        received, coming, patience := received + [coming[0]], coming[1..], refill;
      } else if mayWait {
        patience := patience - 1;
      }
    }

    /** Any number of moves. */
    method Elapse()
      modifies `fifo, `shift, `line, `received, `coming, `patience
      ensures Flows() && Advances()
    {
      Move();
      var n: nat :| true;
      while n > 0
        invariant Flows() && Advances()
      {
        Move();
        n := n - 1;
      }
    }

    // ----- Register access -----

    /** Line status: receiver ready, transmit FIFO empty, transmitter empty. */
    function Lsr(): Byte
      reads this
    {
      (if received != [] then 0x01 else 0)
      + (if fifo == [] then 0x20 else 0)
      + (if fifo == [] && shift.None? then 0x40 else 0)
    }

    method ReadLsr() returns (v: Byte)
      modifies `fifo, `shift, `line, `received, `coming, `patience, `log
      ensures Flows() && Advances()
      ensures v == Lsr() && log == old(log) + [LineStatus(v)]
    {
      Elapse();
      v := Lsr();
      log := log + [LineStatus(v)];
    }

    /** Modem status: the peer raises both lines after finitely many refusals. */
    method ReadMsr() returns (v: Byte)
      modifies `fifo, `shift, `line, `received, `coming, `patience, `log, `reluctance
      ensures Flows() && log == old(log) + [ModemStatus(v)]
      ensures (Bit(v, 0x20) && Bit(v, 0x10)) || reluctance < old(reluctance)
    {
      Elapse();
      var dsr: bool, cts: bool :| true;
      if reluctance == 0 {
        dsr, cts := true, true;
      } else if !(dsr && cts) {
        reluctance := reluctance - 1;
      }
      v := (if dsr then 0x20 else 0) + (if cts then 0x10 else 0);
      log := log + [ModemStatus(v)];
    }

    method ReadMcr() returns (v: Byte)
      modifies `fifo, `shift, `line, `received, `coming, `patience
      ensures Flows() && v == regs.mcr
    {
      Elapse();
      v := regs.mcr;
    }

    /** Offset 0, read: the divisor latch while it is accessible, else the oldest
        received byte. */
    method ReadRxbuf() returns (v: Byte)
      modifies `fifo, `shift, `line, `received, `coming, `patience, `log
      ensures regs.Dlab() ==> Flows() && v == regs.dll && log == old(log)
      ensures !regs.Dlab() && old(received) != [] ==>
                v == old(Inbound()[0]) && Inbound() == old(Inbound()[1..])
                && log == old(log) + [Receive(v, regs.Rts())]
                && Wire() == old(Wire()) && old(line) <= line && |fifo| <= |old(fifo)| && Work() <= old(Work())
    {
      Elapse();
      if regs.Dlab() {
        v := regs.dll;
      } else if received != [] {
        v := received[0];
        received := received[1..];
        log := log + [Receive(v, regs.Rts())];
      } else {
        v := *;
      }
    }

    /** A register write. Offset 0 is the transmitter, unless the divisor latch is
        accessible; the FIFO control register can empty either FIFO. */
    method Write(offset: nat, b: Byte)
      modifies this
      ensures regs == old(regs).Write(offset, b)
      ensures offset == 0 && !old(regs).Dlab() ==>
                && log == old(log) + [Transmit(b)]
                && Inbound() == old(Inbound())
                && (|old(fifo)| < depth ==>
                      && Wire() == old(Wire()) + [b] && old(line) <= line
                      && |fifo| <= |old(fifo)| + 1 && overrun == old(overrun))
      ensures !(offset == 0 && !old(regs).Dlab()) ==>
                && log == old(log) && old(line) <= line && |fifo| <= |old(fifo)|
                && (if offset == 2 && Bit(b, 0x04) then fifo == [] && Wire() <= old(Wire())
                    else Wire() == old(Wire()))
                && Work() <= old(Work()) && (Work() == old(Work()) ==> patience <= old(patience))
                && overrun == old(overrun)
                && Suffix(Inbound(), old(Inbound()))
                && (!(offset == 2 && Bit(b, 0x02)) ==>
                      Inbound() == old(Inbound()) && |received| >= |old(received)|)
    {
      hide Bit, Registers.Write, Registers.Dlab, Suffix;
      Elapse();
      if offset == 0 && !regs.Dlab() {
        Queue(b);
      } else {
        SetRegister(offset, b);
      }
    }

    /** A byte for the transmitter. */
    method Queue(b: Byte)
      modifies `fifo, `overrun, `reluctance, `log
      ensures log == old(log) + [Transmit(b)]
      ensures if |old(fifo)| < depth then fifo == old(fifo) + [b] && Wire() == old(Wire()) + [b]
              && overrun == old(overrun)
              else fifo == old(fifo) && overrun
    {
      log := log + [Transmit(b)];
      if |fifo| < depth {
        fifo := fifo + [b];
      } else {
        overrun := true;
      }
      var refill: nat :| true;
      reluctance := refill;
    }

    /** The registers, and what a write to the FIFO control register throws away. */
    method SetRegister(offset: nat, b: Byte)
      modifies `regs, `fifo, `received
      ensures regs == old(regs).Write(offset, b)
      ensures fifo == if offset == 2 && Bit(b, 0x04) then [] else old(fifo)
      ensures received == if offset == 2 && Bit(b, 0x02) then [] else old(received)
      ensures Wire() <= old(Wire()) && Suffix(Inbound(), old(Inbound())) && Work() <= old(Work())
    {
      hide Bit, Registers.Write;
      regs := regs.Write(offset, b);
      if offset == 2 && Bit(b, 0x04) {
        fifo := [];
      }
      if offset == 2 && Bit(b, 0x02) {
        assert Suffix(coming, received + coming);
        received := [];
      }
    }
  }
}
