/** The serial port driver, against the device. */
module SerialPort {
  import opened Memory
  import opened Uart

  /** The build-time configuration; base is the register base, 0 if there is none. */
  datatype Config = Config(base: Word, useHardwareFlowControl: bool, detectCable: bool, fifoControl: Byte,
                           extendedTxFifoSize: nat, clockRate: Word, baudRate: Word, lineControl: Word)

  // Register offsets, and the bits the driver looks at or sets.
  const TXBUF := 0  // with the divisor access bit clear
  const DLL := 0    // with the divisor access bit set
  const IER := 1    // clear
  const DLM := 1    // set
  const FCR := 2
  const LCR := 3
  const MCR := 4

  const FCR_FIFOE: nat := 0x01
  const FCR_RXSR: nat := 0x02
  const FCR_TXSR: nat := 0x08
  const FCR_FIFO64: nat := 0x20
  const FCRVAL: Byte := FCR_FIFOE + FCR_RXSR + FCR_TXSR
  const LCR_8N1: Byte := 0x03
  const LCR_DLAB: nat := 0x80
  const MCR_DTR: nat := 0x01
  const MCR_RTS: nat := 0x02
  const MCRVAL: Byte := MCR_DTR + MCR_RTS
  const LSR_RXRDY: nat := 0x01
  const LSR_TXRDY: nat := 0x20
  const LSR_TEMT: nat := 0x40
  const MSR_CTS: nat := 0x10
  const MSR_DSR: nat := 0x20

  // ----- What the driver promises of the register accesses -----

  /** The modem status tables, DSR being bit 5 and CTS bit 4: with cable detection
      both must be set, without it DSR may be clear. */
  predicate MayTransmit(cfg: Config, v: Byte) {
    if cfg.detectCable then Bit(v, 0x20) && Bit(v, 0x10) else !Bit(v, 0x20) || Bit(v, 0x10)
  }

  /** With hardware flow control each transmitted byte directly follows a modem
      status that allows it; without it no modem status is read. */
  ghost predicate Guarded(cfg: Config, log: seq<Event>) {
    if cfg.useHardwareFlowControl then
      forall i | 0 <= i < |log| && log[i].Transmit? ::
        i > 0 && log[i - 1].ModemStatus? && MayTransmit(cfg, log[i - 1].v)
    else
      forall e | e in log :: !e.ModemStatus?
  }

  /** Statuses that may be read at any time: no transmission, and a modem status
      only with hardware flow control. */
  ghost predicate Harmless(cfg: Config, more: seq<Event>) {
    forall e | e in more :: !e.Transmit? && (e.ModemStatus? ==> cfg.useHardwareFlowControl)
  }

  /** The bytes written to the transmitter. */
  function Transmits(log: seq<Event>): seq<Byte> {
    if log == [] then []
    else Transmits(log[..|log| - 1]) + if log[|log| - 1].Transmit? then [log[|log| - 1].b] else []
  }

  /** The line status of a transmitter with nothing left in FIFO and shift register. */
  predicate Idle(v: Byte) {
    Bit(v, 0x40) && Bit(v, 0x20)
  }

  /** How often the transmitter was found idle, that is how many flushes ended. */
  function Flushes(log: seq<Event>): nat {
    if log == [] then 0
    else Flushes(log[..|log| - 1]) + if log[|log| - 1].LineStatus? && Idle(log[|log| - 1].v) then 1 else 0
  }

  lemma Appended(log: seq<Event>, e: Event)
    ensures Transmits(log + [e]) == Transmits(log) + if e.Transmit? then [e.b] else []
    ensures Flushes(log + [e]) == Flushes(log) + if e.LineStatus? && Idle(e.v) then 1 else 0
  {
    assert (log + [e])[..|log|] == log;
  }

  lemma GuardedMore(cfg: Config, log: seq<Event>, more: seq<Event>)
    requires Guarded(cfg, log) && Harmless(cfg, more)
    ensures Guarded(cfg, log + more)
  {
    hide MayTransmit;
    forall i | |log| <= i < |log + more|
      ensures !(log + more)[i].Transmit?
    {
      assert (log + more)[i] in more;
    }
  }

  /** Such statuses neither add bytes nor need a guard. */
  lemma {:induction false} AppendedStatuses(cfg: Config, log: seq<Event>, more: seq<Event>)
    requires Harmless(cfg, more)
    ensures Transmits(log + more) == Transmits(log)
    ensures Guarded(cfg, log) ==> Guarded(cfg, log + more)
    ensures Flushes(log + more) == Flushes(log) + Flushes(more)
    decreases |more|
  {
    hide Guarded, Idle;
    if Guarded(cfg, log) {
      GuardedMore(cfg, log, more);
    }
    if more == [] {
      assert log + more == log;
    } else {
      var front, e := more[..|more| - 1], more[|more| - 1];
      assert e in more;
      AppendedStatuses(cfg, log, front);
      Appended(log + front, e);
      assert log + more == (log + front) + [e];
    }
  }

  lemma StatusesHarmless(cfg: Config, more: seq<Event>)
    requires forall e | e in more :: e.LineStatus? || (e.ModemStatus? && cfg.useHardwareFlowControl)
    ensures Harmless(cfg, more)
  {
  }

  lemma {:induction false} NoFlushes(log: seq<Event>)
    requires forall e | e in log :: e.ModemStatus?
    ensures Flushes(log) == 0
    decreases |log|
  {
    if log != [] {
      assert log[|log| - 1] in log;
      NoFlushes(log[..|log| - 1]);
    }
  }

  lemma NothingLogged(cfg: Config)
    ensures Transmits([]) == [] && Flushes([]) == 0 && Guarded(cfg, [])
  {
  }

  // ----- Waiting -----

  /** SerialPortWaitWritable: nothing is transmitted, and with hardware flow control
      the last modem status read allows it; without it none is read. */
  method SerialPortWaitWritable(cfg: Config, u: Device) returns (ghost waited: seq<Event>)
    modifies u
    ensures u.Flows() && u.regs == old(u.regs) && u.log == old(u.log) + waited
    ensures forall e | e in waited :: e.ModemStatus?
    ensures if cfg.useHardwareFlowControl then waited != [] && MayTransmit(cfg, waited[|waited| - 1].v)
            else waited == []
  {
    waited := [];
    if !cfg.useHardwareFlowControl {
      assert u.log == old(u.log) + [];
      return;
    }
    assert u.log == old(u.log) + waited;
    while true
      invariant u.Flows() && u.regs == old(u.regs) && u.log == old(u.log) + waited
      invariant forall e | e in waited :: e.ModemStatus?
      decreases u.reluctance
    {
      var v := u.ReadMsr();
      ghost var before := waited;
      waited := waited + [ModemStatus(v)];
      assert old(u.log) + before + [ModemStatus(v)] == old(u.log) + waited;
      if cfg.detectCable {
        if Bit(v, MSR_DSR) && Bit(v, MSR_CTS) {
          return;
        }
      } else {
        if !(Bit(v, MSR_DSR) && !Bit(v, MSR_CTS)) {
          return;
        }
      }
    }
  }

  /** SerialPortFlush: on return the FIFO and the shift register are empty. */
  method SerialPortFlush(u: Device) returns (ghost waited: seq<Event>)
    modifies u
    ensures u.Flows() && u.regs == old(u.regs) && u.log == old(u.log) + waited
    ensures u.fifo == [] && u.shift.None?
    ensures (forall e | e in waited :: e.LineStatus?) && Flushes(waited) == 1
  {
    waited := [];
    assert u.log == old(u.log) + waited;
    while true
      invariant u.Flows() && u.regs == old(u.regs) && u.log == old(u.log) + waited
      invariant (forall e | e in waited :: e.LineStatus?) && Flushes(waited) == 0
      decreases u.Work(), u.patience
    {
      var v := u.ReadLsr();
      ghost var before := waited;
      waited := waited + [LineStatus(v)];
      assert old(u.log) + before + [LineStatus(v)] == old(u.log) + waited;
      Appended(before, LineStatus(v));
      if Bit(v, LSR_TEMT) && Bit(v, LSR_TXRDY) {
        return;
      }
    }
  }

  // ----- Writing -----

  /** The transmit FIFO is off. */
  predicate NoFifo(cfg: Config) {
    !Bit(cfg.fifoControl, 0x01)
  }

  /** It is on, with 16 bytes. */
  predicate SmallFifo(cfg: Config) {
    Bit(cfg.fifoControl, 0x01) && !Bit(cfg.fifoControl, 0x20)
  }

  /** It is on, with the extended size. */
  predicate LargeFifo(cfg: Config) {
    Bit(cfg.fifoControl, 0x01) && Bit(cfg.fifoControl, 0x20)
  }

  /** The hardware has the FIFO that is configured. */
  predicate DeepEnough(cfg: Config, depth: nat) {
    && depth >= 1
    && (SmallFifo(cfg) ==> depth >= 16)
    && (LargeFifo(cfg) ==> depth >= cfg.extendedTxFifoSize)
  }

  /** Bytes rounded up to whole FIFOs. */
  function CeilDiv(n: nat, size: nat): nat
    requires size > 0
  {
    (n + size - 1) / size
  }

  lemma WholeDivisions(n: nat)
    ensures CeilDiv(n, 1) == n && CeilDiv(n, 16) == (n + 15) / 16
  {
  }

  /** After `waits` waits `next` of n bytes are sent. */
  predicate Rounds(next: nat, n: nat, waits: nat, size: nat) {
    if next < n then next == waits * size else waits > 0 && (waits - 1) * size < next <= waits * size
  }

  lemma RoundsStart(n: nat, size: nat)
    requires n > 0
    ensures Rounds(0, n, 0, size)
  {
  }

  lemma RoundsStep(next: nat, n: nat, waits: nat, size: nat)
    requires Rounds(next, n, waits, size) && next < n && size > 0
    ensures Rounds(if n - next < size then n else next + size, n, waits + 1, size)
  {
  }

  lemma RoundsEnd(n: nat, waits: nat, size: nat)
    requires Rounds(n, n, waits, size) && size > 0
    ensures CeilDiv(n, size) == waits
  {
    assert n + size - 1 == size * waits + (n - 1 - (waits - 1) * size);
    QuotientUnique(n + size - 1, size, waits, n - 1 - (waits - 1) * size);
  }

  /** The device is not touched. */
  twostate predicate Untouched(u: Device)
    reads u
  {
    u.Flows() && u.regs == old(u.regs) && u.log == old(u.log) && u.line == old(u.line) && u.fifo == old(u.fifo)
  }

  /** SerialPortWrite. While the divisor latch is inaccessible the bytes of the
      buffer, and nothing else, are written to the transmitter in order; with flow
      control each is preceded by a modem status that allows it, and without it no
      modem status is read; the transmitter is waited for once per FIFO, of 1
      byte, 16 or the extended size; and if the hardware has the FIFO that is
      configured, none is lost and they follow on the wire. While the latch is
      accessible they all end in it instead. */
  method SerialPortWrite(cfg: Config, u: Device, buffer: array?<Byte>, bytes: nat)
      returns (r: nat, ghost mine: seq<Event>)
    requires buffer != null ==> bytes <= buffer.Length
    requires buffer != null && cfg.base != 0 && bytes > 0 && LargeFifo(cfg) ==> cfg.extendedTxFifoSize > 0
    modifies u
    ensures r == if buffer == null || cfg.base == 0 then 0 else bytes
    ensures u.log == old(u.log) + mine && Guarded(cfg, mine)
    ensures u.Inbound() == old(u.Inbound())
    ensures buffer == null || cfg.base == 0 ==> Untouched(u) && mine == []
    ensures buffer != null && cfg.base != 0 && bytes == 0 ==>
              Transmits(mine) == [] && Flushes(mine) == 1 && u.regs == old(u.regs) && u.Flows() && u.line == u.Wire()
    ensures buffer != null && cfg.base != 0 && bytes > 0 ==>
              && (NoFifo(cfg) ==> Flushes(mine) == bytes)
              && (SmallFifo(cfg) ==> Flushes(mine) == (bytes + 15) / 16)
              && (LargeFifo(cfg) ==> Flushes(mine) == CeilDiv(bytes, cfg.extendedTxFifoSize))
    ensures buffer != null && cfg.base != 0 && bytes > 0 && !old(u.regs).Dlab() ==>
              && Transmits(mine) == buffer[..bytes] && u.regs == old(u.regs)
              && (DeepEnough(cfg, u.depth) ==>
                    u.Wire() == old(u.Wire()) + buffer[..bytes] && u.overrun == old(u.overrun))
    ensures buffer != null && cfg.base != 0 && bytes > 0 && old(u.regs).Dlab() ==>
              && Transmits(mine) == [] && u.Wire() == old(u.Wire()) && u.overrun == old(u.overrun)
              && u.regs == old(u.regs).(dll := buffer[bytes - 1])
  {
    hide Transmits, Flushes, Guarded, Harmless, Bit, CeilDiv;
    NothingLogged(cfg);
    mine := [];
    assert u.log == old(u.log) + mine;
    if buffer == null {
      return 0, mine;
    }
    if cfg.base == 0 {
      return 0, mine;
    }
    if bytes == 0 {
      ghost var waited := SerialPortFlush(u);
      StatusesHarmless(cfg, waited);
      AppendedStatuses(cfg, [], waited);
      assert [] + waited == waited;
      assert u.line + [] + [] == u.line;
      return 0, waited;
    }
    var fifoSize := 1;
    if Bit(cfg.fifoControl, FCR_FIFOE) {
      if !Bit(cfg.fifoControl, FCR_FIFO64) {
        fifoSize := 16;
      } else {
        fifoSize := cfg.extendedTxFifoSize;
      }
    }
    r := bytes;
    WholeDivisions(bytes);
    mine := WriteBytes(cfg, u, buffer[..bytes], fifoSize);
  }

  /** The outer loop: one FIFO after another. */
  method WriteBytes(cfg: Config, u: Device, data: seq<Byte>, fifoSize: nat) returns (ghost mine: seq<Event>)
    requires fifoSize > 0 && data != []
    modifies u
    ensures u.log == old(u.log) + mine && Guarded(cfg, mine) && u.Inbound() == old(u.Inbound())
    ensures Flushes(mine) == CeilDiv(|data|, fifoSize)
    ensures Transfer(u, data, mine, fifoSize)
  {
    hide Transmits, Flushes, Guarded, Harmless, CeilDiv, Rounds;
    NothingLogged(cfg);
    RoundsStart(|data|, fifoSize);
    mine := [];
    assert u.log == old(u.log) + mine;
    var next: nat := 0;
    ghost var waits: nat := 0;
    assert data[..0] == [] && old(u.Wire()) + [] == old(u.Wire());
    while next < |data|
      invariant next <= |data| && u.Inbound() == old(u.Inbound())
      invariant u.log == old(u.log) + mine && Guarded(cfg, mine)
      invariant Transfer(u, data[..next], mine, fifoSize)
      invariant Flushes(mine) == waits
      invariant Rounds(next, |data|, waits, fifoSize)
    {
      ghost var waited := SerialPortFlush(u);
      StatusesHarmless(cfg, waited);
      AppendedStatuses(cfg, mine, waited);
      assert old(u.log) + mine + waited == old(u.log) + (mine + waited);
      mine := mine + waited;
      ghost var start := next;
      ghost var more;
      next, more := FillFifo(cfg, u, data, next, fifoSize, old(u.log), mine);
      assert data[..start] + data[start..next] == data[..next];
      assert old(u.Wire()) + data[..start] + data[start..next] == old(u.Wire()) + data[..next];
      mine := more;
      RoundsStep(start, |data|, waits, fifoSize);
      waits := waits + 1;
    }
    assert data[..next] == data;
    RoundsEnd(|data|, waits, fifoSize);
  }

  /** The inner loop: up to fifoSize bytes into an empty FIFO. */
  method FillFifo(cfg: Config, u: Device, data: seq<Byte>, first: nat, fifoSize: nat,
      ghost before: seq<Event>, ghost mine: seq<Event>)
      returns (next: nat, ghost mine': seq<Event>)
    requires first < |data| && fifoSize > 0 && u.fifo == []
    requires u.log == before + mine && Guarded(cfg, mine)
    modifies u
    ensures next == if |data| - first < fifoSize then |data| else first + fifoSize
    ensures u.log == before + mine' && Guarded(cfg, mine') && u.Inbound() == old(u.Inbound())
    ensures Flushes(mine') == Flushes(mine)
    ensures if old(u.regs).Dlab() then
              Transmits(mine') == Transmits(mine) && u.Wire() == old(u.Wire()) && u.overrun == old(u.overrun)
              && u.regs == old(u.regs).(dll := data[next - 1])
            else
              Transmits(mine') == Transmits(mine) + data[first..next] && u.regs == old(u.regs)
              && (fifoSize <= u.depth ==> u.Wire() == old(u.Wire()) + data[first..next] && u.overrun == old(u.overrun))
  {
    hide Transmits, Flushes, Guarded, Harmless;
    next := first;
    mine' := mine;
    var index: nat := 0;
    while index < fifoSize && next < |data|
      invariant next == first + index && index <= fifoSize && next <= |data|
      invariant fifoSize <= u.depth && !old(u.regs).Dlab() ==> |u.fifo| <= index
      invariant u.log == before + mine' && Guarded(cfg, mine') && u.Inbound() == old(u.Inbound())
      invariant Flushes(mine') == Flushes(mine)
      invariant if old(u.regs).Dlab() then
                  Transmits(mine') == Transmits(mine) && u.Wire() == old(u.Wire()) && u.overrun == old(u.overrun)
                  && u.regs == if index == 0 then old(u.regs) else old(u.regs).(dll := data[next - 1])
                else
                  Transmits(mine') == Transmits(mine) + data[first..next] && u.regs == old(u.regs)
                  && (fifoSize <= u.depth ==>
                        u.Wire() == old(u.Wire()) + data[first..next] && u.overrun == old(u.overrun))
    {
      mine' := SendByte(cfg, u, data[next], before, mine');
      assert data[first..next] + [data[next]] == data[first..next + 1];
      assert old(u.Wire()) + data[first..next] + [data[next]] == old(u.Wire()) + (data[first..next] + [data[next]]);
      assert Transmits(mine) + data[first..next] + [data[next]] == Transmits(mine) + (data[first..next] + [data[next]]);
      index, next := index + 1, next + 1;
    }
  }

  /** What has become of the bytes sent since the old state. */
  twostate predicate Transfer(u: Device, sent: seq<Byte>, mine: seq<Event>, fifoSize: nat)
    reads u
  {
    if old(u.regs).Dlab() then
      && Transmits(mine) == [] && u.Wire() == old(u.Wire()) && u.overrun == old(u.overrun)
      && u.regs == if sent == [] then old(u.regs) else old(u.regs).(dll := sent[|sent| - 1])
    else
      && Transmits(mine) == sent && u.regs == old(u.regs)
      && (fifoSize <= u.depth ==> u.Wire() == old(u.Wire()) + sent && u.overrun == old(u.overrun))
  }

  lemma GuardedTransmit(cfg: Config, log: seq<Event>, b: Byte)
    requires Guarded(cfg, log)
    requires cfg.useHardwareFlowControl ==>
               log != [] && log[|log| - 1].ModemStatus? && MayTransmit(cfg, log[|log| - 1].v)
    ensures Guarded(cfg, log + [Transmit(b)])
  {
    hide MayTransmit;
  }

  lemma LatchWrite(r: Registers, b: Byte)
    ensures r.Write(TXBUF, b) == if r.Dlab() then r.(dll := b) else r
  {
  }

  /** One turn of the inner loop: wait until the peer may be sent to, then write. */
  method SendByte(cfg: Config, u: Device, b: Byte, ghost before: seq<Event>, ghost mine: seq<Event>)
      returns (ghost mine': seq<Event>)
    requires u.log == before + mine && Guarded(cfg, mine)
    modifies u
    ensures u.log == before + mine' && Guarded(cfg, mine') && Flushes(mine') == Flushes(mine)
    ensures u.Inbound() == old(u.Inbound())
    ensures u.regs == if old(u.regs).Dlab() then old(u.regs).(dll := b) else old(u.regs)
    ensures old(u.regs).Dlab() ==>
              Transmits(mine') == Transmits(mine) && u.Wire() == old(u.Wire()) && u.overrun == old(u.overrun)
              && |u.fifo| <= |old(u.fifo)|
    ensures !old(u.regs).Dlab() ==>
              && Transmits(mine') == Transmits(mine) + [b]
              && (|old(u.fifo)| < u.depth ==>
                    u.Wire() == old(u.Wire()) + [b] && u.overrun == old(u.overrun) && |u.fifo| <= |old(u.fifo)| + 1)
  {
    hide Transmits, Flushes, Guarded, MayTransmit, Harmless, Registers.Write;
    ghost var waited := SerialPortWaitWritable(cfg, u);
    StatusesHarmless(cfg, waited);
    AppendedStatuses(cfg, mine, waited);
    NoFlushes(waited);
    ghost var middle := mine + waited;
    GuardedTransmit(cfg, middle, b);
    LatchWrite(u.regs, b);
    assert before + mine + waited == before + middle;
    mine' := if u.regs.Dlab() then middle else middle + [Transmit(b)];
    u.Write(TXBUF, b);
    Appended(middle, Transmit(b));
    assert before + middle + [Transmit(b)] == before + (middle + [Transmit(b)]);
  }

  // ----- Reading -----

  /** Every byte was read from the receiver with RTS clear. */
  predicate ReadQuietly(log: seq<Event>) {
    forall i | 0 <= i < |log| && log[i].Receive? :: !log[i].rts
  }

  /** Mcr & ~RTS */
  function WithoutRts(mcr: Byte): (r: Byte)
    ensures !Bit(r, 0x02) && r % 2 == mcr % 2 && r / 4 == mcr / 4
  {
    if Bit(mcr, MCR_RTS) then mcr - MCR_RTS else mcr
  }

  /** Mcr | RTS, for a value without it. */
  function WithRts(mcr: Byte): (r: Byte)
    requires !Bit(mcr, MCR_RTS)
    ensures Bit(r, 0x02) && r % 2 == mcr % 2 && r / 4 == mcr / 4
  {
    mcr + MCR_RTS
  }

  /** SerialPortRead: while the divisor latch is inaccessible and the peer has
      enough to send, the buffer gets exactly the next bytes from the peer, in
      order; with flow control the peer is held off whenever one is read. While the
      latch is accessible the buffer is filled with its low byte, once the peer has
      sent anything, and nothing is received. */
  method SerialPortRead(cfg: Config, u: Device, buffer: array?<Byte>, bytes: nat)
      returns (r: nat, ghost mine: seq<Event>)
    requires buffer != null ==> bytes <= buffer.Length
    requires buffer != null && cfg.base != 0 && bytes > 0 ==>
               && (if u.regs.Dlab() then u.Inbound() != [] else bytes <= |u.Inbound()|)
               && (u.flow ==> cfg.useHardwareFlowControl || u.regs.Rts())
    modifies u, buffer
    ensures r == if buffer == null || cfg.base == 0 then 0 else bytes
    ensures u.log == old(u.log) + mine && (cfg.useHardwareFlowControl ==> ReadQuietly(mine))
    ensures u.Wire() == old(u.Wire())
    ensures buffer == null || cfg.base == 0 ==> Untouched(u)
    ensures buffer != null && cfg.base == 0 ==> buffer[..] == old(buffer[..])
    ensures buffer != null && cfg.base != 0 ==>
              && (if old(u.regs).Dlab() then
                    (forall i | 0 <= i < bytes :: buffer[i] == old(u.regs).dll) && u.Inbound() == old(u.Inbound())
                  else buffer[..bytes] == old(u.Inbound()[..bytes]) && u.Inbound() == old(u.Inbound()[bytes..]))
              && buffer[bytes..] == old(buffer[bytes..])
              && u.regs == if cfg.useHardwareFlowControl && bytes > 0
                           then old(u.regs).(mcr := WithoutRts(old(u.regs).mcr))
                           else old(u.regs)
  {
    hide Bit, ReadQuietly;
    mine := [];
    assert u.log == old(u.log) + mine;
    NothingRead();
    if buffer == null {
      return 0, mine;
    }
    if cfg.base == 0 {
      return 0, mine;
    }
    var mcr := u.ReadMcr();
    mcr := WithoutRts(mcr);
    r := 0;
    ghost var all, latch := old(u.Inbound()), old(u.regs).Dlab();
    assert all[..0] == [] && all[0..] == all;
    while r < bytes
      invariant r <= bytes
      invariant u.log == old(u.log) + mine && (cfg.useHardwareFlowControl ==> ReadQuietly(mine))
      invariant u.Wire() == old(u.Wire()) && buffer[r..] == old(buffer[..])[r..]
      invariant if latch then (forall i | 0 <= i < r :: buffer[i] == old(u.regs).dll) && u.Inbound() == all
                else r <= |all| && u.Inbound() == all[r..] && buffer[..r] == all[..r]
      invariant u.regs == if cfg.useHardwareFlowControl && r > 0 then old(u.regs).(mcr := mcr) else old(u.regs)
    {
      var b: Byte;
      ghost var more;
      b, more := ReadByte(cfg, u, mcr, old(u.log), mine);
      mine := more;
      buffer[r] := b;
      assert !latch ==> all[..r + 1] == all[..r] + [all[r]] && all[r..][1..] == all[r + 1..];
      r := r + 1;
    }
  }

  lemma NothingRead()
    ensures ReadQuietly([])
  {
  }

  lemma QuietMore(log: seq<Event>, e: Event)
    requires ReadQuietly(log) && (e.Receive? ==> !e.rts)
    ensures ReadQuietly(log + [e])
  {
  }

  lemma ReceiverReady(ready: bool, noFifo: bool, noShift: bool)
    ensures Bit((if ready then 0x01 else 0) + (if noFifo then 0x20 else 0)
                + (if noFifo && noShift then 0x40 else 0), LSR_RXRDY)
       <==> ready
  {
  }

  lemma ModemControlWrite(r: Registers, b: Byte)
    ensures r.Write(MCR, b) == r.(mcr := b)
  {
  }

  /** The inner loop: wait for a byte, inviting the peer. */
  method WaitReadable(cfg: Config, u: Device, mcr: Byte, ghost before: seq<Event>, ghost mine: seq<Event>)
      returns (ghost mine': seq<Event>)
    requires u.log == before + mine && (cfg.useHardwareFlowControl ==> ReadQuietly(mine))
    requires !Bit(mcr, MCR_RTS) && u.Inbound() != []
    requires u.flow ==> cfg.useHardwareFlowControl || u.regs.Rts()
    modifies u
    ensures u.log == before + mine' && (cfg.useHardwareFlowControl ==> ReadQuietly(mine'))
    ensures u.Wire() == old(u.Wire()) && u.Inbound() == old(u.Inbound()) && u.received != []
    ensures u.regs == old(u.regs) || (cfg.useHardwareFlowControl && u.regs == old(u.regs).(mcr := WithRts(mcr)))
  {
    hide Bit, ReadQuietly, Registers.Write;
    mine' := mine;
    while true
      invariant u.log == before + mine' && (cfg.useHardwareFlowControl ==> ReadQuietly(mine'))
      invariant u.Wire() == old(u.Wire()) && u.Inbound() == old(u.Inbound())
      invariant u.regs == old(u.regs) || (cfg.useHardwareFlowControl && u.regs == old(u.regs).(mcr := WithRts(mcr)))
      decreases !(u.flow ==> u.regs.Rts()), u.Work(), u.patience
    {
      var v := u.ReadLsr();
      ghost var seen := mine';
      mine' := seen + [LineStatus(v)];
      assert before + seen + [LineStatus(v)] == before + mine';
      if cfg.useHardwareFlowControl {
        QuietMore(seen, LineStatus(v));
      }
      ReceiverReady(u.received != [], u.fifo == [], u.shift.None?);
      if Bit(v, LSR_RXRDY) {
        return;
      }
      if cfg.useHardwareFlowControl {
        ModemControlWrite(u.regs, WithRts(mcr));
        u.Write(MCR, WithRts(mcr));
      }
    }
  }

  /** One turn of the outer loop: wait for a byte, hold the peer off and read it. */
  method ReadByte(cfg: Config, u: Device, mcr: Byte, ghost before: seq<Event>, ghost mine: seq<Event>)
      returns (b: Byte, ghost mine': seq<Event>)
    requires u.log == before + mine && (cfg.useHardwareFlowControl ==> ReadQuietly(mine))
    requires !Bit(mcr, MCR_RTS) && u.Inbound() != []
    requires u.flow ==> cfg.useHardwareFlowControl || u.regs.Rts()
    modifies u
    ensures u.log == before + mine' && (cfg.useHardwareFlowControl ==> ReadQuietly(mine'))
    ensures u.Wire() == old(u.Wire())
    ensures if old(u.regs).Dlab() then b == old(u.regs).dll && u.Inbound() == old(u.Inbound())
            else b == old(u.Inbound()[0]) && u.Inbound() == old(u.Inbound()[1..])
    ensures u.regs == if cfg.useHardwareFlowControl then old(u.regs).(mcr := mcr) else old(u.regs)
  {
    hide Bit, ReadQuietly, Registers.Write;
    mine' := WaitReadable(cfg, u, mcr, before, mine);
    if cfg.useHardwareFlowControl {
      ModemControlWrite(u.regs, mcr);
      u.Write(MCR, mcr);
    }
    b := u.ReadRxbuf();
    if !u.regs.Dlab() {
      ghost var e := Receive(b, u.regs.Rts());
      if cfg.useHardwareFlowControl {
        QuietMore(mine', e);
      }
      assert before + mine' + [e] == before + (mine' + [e]);
      mine' := mine' + [e];
    }
  }

  // ----- Initializing -----

  /** RETURN_DEVICE_ERROR */
  const DEVICE_ERROR: Word := 0x8000_0007

  /** The quotient, rounded up from a remainder of `half` on. */
  function Rounded(clock: nat, step: nat, half: nat): nat
    requires step > 0
  {
    clock / step + if clock % step >= half then 1 else 0
  }

  /** The divisor of the baud generator, in 32-bit arithmetic. */
  function Div(clockRate: Word, baudRate: Word): Word
    requires Ptr(baudRate * 16) != 0
  {
    Ptr(Rounded(clockRate, Ptr(baudRate * 16), Ptr(baudRate * 8)))
  }

  function Abs(x: int): nat {
    if x < 0 then -x else x
  }

  /** Below 2^28 baud no product wraps, and no natural number is a better divisor:
      the error in clock ticks is at most half a step. Of two that are as good it is
      the larger. */
  lemma DivIsNearest(clockRate: Word, baudRate: Word, other: nat)
    requires 0 < baudRate < 0x1000_0000
    ensures Ptr(baudRate * 16) != 0
    ensures var div := Div(clockRate, baudRate);
            && Abs(div * 16 * baudRate - clockRate) <= 8 * baudRate
            && Abs(div * 16 * baudRate - clockRate) <= Abs(other * 16 * baudRate - clockRate)
            && (other > div ==> Abs(div * 16 * baudRate - clockRate) < Abs(other * 16 * baudRate - clockRate))
  {
    hide Ptr, Div, Abs;
    var step := 16 * baudRate;
    DivValue(clockRate, baudRate);
    var div := Div(clockRate, baudRate);
    assert div * 16 * baudRate == step * div && other * 16 * baudRate == step * other;
    Nearest(clockRate, 8 * baudRate, clockRate / step, clockRate % step, other);
  }

  lemma DivValue(clockRate: Word, baudRate: Word)
    requires 0 < baudRate < 0x1000_0000
    ensures Ptr(baudRate * 16) != 0
    ensures Div(clockRate, baudRate) == Rounded(clockRate, 16 * baudRate, 8 * baudRate)
  {
    hide Ptr, Rounded;
    NoWraps(16 * baudRate);
    NoWraps(8 * baudRate);
    RoundedFits(clockRate, 16 * baudRate, 8 * baudRate);
    NoWraps(Rounded(clockRate, 16 * baudRate, 8 * baudRate));
  }

  lemma RoundedFits(clock: Word, step: int, half: nat)
    requires step >= 16
    ensures Rounded(clock, step, half) < SPACE
  {
    var q := clock / step;
    assert step * q <= clock;
    assert 16 * q <= step * q;
  }

  lemma StepsApart(step: nat, x: int, y: int)
    requires x < y
    ensures step * x + step <= step * y
  {
    assert step * y - step * x == step * (y - x);
    assert step * (y - x - 1) >= 0;
  }

  lemma Nearest(clock: nat, half: int, q: nat, rest: nat, other: nat)
    requires half > 0 && clock == 2 * half * q + rest && rest < 2 * half
    ensures var div := q + if rest >= half then 1 else 0;
            && Abs(2 * half * div - clock) <= half
            && Abs(2 * half * div - clock) <= Abs(2 * half * other - clock)
            && (other > div ==> Abs(2 * half * div - clock) < Abs(2 * half * other - clock))
  {
    var step := 2 * half;
    assert step * (q + 1) == step * q + step;
    if other < q {
      StepsApart(step, other, q);
    } else if other > q {
      StepsApart(step, q, other);
      if other > q + 1 {
        StepsApart(step, q + 1, other);
      }
    }
    NearestOf(clock, half, step * q, rest, step * other);
  }

  lemma NearestOf(clock: int, half: int, below: int, rest: int, at: int)
    requires half > 0 && clock == below + rest && 0 <= rest < 2 * half
    requires at <= below - 2 * half || at == below || at >= below + 2 * half
    ensures var best := if rest >= half then below + 2 * half else below;
            && Abs(best - clock) <= half && Abs(best - clock) <= Abs(at - clock)
            && (at > best ==> Abs(best - clock) < Abs(at - clock))
  {
  }

  lemma DefaultsToTransmitter()
    ensures !Bit(0, 0x80) && !Bit(LCR_8N1, 0x80)
  {
  }

  /** LineCtl | DLAB */
  function WithDlab(ctl: Byte): (r: Byte)
    ensures Bit(r, 0x80) && r % 0x80 == ctl % 0x80
  {
    if Bit(ctl, LCR_DLAB) then ctl else ctl + LCR_DLAB
  }

  lemma TransmitterEmpty(ready: bool, noFifo: bool, noShift: bool)
    ensures Bit((if ready then 0x01 else 0) + (if noFifo then 0x20 else 0)
                + (if noFifo && noShift then 0x40 else 0), LSR_TEMT)
       <==> noFifo && noShift
  {
  }

  /** The register writes of SerialPortInitialize. */
  function Initialized(r: Registers, ctl: Byte, div: Word): Registers {
    r.Write(IER, 0).Write(MCR, MCRVAL).Write(FCR, FCRVAL).Write(LCR, WithDlab(ctl))
     .Write(DLL, div % 0x100).Write(DLM, div / 0x100 % 0x100).Write(LCR, ctl)
  }

  lemma LowHalf(v: Word)
    ensures v % 0x1_0000 == v % 0x100 + 0x100 * (v / 0x100 % 0x100)
  {
    assert v == 0x1_0000 * (v / 0x1_0000) + v % 0x1_0000;
  }

  lemma InitializedRegisters(r: Registers, ctl: Byte, div: Word)
    ensures var r' := Initialized(r, ctl, div);
            && r'.Divisor() == div % 0x1_0000 && r'.lcr == ctl && r'.mcr == 0x03 && r'.fcr == 0x0b
            && (!r.Dlab() ==> r'.ier == 0)
  {
    hide Bit, WithDlab;
    assert WithDlab(ctl) >= 0 && Bit(WithDlab(ctl), 0x80);
    LowHalf(div);
  }

  lemma SuffixReflexive(s: seq<Byte>)
    ensures Suffix(s, s)
  {
  }

  /** The value that is set resets the receiver, and not the transmitter. */
  lemma KeepsTransmitter()
    ensures Bit(FCRVAL, 0x02) && !Bit(FCRVAL, 0x04)
  {
  }

  /** A write to a register other than the transmitter, with nothing thrown away
      that is to be transmitted. */
  method SetRegister(u: Device, offset: nat, b: Byte, ghost inbound: seq<Byte>)
    requires offset == TXBUF ==> u.regs.Dlab()
    requires offset == FCR ==> !Bit(b, 0x04)
    requires Suffix(u.Inbound(), inbound)
    modifies u
    ensures u.regs == old(u.regs).Write(offset, b) && Suffix(u.Inbound(), inbound)
    ensures u.Wire() == old(u.Wire()) && old(u.line) <= u.line && |u.fifo| <= |old(u.fifo)|
            && u.overrun == old(u.overrun)
  {
    hide Bit, Device.Wire, Device.Inbound, Device.Work, Suffix, Registers.Write;
    u.Write(offset, b);
    SuffixTransitive(u.Inbound(), old(u.Inbound()), inbound);
  }

  method SetRegisters(u: Device, ctl: Byte, div: Word)
    modifies u
    ensures u.regs == Initialized(old(u.regs), ctl, div)
    ensures u.Wire() == old(u.Wire()) && old(u.line) <= u.line && |u.fifo| <= |old(u.fifo)|
            && u.overrun == old(u.overrun)
    ensures Suffix(u.Inbound(), old(u.Inbound()))
  {
    hide Bit, Device.Wire, Device.Inbound, Device.Work, Suffix;
    ghost var inbound := u.Inbound();
    assert Suffix(inbound, inbound) by { SuffixReflexive(inbound); }
    SetRegister(u, IER, 0, inbound);
    SetRegister(u, MCR, MCRVAL, inbound);
    KeepsTransmitter();
    SetRegister(u, FCR, FCRVAL, inbound);
    SetRegister(u, LCR, WithDlab(ctl), inbound);
    assert u.regs.Dlab();
    SetRegister(u, DLL, div % 0x100, inbound);
    assert u.regs.Dlab();
    SetRegister(u, DLM, div / 0x100 % 0x100, inbound);
    SetRegister(u, LCR, ctl, inbound);
  }

  /** SerialPortInitialize: it returns the register base, not a success code. The
      divisor latch holds the divisor modulo 2^16, and it is left inaccessible,
      so that data goes to the transmitter, exactly when bit 7 of the line control
      is clear. Bytes received before may be dropped, oldest first. */
  method SerialPortInitialize(cfg: Config, u: Device) returns (r: Word)
    requires cfg.base != 0 ==> Ptr(cfg.baudRate * 16) != 0
    modifies u
    ensures r == if cfg.base == 0 then 0x8000_0007 else cfg.base
    ensures cfg.base == 0 ==> Untouched(u)
    ensures cfg.base != 0 ==>
              && u.regs.Divisor() == Div(cfg.clockRate, cfg.baudRate) % 0x1_0000
              && u.regs.lcr == (if cfg.lineControl % 0x100 == 0 then 0x03 else cfg.lineControl % 0x100)
              && (u.regs.Dlab() <==> Bit(cfg.lineControl % 0x100, 0x80))
              && u.regs.mcr == 0x03 && u.regs.fcr == 0x0b && (!old(u.regs).Dlab() ==> u.regs.ier == 0)
              && u.Wire() == old(u.Wire()) && u.line == u.Wire() && u.overrun == old(u.overrun)
              && Suffix(u.Inbound(), old(u.Inbound()))
  {
    hide Bit, Ptr, Initialized;
    if cfg.base == 0 {
      return DEVICE_ERROR;
    }
    while true
      invariant u.Flows() && u.regs == old(u.regs)
      decreases u.Work(), u.patience
    {
      var v := u.ReadLsr();
      TransmitterEmpty(u.received != [], u.fifo == [], u.shift.None?);
      if Bit(v, LSR_TEMT) {
        break;
      }
    }
    assert u.line + [] + [] == u.line;
    ghost var before := u.regs;
    var step := Ptr(cfg.baudRate * 16);
    var div: Word := cfg.clockRate / step;
    NoWraps(div);
    var divRem := cfg.clockRate % step;
    if divRem >= Ptr(cfg.baudRate * 8) {
      div := Ptr(div + 1);
    }
    var lineCtl: Byte := cfg.lineControl % 0x100;
    if lineCtl == 0 {
      lineCtl := LCR_8N1;
    }
    DefaultsToTransmitter();
    InitializedRegisters(before, lineCtl, div);
    SetRegisters(u, lineCtl, div);
    return cfg.base;
  }
}
