// The registers and block RAMs of the FPGA's SPI transfer engine, and what each
// of its three edges does to them: TransferClk, end of a console write (nWE) and
// begin of a console read (nOE).  fpga/rtl/spi.sv

module SpiEngine {
  import opened Words

  type u3 = x: int | 0 <= x < 8
  type u9 = x: int | 0 <= x < 512

  /** Two halves of 512 bytes; address bit 9 selects the half. */
  type Ram = r: seq<Byte> | |r| == 1024 witness seq(1024, _ => FILLER)

  datatype Mode = ModeWrite | ModeRead | ModeExchange | ModeWaitAndRead {
    /** The modes that put TX bits on the line; the others hold it high. */
    predicate Drives() { ModeWrite? || ModeExchange? }
  }

  datatype Channel = DeselTF | SelTF | SelFlash | SelMCU

  /** The start/busy toggles and their synchronisers; index 0 is the newest stage. */
  datatype Handshake = Handshake(
    startAsync: bool, start0: bool, start1: bool, start2: bool,
    feedbackClk: bool, feedback0: bool, feedback1: bool)
  {
    predicate Start() { start2 != start1 }
    predicate Busy() { feedback1 != startAsync }
  }

  datatype Abort = Abort(reqAsync: bool, req0: bool, req1: bool)

  datatype Config = Config(len: u9, mode: Mode, channel: Channel, slowClk: bool, mapped: bool)

  datatype Engine = Engine(
    running: bool, lastPeriodDelay: bool, seenNonFiller: bool,
    bitPosition: u3, bytePosition: u9, shiftreg: Byte, txRead: Byte)

  datatype Spi = Spi(
    hs: Handshake, abort: Abort, cfg: Config, eng: Engine,
    rx: Ram, tx: Ram, rxRead: (Byte, Byte))
  {
    predicate Busy() { hs.Busy() }
  }

  datatype Select = SelTxBuffer | SelCntLo | SelCntHi | SelOther

  datatype Event =
    | Clk(spiDi: bool, tfDi: bool)
    | Write(sel: Select, addr: u9, data: u8)
    | Read(bufAddr: u9)

  // ----- combinational wires -----

  function RamAddr(half: bool, pos: u9): (a: int)
    ensures 0 <= a < 1024
  {
    (if half then 512 else 0) + pos
  }

  function Half(r: Ram, half: bool): (h: seq<Byte>)
    ensures |h| == 512
    ensures forall i :: 0 <= i < 512 ==> h[i] == r[RamAddr(half, i)]
  {
    if half then r[512..] else r[..512]
  }

  function Succ(pos: u9): u9 {
    if pos == 511 then 0 else pos + 1
  }

  /** The line the selected device answers on. */
  function Miso(s: Spi, spiDi: bool, tfDi: bool): bool {
    if s.cfg.channel.SelFlash? || s.cfg.channel.SelMCU? then spiDi else tfDi
  }

  function ShiftRegNext(s: Spi, di: bool): Byte {
    s.eng.shiftreg[1..] + [di]
  }

  predicate FillerOver(s: Spi, di: bool) {
    s.eng.seenNonFiller || ShiftRegNext(s, di) != FILLER
  }

  predicate LastPeriod(s: Spi, di: bool) {
    ((FillerOver(s, di) && s.eng.bytePosition == s.cfg.len) || s.abort.req1) && s.eng.bitPosition == 7
  }

  /** The bit on the outgoing data line. */
  function Outbit(s: Spi): bool {
    if s.cfg.mode.Drives() then s.eng.shiftreg[0] else true
  }

  // ----- posedge TransferClk -----

  function ClkHandshake(s: Spi): Handshake {
    Handshake(s.hs.startAsync, s.hs.startAsync, s.hs.start0, s.hs.start1,
              if s.eng.lastPeriodDelay then s.hs.start2 else s.hs.feedbackClk,
              s.hs.feedback0, s.hs.feedback1)
  }

  /** The shifter's registers after the edge, from the wires at the edge. */
  function NextEngine(e: Engine, start: bool, last: bool, over: bool, wait: bool, next: Byte, fetched: Byte): Engine {
    var atEnd := e.bitPosition == 7;
    Engine(
      if start then true else if last then false else e.running,
      if e.lastPeriodDelay then false else if last then true else e.lastPeriodDelay,
      if start then !wait else if atEnd && next != FILLER then true else e.seenNonFiller,
      if e.running then (if atEnd then 0 else e.bitPosition + 1) else e.bitPosition,
      if start || (atEnd && over) then Succ(e.bytePosition) else if !e.running then 511 else e.bytePosition,
      if start || e.running then (if atEnd || start then e.txRead else next) else e.shiftreg,
      fetched)
  }

  function ClkEngine(s: Spi, di: bool): Engine {
    NextEngine(s.eng, s.hs.Start(), LastPeriod(s, di), FillerOver(s, di), s.cfg.mode.ModeWaitAndRead?,
               ShiftRegNext(s, di), s.tx[RamAddr(!s.cfg.mapped, Succ(s.eng.bytePosition))])
  }

  function ClkRx(s: Spi, di: bool): Ram {
    if s.eng.bitPosition == 7 && !s.cfg.mode.ModeWrite?
    then s.rx[RamAddr(s.cfg.mapped, s.eng.bytePosition) := ShiftRegNext(s, di)]
    else s.rx
  }

  function ClkEdge(s: Spi, spiDi: bool, tfDi: bool): Spi {
    var di := Miso(s, spiDi, tfDi);
    Spi(ClkHandshake(s), Abort(s.abort.reqAsync, s.abort.reqAsync, s.abort.req0),
        s.cfg, ClkEngine(s, di), ClkRx(s, di), s.tx, s.rxRead)
  }

  // ----- posedge nWE -----

  function DecodeMode(m: int): Mode {
    if m == 0 then ModeWrite else if m == 1 then ModeRead else if m == 2 then ModeExchange else ModeWaitAndRead
  }

  function DecodeChannel(c: int): Channel {
    if c == 0 then DeselTF else if c == 1 then SelTF else if c == 2 then SelFlash else SelMCU
  }

  function DecodeHi(cfg: Config, data: u8): Config {
    Config(data % 2 * 256 + cfg.len % 256, DecodeMode(data / 2 % 4), DecodeChannel(data / 16 % 4),
           data / 8 % 2 == 1, data / 64 % 2 == 1)
  }

  function WriteEdge(s: Spi, sel: Select, addr: u9, data: u8): Spi {
    match sel
    case SelTxBuffer => s.(tx := s.tx[RamAddr(s.cfg.mapped, addr) := ToByte(data)])
    case SelCntLo => if s.Busy() then s else s.(cfg := s.cfg.(len := s.cfg.len / 256 * 256 + data))
    case SelCntHi =>
      if s.Busy() then (if data < 128 then s.(abort := s.abort.(reqAsync := true)) else s)
      else if data < 128 then s.(cfg := DecodeHi(s.cfg, data))
      else s.(cfg := DecodeHi(s.cfg, data),
              hs := s.hs.(startAsync := !s.hs.startAsync),
              abort := s.abort.(reqAsync := false))
    case SelOther => s
  }

  // ----- negedge nOE -----

  function ReadEdge(s: Spi, addr: u9): Spi {
    var even := addr / 2 * 2;
    s.(hs := s.hs.(feedback0 := s.hs.feedbackClk, feedback1 := s.hs.feedback0),
       rxRead := (s.rx[RamAddr(!s.cfg.mapped, even)], s.rx[RamAddr(!s.cfg.mapped, even + 1)]))
  }

  // ----- runs -----

  function Step(s: Spi, e: Event): Spi {
    match e
    case Clk(spiDi, tfDi) => ClkEdge(s, spiDi, tfDi)
    case Write(sel, addr, data) => WriteEdge(s, sel, addr, data)
    case Read(addr) => ReadEdge(s, addr)
  }

  /** The state after the events of `es`, in order. */
  function Run(s: Spi, es: seq<Event>): Spi {
    if es == [] then s else Step(Run(s, es[..|es| - 1]), es[|es| - 1])
  }

  /** Does the event start a transfer in this state? */
  predicate Accepts(s: Spi, e: Event) {
    e.Write? && e.sel.SelCntHi? && e.data >= 128 && !s.Busy()
  }

  /** Registers as configured at power-up; those without an initial value are arbitrary. */
  predicate PowerUp(s: Spi) {
    && s.hs == Handshake(false, false, false, false, false, false, false)
    && s.abort == Abort(false, false, false)
    && !s.eng.running && !s.eng.lastPeriodDelay && s.eng.bitPosition == 0
  }
}
