// The engine as hardware state: registers and block RAMs updated in place, one
// method per edge, each proved against the edge functions of SpiEngine.  As with
// non-blocking assignments, every new value is computed from the registers as they
// were, and are committed together.

module SpiCore {
  import opened Words
  import opened SpiEngine

  /** The edge, register by register, in terms of the wires they share. */
  lemma EdgeFromWires(s: Spi, spiDi: bool, tfDi: bool, di: bool, next: Byte, over: bool, last: bool)
    requires di == if s.cfg.channel.SelFlash? || s.cfg.channel.SelMCU? then spiDi else tfDi
    requires next == s.eng.shiftreg[1..] + [di] && over == (s.eng.seenNonFiller || next != FILLER)
    requires last == (((over && s.eng.bytePosition == s.cfg.len) || s.abort.req1) && s.eng.bitPosition == 7)
    ensures ClkEdge(s, spiDi, tfDi) ==
            Spi(ClkHandshake(s), Abort(s.abort.reqAsync, s.abort.reqAsync, s.abort.req0), s.cfg,
                NextEngine(s.eng, s.hs.start2 != s.hs.start1, last, over, s.cfg.mode.ModeWaitAndRead?, next,
                           s.tx[RamAddr(!s.cfg.mapped, Succ(s.eng.bytePosition))]),
                if s.eng.bitPosition == 7 && !s.cfg.mode.ModeWrite?
                then s.rx[RamAddr(s.cfg.mapped, s.eng.bytePosition) := next] else s.rx,
                s.tx, s.rxRead)
  {
    hide NextEngine, RamAddr, Succ;
  }

  class Core {
    var hs: Handshake
    var abort: Abort
    var cfg: Config
    var eng: Engine
    var rxRead: (Byte, Byte)
    const rxBuffer: array<Byte>
    const txBuffer: array<Byte>

    ghost predicate Valid() {
      rxBuffer.Length == 1024 && txBuffer.Length == 1024 && rxBuffer != txBuffer
    }

    ghost function State(): Spi
      reads this, rxBuffer, txBuffer
      requires Valid()
    {
      Spi(hs, abort, cfg, eng, rxBuffer[..], txBuffer[..], rxRead)
    }

    constructor ()
      ensures Valid() && PowerUp(State()) && fresh(rxBuffer) && fresh(txBuffer)
    {
      hs := Handshake(false, false, false, false, false, false, false);
      abort := Abort(false, false, false);
      cfg := Config(0, ModeWrite, DeselTF, false, false);
      eng := Engine(false, false, false, 0, 0, FILLER, FILLER);
      rxRead := (FILLER, FILLER);
      rxBuffer := new Byte[1024](_ => FILLER);
      txBuffer := new Byte[1024](_ => FILLER);
    }

    method PosedgeTransferClk(spiDi: bool, tfDi: bool)
      requires Valid()
      modifies this, rxBuffer
      ensures Valid() && State() == ClkEdge(old(State()), spiDi, tfDi)
    {
      hide ClkHandshake, ClkEngine, ClkRx, ClkEdge, NextEngine, LastPeriod, FillerOver, Miso, RamAddr, Succ;
      ghost var s := State();
      var start := hs.start2 != hs.start1;
      var di := if cfg.channel.SelFlash? || cfg.channel.SelMCU? then spiDi else tfDi;
      var shiftRegNext: Byte := eng.shiftreg[1..] + [di];
      var fillerOver := eng.seenNonFiller || shiftRegNext != FILLER;
      var lastPeriod := ((fillerOver && eng.bytePosition == cfg.len) || abort.req1) && eng.bitPosition == 7;
      ghost var fetched := txBuffer[RamAddr(!cfg.mapped, Succ(eng.bytePosition))];
      SynchroniserEdge();
      ReceiveEdge(shiftRegNext);
      ShifterEdge(start, lastPeriod, fillerOver, shiftRegNext);
      assert eng == NextEngine(s.eng, start, lastPeriod, fillerOver, cfg.mode.ModeWaitAndRead?, shiftRegNext, fetched);
      EdgeFromWires(s, spiDi, tfDi, di, shiftRegNext, fillerOver, lastPeriod);
    }

    method ReceiveEdge(shiftRegNext: Byte)
      requires Valid()
      modifies rxBuffer
      ensures rxBuffer[..] == if eng.bitPosition == 7 && !cfg.mode.ModeWrite?
                              then old(rxBuffer[..])[RamAddr(cfg.mapped, eng.bytePosition) := shiftRegNext]
                              else old(rxBuffer[..])
    {
      if eng.bitPosition == 7 && !cfg.mode.ModeWrite? {
        rxBuffer[RamAddr(cfg.mapped, eng.bytePosition)] := shiftRegNext;
      }
    }

    method SynchroniserEdge()
      requires Valid()
      modifies this`hs, this`abort
      ensures hs == ClkHandshake(old(State()))
      ensures abort == Abort(old(abort.reqAsync), old(abort.reqAsync), old(abort.req0))
    {
      var feedback := hs.feedbackClk;
      if eng.lastPeriodDelay { feedback := hs.start2; }
      hs := Handshake(hs.startAsync, hs.startAsync, hs.start0, hs.start1, feedback, hs.feedback0, hs.feedback1);
      abort := Abort(abort.reqAsync, abort.reqAsync, abort.req0);
    }

    /** The always blocks of the shifter, given the wires they share. */
    method ShifterEdge(start: bool, lastPeriod: bool, fillerOver: bool, shiftRegNext: Byte)
      requires Valid()
      modifies this`eng
      ensures eng == NextEngine(old(eng), start, lastPeriod, fillerOver, cfg.mode.ModeWaitAndRead?, shiftRegNext,
                                txBuffer[RamAddr(!cfg.mapped, Succ(old(eng.bytePosition)))])
    {
      var atEnd := eng.bitPosition == 7;

      var delay := eng.lastPeriodDelay;
      if lastPeriod { delay := true; }
      if eng.lastPeriodDelay { delay := false; }

      var running := eng.running;
      if start { running := true; } else if lastPeriod { running := false; }

      var seen := eng.seenNonFiller;
      if start { seen := !cfg.mode.ModeWaitAndRead?; }
      else if atEnd && shiftRegNext != FILLER { seen := true; }

      var position := eng.bytePosition;
      if start || (atEnd && fillerOver) { position := Succ(eng.bytePosition); }
      else if !eng.running { position := 511; }

      var shiftreg := eng.shiftreg;
      if start || eng.running { shiftreg := if atEnd || start then eng.txRead else shiftRegNext; }

      var bit := eng.bitPosition;
      if eng.running { bit := if atEnd then 0 else bit + 1; }

      var fetched := txBuffer[RamAddr(!cfg.mapped, Succ(eng.bytePosition))];
      eng := Engine(running, delay, seen, bit, position, shiftreg, fetched);
    }

    method PosedgeNWE(sel: Select, addr: u9, data: u8)
      requires Valid()
      modifies this, txBuffer
      ensures Valid() && State() == WriteEdge(old(State()), sel, addr, data)
    {
      var busy := hs.feedback1 != hs.startAsync;
      match sel {
        case SelTxBuffer =>
          txBuffer[RamAddr(cfg.mapped, addr)] := ToByte(data);
        case SelCntLo =>
          if !busy { cfg := cfg.(len := cfg.len / 256 * 256 + data); }
        case SelCntHi =>
          if !busy {
            cfg := Config(data % 2 * 256 + cfg.len % 256, DecodeMode(data / 2 % 4),
                          DecodeChannel(data / 16 % 4), data / 8 % 2 == 1, data / 64 % 2 == 1);
            if data >= 128 {
              hs := hs.(startAsync := !hs.startAsync);
              abort := abort.(reqAsync := false);
            }
          } else if data < 128 {
            abort := abort.(reqAsync := true);
          }
        case SelOther =>
      }
    }

    method NegedgeNOE(bufAddr: u9)
      requires Valid()
      modifies this
      ensures Valid() && State() == ReadEdge(old(State()), bufAddr)
    {
      var even := bufAddr / 2 * 2;
      rxRead := (rxBuffer[RamAddr(!cfg.mapped, even)], rxBuffer[RamAddr(!cfg.mapped, even + 1)]);
      hs := hs.(feedback0 := hs.feedbackClk, feedback1 := hs.feedback0);
    }
  }
}
