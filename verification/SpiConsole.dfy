// A transfer as the console programs it: bytes written to the buffer, two control
// bytes, and what then goes over the line.  fpga/rtl/spi.sv

module SpiConsole {
  import opened Words
  import opened SpiEngine
  import opened SpiHandshake
  import opened SpiTransfer

  // ----- what the console has written -----

  /** The last byte written to buffer address `i` while `half` was mapped. */
  function LastWritten(s: Spi, es: seq<Event>, half: bool, i: u9): Option<u8> {
    if es == [] then None
    else
      var prev, e := es[..|es| - 1], es[|es| - 1];
      if e.Write? && e.sel.SelTxBuffer? && e.addr == i && Run(s, prev).cfg.mapped == half then Some(e.data)
      else LastWritten(s, prev, half, i)
  }

  /** The bits that one of the two input lines delivered while the SPI clock ran, since the last
      Start pulse. */
  function LineBits(s: Spi, before: seq<bool>, es: seq<Event>, spi: bool): seq<bool> {
    if es == [] then before
    else
      var prev, e := es[..|es| - 1], es[|es| - 1];
      var t := Run(s, prev);
      if !e.Clk? then LineBits(s, before, prev, spi)
      else if t.hs.Start() then []
      else if t.eng.running then LineBits(s, before, prev, spi) + [if spi then e.spiDi else e.tfDi]
      else LineBits(s, before, prev, spi)
  }

  lemma StepWrites(s: Spi, e: Event, half: bool, i: u9)
    ensures Half(Step(s, e).tx, half)[i] ==
            if e.Write? && e.sel.SelTxBuffer? && e.addr == i && s.cfg.mapped == half then ToByte(e.data)
            else Half(s.tx, half)[i]
  {
    hide ToByte, ClkEngine, ClkRx, ClkHandshake;
  }

  /** The TX buffer holds what was written last. */
  lemma {:induction false} BufferHolds(s: Spi, es: seq<Event>, half: bool, i: u9)
    ensures var b := LastWritten(s, es, half, i);
            b.Some? ==> Half(Run(s, es).tx, half)[i] == ToByte(b.value)
  {
    hide ToByte, Step, Half;
    if es != [] {
      var prev, e := es[..|es| - 1], es[|es| - 1];
      BufferHolds(s, prev, half, i);
      StepWrites(Run(s, prev), e, half, i);
    }
  }

  /** Bit `k` of a byte on the wire, counted from the most significant one. */
  lemma ToByteBit(v: u8, k: nat)
    requires k < 8
    ensures ToByte(v)[k] == (v / Pow2(7 - k) % 2 == 1)
  {
    ToBitsBit(v, 8, k);
  }

  lemma {:induction false} ToBitsBit(v: nat, n: nat, k: nat)
    requires k < n
    ensures ToBits(v, n)[k] == (v / Pow2(n - 1 - k) % 2 == 1)
  {
    if k < n - 1 {
      ToBitsBit(v / 2, n - 1, k);
      DivTwice(v, Pow2(n - 2 - k));
    }
  }

  // ----- the transfer that two control bytes start -----

  /** The console's two control writes: the low eight bits of the length, then everything else. */
  function Programmed(s: Spi, lo: u8, hi: u8): Spi {
    Step(Step(s, Write(SelCntLo, 0, lo)), Write(SelCntHi, 0, hi))
  }

  /** The low control byte, written at rest, replaces the low eight bits of the length alone. */
  lemma LowByteWritten(s: Spi, lo: u8)
    requires !s.Busy()
    ensures var len := if s.cfg.len >= 256 then 256 + lo else lo;
            Step(s, Write(SelCntLo, 0, lo)) == s.(cfg := s.cfg.(len := len))
  {
  }

  /** Length, mode, line and buffer half as bit fields of the control bytes. */
  lemma ProgrammedIs(s: Spi, w: Wires, lo: u8, hi: u8)
    requires TransferInv(s, w) && !s.Busy() && hi >= 128
    ensures var t := Programmed(s, lo, hi);
            && TransferInv(t, w) && t.Busy() && t.tx == s.tx && PhaseOf(t) == Sync0
            && t.cfg.len == hi % 2 * 256 + lo
            && (t.cfg.mode.Drives() <==> hi / 2 % 4 == 0 || hi / 2 % 4 == 2)
            && (t.cfg.mode.ModeWrite? <==> hi / 2 % 4 == 0)
            && (t.cfg.mode.ModeWaitAndRead? <==> hi / 2 % 4 == 3)
            && (t.cfg.slowClk <==> hi / 8 % 2 == 1)
            && t.cfg.channel ==
                 (match hi / 16 % 4 case 0 => DeselTF case 1 => SelTF case 2 => SelFlash case _ => SelMCU)
            && (t.cfg.mapped <==> hi / 64 % 2 == 1)
  {
    var a, b := Write(SelCntLo, 0, lo), Write(SelCntHi, 0, hi);
    TransferStep(s, w, a);
    PhaseStep(s, a);
    TransferStep(Step(s, a), w, b);
    PhaseStep(Step(s, a), b);
    hide TransferInv, Inv;
  }

  lemma {:induction false} BusyAllAlong(s: Spi, es: seq<Event>)
    requires Inv(s) && AcceptedStarts(s, es) == 0 && Run(s, es).Busy()
    ensures StaysBusy(s, es)
  {
    if es != [] {
      var prev := es[..|es| - 1];
      RunInv(s, prev);
      PhaseStep(Run(s, prev), es[|es| - 1]);
      BusyAllAlong(s, prev);
    }
  }

  lemma {:induction false} SampledLine(s: Spi, w: Wires, es: seq<Event>, spi: bool)
    requires StaysBusy(s, es) && (spi <==> s.cfg.channel.SelFlash? || s.cfg.channel.SelMCU?)
    ensures RunWires(s, w, es).miso == LineBits(s, w.miso, es, spi)
  {
    hide Step, FillerOver, LastPeriod, Outbit;
    if es != [] {
      var prev := es[..|es| - 1];
      SampledLine(s, w, prev, spi);
      OutstandingIsStable(s, prev);
    }
  }

  /** A whole transfer: from power-up the console does anything, until it is not busy and the half
      it is about to give to the engine holds `data`; then it writes the two control bytes, and
      does anything but start another transfer until this one has ended. */
  ghost predicate Carried(s0: Spi, w0: Wires, es: seq<Event>, lo: u8, hi: u8, fs: seq<Event>) {
    var s, w := Run(s0, es), RunWires(s0, w0, es);
    var p := Programmed(s, lo, hi);
    && PowerUp(s0) && !s.Busy() && hi >= 128
    && AcceptedStarts(p, fs) == 0 && Ended(Run(p, fs)) && !RunWires(p, w, fs).cut
  }

  lemma CarriedIsComplete(s0: Spi, w0: Wires, es: seq<Event>, lo: u8, hi: u8, fs: seq<Event>)
    requires Carried(s0, w0, es, lo, hi, fs)
    ensures var s, w := Run(s0, es), RunWires(s0, w0, es);
            var p := Programmed(s, lo, hi);
            var t := Run(p, fs);
            && TransferInv(s, w) && StaysBusy(p, fs) && t.cfg == p.cfg
            && Half(t.tx, !p.cfg.mapped) == Half(s.tx, !p.cfg.mapped)
            && Complete(t, RunWires(p, w, fs))
  {
    var s, w := Run(s0, es), RunWires(s0, w0, es);
    PowerUpInv(s0);
    TransferRun(s0, w0, es);
    ProgrammedIs(s, w, lo, hi);
    var p := Programmed(s, lo, hi);
    TransferRun(p, w, fs);
    EndedIsComplete(Run(p, fs), RunWires(p, w, fs));
    hide Programmed, Complete, Run, RunWires, AcceptedStarts, StaysBusy;
    BusyAllAlong(p, fs);
    OutstandingIsStable(p, fs);
  }

  /** Main result: in write and exchange mode, bits 1 and 2 of the high control byte 0 or 2, the
      line carries the bytes the console wrote to the half that bit 6 of that byte unmaps, as many
      as its bit 0 and the low control byte say and one more, each most significant bit first.
      In the other modes it is held high. */
  lemma ConsoleBytesAreSent(s0: Spi, w0: Wires, es: seq<Event>, lo: u8, hi: u8, fs: seq<Event>, data: seq<u8>)
    requires Carried(s0, w0, es, lo, hi, fs)
    requires |data| == hi % 2 * 256 + lo + 1
    requires forall i :: 0 <= i < |data| ==> LastWritten(s0, es, hi / 64 % 2 == 0, i) == Some(data[i])
    ensures var mosi := RunWires(Programmed(Run(s0, es), lo, hi), RunWires(s0, w0, es), fs).mosi;
            if hi / 2 % 4 == 0 || hi / 2 % 4 == 2 then
              && |mosi| == 8 * |data|
              && forall i :: 0 <= i < |mosi| ==> mosi[i] == (data[i / 8] / Pow2(7 - i % 8) % 2 == 1)
            else forall i :: 0 <= i < |mosi| ==> mosi[i]
  {
    hide Complete, PowerUp, Run, RunWires, AcceptedStarts, StaysBusy, Programmed, ToByte, TransferInv, Half, Pow2;
    var s, w := Run(s0, es), RunWires(s0, w0, es);
    var p := Programmed(s, lo, hi);
    CarriedIsComplete(s0, w0, es, lo, hi, fs);
    ProgrammedIs(s, w, lo, hi);
    var t, v := Run(p, fs), RunWires(p, w, fs);
    MosiOf(t, v);
    if hi / 2 % 4 == 0 || hi / 2 % 4 == 2 {
      forall i | 0 <= i < |v.mosi| ensures v.mosi[i] == (data[i / 8] / Pow2(7 - i % 8) % 2 == 1) {
        BufferHolds(s0, es, hi / 64 % 2 == 0, i / 8);
        ToByteBit(data[i / 8], i % 8);
      }
    }
  }

  lemma MosiOf(t: Spi, v: Wires)
    requires Complete(t, v)
    ensures t.cfg.mode.Drives() ==>
              && |v.mosi| == 8 * (t.cfg.len + 1)
              && forall i :: 0 <= i < |v.mosi| ==> v.mosi[i] == Half(t.tx, !t.cfg.mapped)[i / 8][i % 8]
    ensures !t.cfg.mode.Drives() ==> forall i :: 0 <= i < |v.mosi| ==> v.mosi[i]
  {
    hide Half;
    assert forall i :: 0 <= i < |v.mosi| ==> v.mosi[i] == SentBit(t, i);
  }

  /** Main result: in all modes but write, the half that bit 6 of the high control byte maps holds
      the bytes that the line chosen by its bits 4 and 5 delivered, those before the first byte
      other than 0xFF left out in mode 3. */
  lemma ConsoleBytesAreReceived(s0: Spi, w0: Wires, es: seq<Event>, lo: u8, hi: u8, fs: seq<Event>)
    requires Carried(s0, w0, es, lo, hi, fs) && hi / 2 % 4 != 0
    ensures var w := RunWires(s0, w0, es);
            var p := Programmed(Run(s0, es), lo, hi);
            var bits := LineBits(p, w.miso, fs, hi / 16 % 4 >= 2);
            var k := if hi / 2 % 4 == 3 then LeadingFillers(Bytes(bits)) else 0;
            && |bits| == 8 * (k + hi % 2 * 256 + lo + 1)
            && Half(Run(p, fs).rx, hi / 64 % 2 == 1)[..hi % 2 * 256 + lo + 1] == Bytes(bits)[k..]
  {
    hide PowerUp, Run, RunWires, AcceptedStarts, StaysBusy, Programmed, TransferInv, Half, LineBits, Bytes;
    var s, w := Run(s0, es), RunWires(s0, w0, es);
    var p := Programmed(s, lo, hi);
    CarriedIsComplete(s0, w0, es, lo, hi, fs);
    ProgrammedIs(s, w, lo, hi);
    SampledLine(p, w, fs, hi / 16 % 4 >= 2);
  }
}
