// Two further results about runs of the mirrored system: what the serial line carries,
// and in what state ready leaves the write counter.  fpga/rtl/eeprom.sv

module EepromLine {
  import opened Words
  import opened EepromChip
  import opened EepromFpga
  import opened EepromMcu
  import opened EepromMirror

  // ----- what the serial line carries -----

  /** The bits on the data line at the clock edges with the serial clock enabled. */
  function ClockedBits(size: Size, s: Sys, es: seq<Event>): seq<bool>
    requires ValidMcu(s.mcu)
  {
    if es == [] then [] else
      var prev := es[..|es| - 1];
      ClockedBits(size, s, prev) + BitAt(Run(size, s, prev), es[|es| - 1])
  }

  function BitAt(s: Sys, e: Event): seq<bool> {
    if e.SClk? && s.fpga.clkEnable then [SpiOut(s.fpga)] else []
  }

  /** Command word, and data word if there is one, of every command started that is forwarded. */
  function StartedBits(size: Size, s: Sys, es: seq<Event>): seq<bool>
    requires ValidMcu(s.mcu)
  {
    if es == [] then [] else
      var prev := es[..|es| - 1];
      StartedBits(size, s, prev) + StartBits(size, Run(size, s, prev), es[|es| - 1])
  }

  function StartBits(size: Size, s: Sys, e: Event): seq<bool>
    requires ValidMcu(s.mcu)
  {
    if Sends(size, s, e) then WireBits(Step(size, s, e).fpga) else []
  }

  /** Bits of the command in progress that are still to come. */
  function ToCome(f: Fpga): seq<bool> {
    if f.InternalBusy() then WireBits(f)[BitsOut(f)..] else []
  }

  lemma BusyClockSends(f: Fpga, size: Size, falling: bool)
    requires f.InternalBusy() && Counting(size, f)
    requires f.clkEnable == (2 <= f.counter < 2 + |WireBits(f)|)
    ensures (if f.clkEnable then [SpiOut(f)] else []) + ToCome(SClkEdge(f, size, falling)) == ToCome(f)
  {
    BitsOutNext(f, size, falling);
    var g := SClkEdge(f, size, falling);
    assert WireBits(g) == WireBits(f);
    if f.clkEnable {
      SentSoFar(f, size);
    }
    hide WireBits, SClkEdge, BitsOut, Counting, Leads;
    if f.clkEnable {
      SpiOutBit(f, f.counter - 2);
    }
  }

  lemma SentSoFar(f: Fpga, size: Size)
    requires f.InternalBusy() && Counting(size, f) && 2 <= f.counter < 2 + |WireBits(f)|
    ensures BitsOut(f) == f.counter - 2
  {
    LeadsAreHigh(f, size);
    hide WireBits, Counting, Leads;
  }

  lemma ClockSends(size: Size, s: Sys, c: Chip, seen: bool)
    requires ValidMcu(s.mcu) && Inv(size, s, c)
    ensures BitAt(s, SClk(seen)) + ToCome(Step(size, s, SClk(seen)).fpga) == ToCome(s.fpga)
  {
    var f := s.fpga;
    var falling := seen && s.released > 0;
    if !f.InternalBusy() {
      RestsHigh(size, s, c);
      RestingEdge(f, size, falling);
      hide WireBits, BitsOut, SClkEdge, Inv;
    } else if Lost(f, c) {
      LostIsSilent(size, s, c, seen);
    } else {
      BusyWriter(size, s, c);
      BusyClockSends(f, size, falling);
      hide ToCome, SClkEdge, Inv, WireBits, SpiOut;
    }
  }

  lemma LostIsSilent(size: Size, s: Sys, c: Chip, seen: bool)
    requires ValidMcu(s.mcu) && Inv(size, s, c) && s.fpga.InternalBusy() && Lost(s.fpga, c)
    ensures BitAt(s, SClk(seen)) == [] && ToCome(s.fpga) == [] && ToCome(Step(size, s, SClk(seen)).fpga) == []
  {
    SmallerSize(size, c.first);
    LostRegisters(s.fpga, size, c.first);
    WireLength(s.fpga);
    WireLength(Step(size, s, SClk(seen)).fpga);
    hide SClkEdge, ToBits, LostWritten, Obey, Receive, WireBits;
  }

  lemma BusyWriter(size: Size, s: Sys, c: Chip)
    requires Inv(size, s, c) && s.fpga.InternalBusy() && !Lost(s.fpga, c)
    ensures Counting(size, s.fpga)
    ensures s.fpga.clkEnable == (2 <= s.fpga.counter < 2 + |WireBits(s.fpga)|)
  {
    hide ToBits, Expected, LinkOk, PartlyWritten;
  }

  lemma StartSends(size: Size, s: Sys, c: Chip, e: Event)
    requires ValidMcu(s.mcu) && Inv(size, s, c) && Started(size, s, e).Some?
    ensures ToCome(Step(size, s, e).fpga) == ToCome(s.fpga) + StartBits(size, s, e)
  {
    StartOwes(size, s, c, e);
    StartedIsReady(size, s, e);
    NothingToCome(s.fpga);
    var g := Step(size, s, e).fpga;
    hide WireBits, Inv, Step, Started, Sends, BitsOut, Owed;
    assert [] + StartBits(size, s, e) == StartBits(size, s, e);
    StartBusy(size, s, c, e);
  }

  lemma StartBusy(size: Size, s: Sys, c: Chip, e: Event)
    requires ValidMcu(s.mcu) && Inv(size, s, c) && Started(size, s, e).Some?
    ensures Step(size, s, e).fpga.InternalBusy()
  {
    StartRegisters(size, s, c, e);
  }

  lemma QuietBusSends(size: Size, s: Sys, c: Chip, e: Event)
    requires ValidMcu(s.mcu) && Inv(size, s, c) && Patient(s, e) && e.Bus? && Started(size, s, e).None?
    ensures ToCome(Step(size, s, e).fpga) == ToCome(s.fpga)
  {
    var f, g := s.fpga, Step(size, s, e).fpga;
    if f.Ready() {
      NoStartFrame(f, size, e.reg, e.data);
      hide NWEEdge, WireBits;
    } else {
      BlockedStep(size, s, c, e);
      LatchFrame(f, size, e.data);
      assert WireBits(g) == WireBits(f) && BitsOut(g) == BitsOut(f);
      hide NWEEdge, WireBits, BitsOut, Inv;
    }
  }

  lemma BusSends(size: Size, s: Sys, c: Chip, e: Event)
    requires ValidMcu(s.mcu) && Inv(size, s, c) && Patient(s, e) && e.Bus?
    ensures ToCome(Step(size, s, e).fpga) == ToCome(s.fpga) + StartBits(size, s, e)
  {
    hide Step, Inv, Patient, Started, ToCome;
    if Started(size, s, e).Some? {
      StartSends(size, s, c, e);
    } else {
      QuietBusSends(size, s, c, e);
    }
  }

  /** Main result: over any patient run, the bits clocked out are exactly what was still to come,
      then the command words, each followed by its data word if it has one, of the commands
      forwarded, in order; at most the end of the last one is still to come. */
  lemma {:induction false} LineCarriesCommands(size: Size, s: Sys, c: Chip, es: seq<Event>)
    requires ValidMcu(s.mcu) && Inv(size, s, c) && PatientRun(size, s, es)
    ensures ClockedBits(size, s, es) + ToCome(Run(size, s, es).fpga) == ToCome(s.fpga) + StartedBits(size, s, es)
  {
    hide Step, Inv, Patient, ToCome, BitAt, StartBits, Started, ChipStep;
    if es != [] {
      var prev, e := es[..|es| - 1], es[|es| - 1];
      LineCarriesCommands(size, s, c, prev);
      RunOk(size, s, c, prev);
      var t := Run(size, s, prev);
      StepSends(size, t, RunChip(size, c, s, prev), e);
      Regroup(ClockedBits(size, s, prev), BitAt(t, e), ToCome(Step(size, t, e).fpga), ToCome(t.fpga),
              StartBits(size, t, e), ToCome(s.fpga), StartedBits(size, s, prev));
    }
  }

  lemma Regroup(clocked: seq<bool>, bit: seq<bool>, after: seq<bool>, before: seq<bool>, start: seq<bool>,
                first: seq<bool>, started: seq<bool>)
    requires bit + after == before + start && clocked + before == first + started
    ensures clocked + bit + after == first + (started + start)
  {
    assert clocked + bit + after == clocked + (bit + after);
    assert clocked + (before + start) == clocked + before + start;
    assert first + started + start == first + (started + start);
  }

  lemma NothingToCome(f: Fpga)
    requires f.Ready()
    ensures ToCome(f) == []
  {
  }

  lemma StepSends(size: Size, s: Sys, c: Chip, e: Event)
    requires ValidMcu(s.mcu) && Inv(size, s, c) && Patient(s, e)
    ensures BitAt(s, e) + ToCome(Step(size, s, e).fpga) == ToCome(s.fpga) + StartBits(size, s, e)
  {
    hide Step, Inv, Patient, ToCome, BitAt, StartBits;
    match e
    case Bus(_, _) =>
      BusSends(size, s, c, e);
      OnlyClocksSend(s, e);
    case SClk(seen) =>
      ClockSends(size, s, c, seen);
      OnlyBusStarts(size, s, e);
    case McuIrq =>
      OnlyClocksSend(s, e);
      OnlyBusStarts(size, s, e);
      IrqLeavesFpga(size, s);
  }

  lemma OnlyClocksSend(s: Sys, e: Event)
    requires !e.SClk?
    ensures BitAt(s, e) == []
  {
  }

  lemma OnlyBusStarts(size: Size, s: Sys, e: Event)
    requires ValidMcu(s.mcu) && !e.Bus?
    ensures StartBits(size, s, e) == []
  {
  }

  // ----- what ready leaves behind in the counter -----

  /** In every patient run, whenever the console reads ready the counter is a multiple of the number
      of words, so on a chip of 1024 it is clear. */
  lemma ReadyCounter(size: Size, s0: Sys, c0: Chip, es: seq<Event>)
    requires PowerUp(size, s0, c0) && ValidMcu(s0.mcu) && PatientRun(size, s0, es)
    ensures var f := Run(size, s0, es).fpga;
            f.Ready() ==> f.counter % WordCount(size) == 0 && (size.Size2KB? ==> f.counter == 0)
  {
    PowerUpInv(size, s0, c0);
    RunOk(size, s0, c0, es);
    hide PowerUp, Inv, PatientRun, Run, RunChip;
    if Run(size, s0, es).fpga.Ready() {
      ReadyMultiple(size, Run(size, s0, es), RunChip(size, c0, s0, es));
    }
  }

  lemma ReadyMultiple(size: Size, s: Sys, c: Chip)
    requires Inv(size, s, c) && s.fpga.Ready()
    ensures s.fpga.counter % WordCount(size) == 0 && (size.Size2KB? ==> s.fpga.counter == 0)
  {
  }

  lemma IrqLeavesFpga(size: Size, s: Sys)
    requires ValidMcu(s.mcu)
    ensures Step(size, s, McuIrq).fpga == s.fpga
  {
  }

  /** On the 2 KB chip waiting for ready is enough: every command is forwarded. */
  lemma {:induction false} PatientIsPolite(s0: Sys, c0: Chip, es: seq<Event>)
    requires PowerUp(Size2KB, s0, c0) && ValidMcu(s0.mcu) && PatientRun(Size2KB, s0, es)
    ensures PoliteRun(Size2KB, s0, es)
  {
    if es != [] {
      hide Step, PowerUp, ChipStep;
      var prev := es[..|es| - 1];
      PatientIsPolite(s0, c0, prev);
      ReadyCounter(Size2KB, s0, c0, prev);
    }
  }
}
