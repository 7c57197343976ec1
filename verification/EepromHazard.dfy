// Commands issued in the serial clock period in which ready appears: after an erase or
// a write-all on the two smaller sizes, ready comes with the write counter one edge away
// from its reset.  Which of the next commands then reach the MCU, and which never do.

module EepromHazard {
  import opened Words
  import opened EepromChip
  import opened EepromFpga
  import opened EepromMcu
  import opened EepromMirror
  import opened EepromLine

  function Clocks(k: nat): seq<Event> {
    if k == 0 then [] else Clocks(k - 1) + [SClk(false)]
  }

  /** `k` clock edges with nothing seen from the MCU. */
  function Ticks(size: Size, s: Sys, k: nat): (t: Sys)
    requires ValidMcu(s.mcu)
    ensures ValidMcu(t.mcu)
  {
    if k == 0 then s else Step(size, Ticks(size, s, k - 1), SClk(false))
  }

  lemma {:induction false} ClocksTick(size: Size, s: Sys, k: nat)
    requires ValidMcu(s.mcu)
    ensures Run(size, s, Clocks(k)) == Ticks(size, s, k) && PoliteRun(size, s, Clocks(k))
  {
    hide Step;
    if k > 0 {
      ClocksTick(size, s, k - 1);
      RunSnoc(size, s, Clocks(k - 1), SClk(false));
    }
  }

  lemma {:induction false} RunSplit(size: Size, s: Sys, es: seq<Event>, fs: seq<Event>)
    requires ValidMcu(s.mcu)
    ensures Run(size, s, es + fs) == Run(size, Run(size, s, es), fs)
    ensures PoliteRun(size, s, es) && PoliteRun(size, Run(size, s, es), fs) ==> PoliteRun(size, s, es + fs)
  {
    if fs == [] {
      assert es + fs == es;
    } else {
      RunSplit(size, s, es, fs[..|fs| - 1]);
      assert (es + fs)[..|es + fs| - 1] == es + fs[..|fs| - 1];
    }
  }

  lemma RunSnoc(size: Size, s: Sys, es: seq<Event>, e: Event)
    requires ValidMcu(s.mcu)
    ensures Run(size, s, es + [e]) == Step(size, Run(size, s, es), e)
    ensures PoliteRun(size, s, es + [e]) == (PoliteRun(size, s, es) && Polite(size, Run(size, s, es), e))
  {
    assert (es + [e])[..|es + [e]| - 1] == es;
  }

  // ----- how the state arises -----

  lemma EraseTick(size: Size, s: Sys, c: Chip, seen: bool)
    requires ValidMcu(s.mcu) && Inv(size, s, c) && s.fpga.InternalBusy() && s.fpga.cmd.CmdErase? && c.first == 0
    ensures var t := Step(size, s, SClk(seen));
            var falling := seen && s.released > 0;
            && Inv(size, t, c) && t.mcu == s.mcu && t.released == s.released - (if falling then 1 else 0)
            && t.fpga.InternalBusy() == (s.fpga.counter + 1 < WordCount(size))
            && t.fpga.cmd == s.fpga.cmd
            && t.fpga.counter == (s.fpga.counter + 1) % 1024
            && t.fpga.externalBusy == (!falling && (s.fpga.externalBusy || s.fpga.counter == 0))
  {
    WritingEdge(size, s, c, seen);
    assert s.fpga.counter < WordCount(size);
    BitsOutNext(s.fpga, size, seen && s.released > 0);
  }

  lemma {:induction false} EraseRuns(size: Size, s: Sys, c: Chip, k: nat)
    requires ValidMcu(s.mcu) && Inv(size, s, c)
    requires s.fpga.InternalBusy() && s.fpga.cmd.CmdErase? && c.first == 0 && s.fpga.counter + k < WordCount(size)
    ensures var t := Ticks(size, s, k);
            && Inv(size, t, c) && t.mcu == s.mcu && t.released == s.released
            && t.fpga.InternalBusy() && t.fpga.cmd == s.fpga.cmd
            && t.fpga.counter == s.fpga.counter + k
            && t.fpga.externalBusy == (s.fpga.externalBusy || (s.fpga.counter == 0 && k > 0))
  {
    hide Step, Inv;
    if k > 0 {
      EraseRuns(size, s, c, k - 1);
      EraseTick(size, Ticks(size, s, k - 1), c, false);
    }
  }

  /** An erase on a chip of fewer than 1024 words that the MCU answers promptly. */
  function PromptErase(size: Size): seq<Event>
    requires !size.Size2KB?
  {
    Clocks(20) + [McuIrq] + [SClk(true)] + Clocks(WordCount(size) - 22) + [SClk(false)]
  }

  lemma AnsweredErase(size: Size, s: Sys, c: Chip)
    requires ValidMcu(s.mcu) && Inv(size, s, c) && !size.Size2KB?
    requires s.fpga.InternalBusy() && s.fpga.cmd.CmdErase? && s.fpga.counter == 0 && s.released == 0 && c.first == 0
    ensures var es := Clocks(20) + [McuIrq] + [SClk(true)];
            var t := Run(size, s, es);
            && PoliteRun(size, s, es) && Inv(size, t, c)
            && t.fpga.InternalBusy() && t.fpga.cmd.CmdErase? && t.fpga.counter == 21 && !t.fpga.externalBusy
            && t.released == 0
  {
    hide Step, Inv, Run, PoliteRun, Clocks;
    EraseRuns(size, s, c, 20);
    ClocksTick(size, s, 20);
    var a := Ticks(size, s, 20);
    AnsweredTail(size, a, c);
    RunSnoc(size, s, Clocks(20), McuIrq);
    RunSnoc(size, s, Clocks(20) + [McuIrq], SClk(true));
    QuietIsPolite(size, a);
    QuietIsPolite(size, Step(size, a, McuIrq));
  }

  lemma AnsweredTail(size: Size, a: Sys, c: Chip)
    requires ValidMcu(a.mcu) && Inv(size, a, c) && !size.Size2KB?
    requires a.fpga.InternalBusy() && a.fpga.cmd.CmdErase? && a.fpga.counter == 20 && c.first == 0
    requires a.fpga.externalBusy && a.released == 0
    ensures var t := Step(size, Step(size, a, McuIrq), SClk(true));
            && Inv(size, t, c) && t.fpga.InternalBusy() && t.fpga.cmd.CmdErase? && t.fpga.counter == 21
            && !t.fpga.externalBusy && t.released == 0
  {
    hide Step, Inv;
    AnswerErase(size, a, c);
    EraseTick(size, Step(size, a, McuIrq), c, true);
  }

  lemma QuietIsPolite(size: Size, s: Sys)
    ensures Polite(size, s, McuIrq) && forall seen :: Polite(size, s, SClk(seen))
  {
  }

  /** Once all sixteen bits are out, the MCU has the command and answers it. */
  lemma AnswerErase(size: Size, s: Sys, c: Chip)
    requires ValidMcu(s.mcu) && Inv(size, s, c) && s.fpga.InternalBusy() && s.fpga.cmd.CmdErase? && c.first == 0
    requires s.fpga.counter >= 18 && s.fpga.externalBusy && s.released == 0
    ensures var t := Step(size, s, McuIrq);
            Inv(size, t, c) && t.fpga == s.fpga && t.released == 1
  {
    assert BitsOut(s.fpga) == 16;
    assert Taken(s.fpga, s.fifo) == 0;
    assert s.fifo == CommandWords(s.fpga);
    IrqOk(size, s, c);
    CommandWord(size, s.mcu, CmdErase, s.fpga.command, s.fpga.dataOut);
  }

  lemma EraseStarts(size: Size, s: Sys, c: Chip, start: Event)
    requires ValidMcu(s.mcu) && Inv(size, s, c)
    requires Started(size, s, start) == Some(CmdErase) && Polite(size, s, start)
    ensures var s1 := Step(size, s, start);
            && Inv(size, s1, ChipStep(size, c, s, start))
            && s1.fpga.InternalBusy() && s1.fpga.cmd.CmdErase? && s1.fpga.counter == 0 && s1.released == 0
            && ChipStep(size, c, s, start).first == 0
  {
    StartOk(size, s, c, start);
    StartRegisters(size, s, c, start);
    LatchesAgree(size, s, c);
    StartChip(size, s, c, start);
    hide Inv, Step, ChipStep;
  }

  lemma EraseFinishes(size: Size, s: Sys, c: Chip)
    requires ValidMcu(s.mcu) && Inv(size, s, c) && !size.Size2KB?
    requires s.fpga.InternalBusy() && s.fpga.cmd.CmdErase? && s.fpga.counter == 21 && !s.fpga.externalBusy && c.first == 0
    ensures var es := Clocks(WordCount(size) - 22) + [SClk(false)];
            var t := Run(size, s, es);
            PoliteRun(size, s, es) && Inv(size, t, c) && t.fpga.Ready() && t.fpga.counter == WordCount(size)
  {
    hide Step, Inv;
    var k := WordCount(size) - 22;
    EraseRuns(size, s, c, k);
    ClocksTick(size, s, k);
    RunSnoc(size, s, Clocks(k), SClk(false));
    EraseTick(size, Ticks(size, s, k), c, false);
  }

  /** Ready is reached, politely, with the counter still at the number of words. */
  lemma EraseLeavesCounter(size: Size, s: Sys, c: Chip, start: Event)
    requires ValidMcu(s.mcu) && Inv(size, s, c) && !size.Size2KB?
    requires Started(size, s, start) == Some(CmdErase) && Polite(size, s, start)
    ensures var s1, c1 := Step(size, s, start), ChipStep(size, c, s, start);
            var t := Run(size, s1, PromptErase(size));
            && PoliteRun(size, s1, PromptErase(size))
            && Inv(size, t, c1) && t.fpga.Ready() && t.fpga.counter == WordCount(size)
  {
    hide Step, Inv, Started, ChipStep, Polite, Run, PoliteRun, Clocks;
    EraseStarts(size, s, c, start);
    var s1, c1 := Step(size, s, start), ChipStep(size, c, s, start);
    AnsweredErase(size, s1, c1);
    var es := Clocks(20) + [McuIrq] + [SClk(true)];
    var fs := Clocks(WordCount(size) - 22) + [SClk(false)];
    EraseFinishes(size, Run(size, s1, es), c1);
    RunSplit(size, s1, es, fs);
    assert PromptErase(size) == es + fs;
  }

  // ----- what happens to a command issued in it -----

  lemma LostTick(size: Size, s: Sys, c: Chip)
    requires ValidMcu(s.mcu) && Inv(size, s, c) && s.fpga.InternalBusy() && Lost(s.fpga, c)
    ensures var t := Step(size, s, SClk(false));
            && Inv(size, t, c) && t.mcu == s.mcu && Lost(t.fpga, c) && !t.fpga.externalBusy
            && t.fpga.InternalBusy() == (s.fpga.counter + 1 < c.first + WordCount(size))
            && (t.fpga.InternalBusy() ==> t.fpga.counter == s.fpga.counter + 1)
  {
    LostEdge(size, s, c, false);
    LostRegisters(s.fpga, size, c.first);
    hide SClkEdge, SpiOut, LostWritten, Obey;
  }

  lemma {:induction false} LostRuns(size: Size, s: Sys, c: Chip, k: nat)
    requires ValidMcu(s.mcu) && Inv(size, s, c) && s.fpga.InternalBusy() && Lost(s.fpga, c)
    requires s.fpga.counter == c.first && k < WordCount(size)
    ensures var t := Ticks(size, s, k);
            && Inv(size, t, c) && t.mcu == s.mcu && Lost(t.fpga, c)
            && t.fpga.InternalBusy() && t.fpga.counter == c.first + k
  {
    hide Step, Inv, Lost;
    if k > 0 {
      LostRuns(size, s, c, k - 1);
      LostTick(size, Ticks(size, s, k - 1), c);
    }
  }

  lemma LateStart(size: Size, s: Sys, c: Chip, start: Event)
    requires ValidMcu(s.mcu) && Inv(size, s, c) && Started(size, s, start).Some? && !Sends(size, s, start)
    ensures var s1, c1 := Step(size, s, start), ChipStep(size, c, s, start);
            && Inv(size, s1, c1) && s1.fpga.InternalBusy() && Lost(s1.fpga, c1) && s1.fpga.counter == c1.first
            && s1.mcu == s.mcu
            && c1.fpgaWords == Obey(s.fpga.memory, size, Started(size, s, start).value,
                                    s.fpga.command, s.fpga.dataOut, WordCount(size))
  {
    StartedIsReady(size, s, start);
    StepOk(size, s, c, start);
    StartRegisters(size, s, c, start);
    LatchesAgree(size, s, c);
    StartChip(size, s, c, start);
    ReadyCopies(size, s, c);
    hide Inv, Step, ChipStep, Started, Fill, Address;
  }

  /** An erase or write-all started in that state completes and reports ready although not one bit
      of it was forwarded: the FPGA's copy has it, the MCU's is untouched. */
  lemma BackToBackCommandIsLost(size: Size, s: Sys, c: Chip, start: Event)
    requires ValidMcu(s.mcu) && Inv(size, s, c) && s.fpga.Ready() && s.fpga.counter != 0
    requires Started(size, s, start) == Some(CmdErase) || Started(size, s, start) == Some(CmdWriteAll)
    ensures var t := Run(size, Step(size, s, start), Clocks(WordCount(size)));
            && t.fpga.Ready() && t.mcu == s.mcu
            && t.fpga.memory == Obey(s.fpga.memory, size, Started(size, s, start).value,
                                     s.fpga.command, s.fpga.dataOut, WordCount(size))
  {
    hide Step, Inv, Address, Started, Run, Clocks, Lost, ChipStep, Obey;
    var k := WordCount(size);
    LateStart(size, s, c, start);
    var s1, c1 := Step(size, s, start), ChipStep(size, c, s, start);
    LostRuns(size, s1, c1, k - 1);
    LostTick(size, Ticks(size, s1, k - 1), c1);
    ClocksTick(size, s1, k);
    ReadyCopies(size, Run(size, s1, Clocks(k)), c1);
  }

  // ----- exactly which commands are forwarded -----

  lemma {:induction false} NoneStartedSendsNothing(size: Size, s: Sys, es: seq<Event>)
    requires ValidMcu(s.mcu) && NoneStarted(size, s, es)
    ensures StartedBits(size, s, es) == []
  {
    hide Step, Started;
    if es != [] {
      NoneStartedSendsNothing(size, s, es[..|es| - 1]);
    }
  }

  /** Until the next ready, the line carries all of a command or nothing. */
  lemma CommandOnLine(size: Size, s: Sys, c: Chip, start: Event, es: seq<Event>)
    requires ValidMcu(s.mcu) && Inv(size, s, c) && Started(size, s, start).Some?
    requires var s1 := Step(size, s, start);
             PatientRun(size, s1, es) && NoneStarted(size, s1, es) && Run(size, s1, es).fpga.Ready()
    ensures ClockedBits(size, Step(size, s, start), es) == StartBits(size, s, start)
  {
    StartedIsReady(size, s, start);
    StepOk(size, s, c, start);
    StartSends(size, s, c, start);
    NothingToCome(s.fpga);
    var s1, c1 := Step(size, s, start), ChipStep(size, c, s, start);
    hide Step, Inv, Started, ChipStep, Run, StartBits, ToCome;
    LineCarriesCommands(size, s1, c1, es);
    NoneStartedSendsNothing(size, s1, es);
    NothingToCome(Run(size, s1, es).fpga);
    assert ClockedBits(size, s1, es) + [] == ClockedBits(size, s1, es);
    assert [] + StartBits(size, s, start) + [] == StartBits(size, s, start);
  }

  /** At rest the MCU's state is its array, the type set at start apart. */
  lemma SameMcu(size: Size, s: Sys, c: Chip, t: Sys, d: Chip)
    requires Inv(size, s, c) && Inv(size, t, d) && s.fpga.Ready() && t.fpga.Ready() && t.mcu.data == s.mcu.data
    ensures t.mcu == s.mcu
  {
  }

  /** Main result: in every state that shows ready, a command that starts reaches the MCU, bit by bit
      and in its array, exactly if the write counter was clear or the command is a write or an
      erase-all; otherwise not one bit of it is sent. */
  lemma CommandIsForwardedIff(size: Size, s: Sys, c: Chip, start: Event, es: seq<Event>)
    requires ValidMcu(s.mcu) && Inv(size, s, c) && Started(size, s, start).Some?
    requires var s1 := Step(size, s, start);
             PatientRun(size, s1, es) && NoneStarted(size, s1, es) && Run(size, s1, es).fpga.Ready()
    ensures var cmd := Started(size, s, start).value;
            var s1 := Step(size, s, start);
            && (ClockedBits(size, s1, es) == WireBits(s1.fpga) <==> IsForwarded(cmd, s.fpga.counter))
            && (if IsForwarded(cmd, s.fpga.counter)
                then Run(size, s1, es).mcu.data ==
                       Obey(s.mcu.data, size, cmd, s.fpga.command, s.fpga.dataOut, WordCount(size))
                else ClockedBits(size, s1, es) == [] && Run(size, s1, es).mcu == s.mcu)
  {
    CommandOnLine(size, s, c, start, es);
    CommandLeaves(size, s, c, start, es);
    var s1, c1 := Step(size, s, start), ChipStep(size, c, s, start);
    WireLength(s1.fpga);
    StartedIsReady(size, s, start);
    StepOk(size, s, c, start);
    RunOk(size, s1, c1, es);
    hide Step, Inv, Started, ChipStep, Run, RunChip, IsForwarded, Obey, WireBits, ClockedBits;
    if !Sends(size, s, start) {
      SameMcu(size, s, c, Run(size, s1, es), RunChip(size, c1, s1, es));
    }
  }
}
